/** Serving a subtree to a peer: getNodeFatByPath and WireBudget of shamap/wire.go, and
    the bounded read of shamap/shamap.go. */
module Serving {
  import opened KeyPath
  import opened Trie
  import opened Hashing
  import opened WireFormat

  const NODE_ID_BYTES: int := 33
  /** A node identifier and the largest inner node on the wire. */
  const MAX_INNER_WIRE: int := 546

  function BranchCount(t: Tree): nat
    requires t.Inner? && |t.kids| == 16
  {
    Count(Bits(t), |Bits(t)|)
  }

  /** wireNodeSize: the node identifier and the node's wire form. */
  function WireBytes(kind: LeafKind, t: Tree): nat {
    match t
    case Empty => 33
    case Leaf(_, data) => 33 + |data| + if KeyOnWire(kind) then 33 else 1
    case Inner(kids) =>
      if |kids| != 16 then 33
      else 33 + if BranchCount(t) < 12 then BranchCount(t) * 33 + 1 else 513
  }

  /** The charge for a node is the size of what is sent for it. */
  lemma {:induction false} WireBytesAgree(kind: LeafKind, t: Tree, path: seq<Nibble>)
    requires Canonical(t, path) && t != Empty && (t.Inner? ==> BranchCount(t) > 0)
    ensures WireBytes(kind, t) == 33 + |Wire(kind, t)|
  {
    if t.Leaf? {
      LeafSizeAgrees(kind, t.key, t.data);
    } else {
      TreeIsTidy(kind, t, path);
      InnerSizeAgrees(HashKids(kind, t), Bits(t));
    }
  }

  // ------------------------------------------------------------- what is served

  /** One node met by the walk: sent, or only accounted for. */
  datatype Event = Event(path: seq<Nibble>, node: Tree, sent: bool)

  predicate Sized(t: Tree)
    decreases t
  {
    t.Inner? ==> |t.kids| == 16 && forall i :: 0 <= i < 16 ==> Sized(t.kids[i])
  }

  /** Whether the walk goes below a node: it has depth left, or a single child. */
  predicate Opens(t: Tree, depth: int)
    requires t.Inner? ==> |t.kids| == 16
  {
    t.Inner? && (depth != 0 || BranchCount(t) == 1)
  }

  /** The whole walk from a node, in the order of the source: the node, then its branches
      from the last to the first. */
  function Events(t: Tree, path: seq<Nibble>, depth: int, fatLeaves: bool): seq<Event>
    requires Sized(t)
    decreases t, 17
  {
    [Event(path, t, true)] + if Opens(t, depth) then Below(t, path, depth, fatLeaves, 16) else []
  }

  /** What is met below the first n branches. */
  function Below(t: Tree, path: seq<Nibble>, depth: int, fatLeaves: bool, n: nat): seq<Event>
    requires Sized(t) && t.Inner? && n <= 16
    decreases t, n
  {
    if n == 0 then []
    else
      Branch(t, path, depth, fatLeaves, n - 1) + Below(t, path, depth, fatLeaves, n - 1)
  }

  function Branch(t: Tree, path: seq<Nibble>, depth: int, fatLeaves: bool, b: nat): seq<Event>
    requires Sized(t) && t.Inner? && b < 16
    decreases t, 0
  {
    var child := t.kids[b];
    if child.Empty? then []
    else if child.Inner? && (depth > 1 || BranchCount(t) == 1) then
      Events(child, path + [b], if BranchCount(t) == 1 then depth else depth - 1, fatLeaves)
    else [Event(path + [b], child, child.Inner? || fatLeaves)]
  }

  function Sent(events: seq<Event>): seq<Event> {
    if events == [] then [] else (if events[0].sent then [events[0]] else []) + Sent(events[1..])
  }

  function Cost(kind: LeafKind, events: seq<Event>): nat {
    if events == [] then 0 else WireBytes(kind, events[0].node) + Cost(kind, events[1..])
  }

  lemma {:induction false} Regroup(a: seq<Event>, b: seq<Event>, c: seq<Event>)
    ensures (a + b) + c == a + (b + c)
  {
  }

  lemma {:induction false} SentCons(e: Event, s: seq<Event>)
    ensures Sent([e] + s) == (if e.sent then [e] else []) + Sent(s)
  {
    assert ([e] + s)[1..] == s;
  }

  lemma {:induction false} SentAppend(a: seq<Event>, b: seq<Event>)
    ensures Sent(a + b) == Sent(a) + Sent(b)
  {
    if a == [] {
      assert a + b == b;
    } else {
      hide Sent;
      var e, rest := a[0], a[1..];
      assert a == [e] + rest && a + b == [e] + (rest + b);
      SentCons(e, rest);
      SentCons(e, rest + b);
      SentAppend(rest, b);
    }
  }

  lemma {:induction false} CostAppend(kind: LeafKind, a: seq<Event>, b: seq<Event>)
    ensures Cost(kind, a + b) == Cost(kind, a) + Cost(kind, b)
  {
    if a == [] {
      assert a + b == b;
    } else {
      assert (a + b)[1..] == a[1..] + b;
      CostAppend(kind, a[1..], b);
    }
  }

  // ----------------------------------------------------------------- suspended walk

  /** fatStackEntry: `next` branches are left; 17 stands for a node not yet sent. */
  datatype Frame = Frame(node: Tree, path: seq<Nibble>, depth: int, next: nat)

  ghost predicate FrameOk(f: Frame) {
    Sized(f.node) && f.next <= 17
  }

  ghost function FrameRest(f: Frame, fatLeaves: bool): seq<Event>
    requires FrameOk(f)
  {
    if f.next == 17 then Events(f.node, f.path, f.depth, fatLeaves)
    else if Opens(f.node, f.depth) then Below(f.node, f.path, f.depth, fatLeaves, f.next)
    else []
  }

  ghost function StackRest(stack: seq<Frame>, fatLeaves: bool): seq<Event>
    requires StackOk(stack)
    decreases |stack|
  {
    if stack == [] then []
    else FrameRest(stack[|stack| - 1], fatLeaves) + StackRest(stack[..|stack| - 1], fatLeaves)
  }

  lemma {:induction false} StackRestTop(below: seq<Frame>, f: Frame, fatLeaves: bool)
    requires StackOk(below) && FrameOk(f)
    ensures StackRest(below + [f], fatLeaves) == FrameRest(f, fatLeaves) + StackRest(below, fatLeaves)
  {
    assert (below + [f])[..|below|] == below;
  }

  /** The branches the whole walk from a node looks at. */
  function Looks(t: Tree, depth: int): nat
    requires Sized(t)
    decreases t, 17
  {
    if Opens(t, depth) then LooksBelow(t, depth, 16) else 0
  }

  function LooksBelow(t: Tree, depth: int, n: nat): nat
    requires Sized(t) && t.Inner? && n <= 16
    decreases t, n
  {
    if n == 0 then 0 else LooksAt(t, depth, n - 1) + LooksBelow(t, depth, n - 1)
  }

  function LooksAt(t: Tree, depth: int, b: nat): nat
    requires Sized(t) && t.Inner? && b < 16
    decreases t, 0
  {
    var child := t.kids[b];
    1 + if child.Inner? && (depth > 1 || BranchCount(t) == 1) then
          Looks(child, if BranchCount(t) == 1 then depth else depth - 1)
        else 0
  }

  ghost function FrameLooks(f: Frame): nat
    requires FrameOk(f)
  {
    if f.next == 17 then Looks(f.node, f.depth)
    else if Opens(f.node, f.depth) then LooksBelow(f.node, f.depth, f.next)
    else 0
  }

  ghost function StackLooks(stack: seq<Frame>): nat
    requires StackOk(stack)
    decreases |stack|
  {
    if stack == [] then 0 else FrameLooks(stack[|stack| - 1]) + StackLooks(stack[..|stack| - 1])
  }

  lemma {:induction false} StackLooksTop(below: seq<Frame>, f: Frame)
    requires StackOk(below) && FrameOk(f)
    ensures StackLooks(below + [f]) == FrameLooks(f) + StackLooks(below)
  {
    assert (below + [f])[..|below|] == below;
  }

  /** A bound on the turns a frame takes. */
  ghost function Work(t: Tree): nat
    requires Sized(t)
    decreases t, 17
  {
    if t.Inner? then 2 + WorkBelow(t, 16) else 2
  }

  ghost function WorkBelow(t: Tree, n: nat): nat
    requires Sized(t) && t.Inner? && n <= 16
    decreases t, n
  {
    if n == 0 then 0 else 1 + Work(t.kids[n - 1]) + WorkBelow(t, n - 1)
  }

  ghost function FrameWork(f: Frame): nat
    requires FrameOk(f)
  {
    if f.next == 17 then Work(f.node) else if f.node.Inner? then 1 + WorkBelow(f.node, f.next) else 1
  }

  ghost function StackWork(stack: seq<Frame>): nat
    requires StackOk(stack)
    decreases |stack|
  {
    if stack == [] then 0 else FrameWork(stack[|stack| - 1]) + StackWork(stack[..|stack| - 1])
  }

  lemma {:induction false} StackWorkTop(below: seq<Frame>, f: Frame)
    requires StackOk(below) && FrameOk(f)
    ensures StackWork(below + [f]) == FrameWork(f) + StackWork(below)
  {
    assert (below + [f])[..|below|] == below;
  }

  ghost predicate StackOk(stack: seq<Frame>) {
    forall i :: 0 <= i < |stack| ==> FrameOk(stack[i])
  }

  /** One turn: from the stack to the next one, meeting `events` and looking at so many
      branches. */
  ghost predicate Turn(stack: seq<Frame>, stack': seq<Frame>, events: seq<Event>, looks: nat, fatLeaves: bool) {
    && StackOk(stack) && StackOk(stack')
    && StackRest(stack, fatLeaves) == events + StackRest(stack', fatLeaves)
    && StackLooks(stack) == looks + StackLooks(stack')
    && StackWork(stack') < StackWork(stack)
  }

  lemma {:induction false} TurnOne(below: seq<Frame>, f: Frame, f': Frame, events: seq<Event>, looks: nat,
                                   fatLeaves: bool)
    requires StackOk(below) && FrameOk(f) && FrameOk(f')
    requires FrameRest(f, fatLeaves) == events + FrameRest(f', fatLeaves) && FrameWork(f') < FrameWork(f)
    requires FrameLooks(f) == looks + FrameLooks(f')
    ensures Turn(below + [f], below + [f'], events, looks, fatLeaves)
  {
    hide FrameRest, FrameWork, FrameLooks, FrameOk, StackRest, StackWork, StackLooks;
    StackRestTop(below, f, fatLeaves);
    StackRestTop(below, f', fatLeaves);
    StackLooksTop(below, f);
    StackLooksTop(below, f');
    StackWorkTop(below, f);
    StackWorkTop(below, f');
  }

  lemma {:induction false} EmitTurn(below: seq<Frame>, f: Frame, fatLeaves: bool)
    requires StackOk(below) && FrameOk(f) && f.next == 17
    ensures Turn(below + [f], below + [f.(next := 16)], [Event(f.path, f.node, true)], 0, fatLeaves)
  {
    var f' := f.(next := 16);
    assert FrameRest(f, fatLeaves) == [Event(f.path, f.node, true)] + FrameRest(f', fatLeaves);
    assert FrameWork(f') < FrameWork(f);
    assert FrameLooks(f) == FrameLooks(f');
    TurnOne(below, f, f', [Event(f.path, f.node, true)], 0, fatLeaves);
  }

  lemma {:induction false} PopTurn(below: seq<Frame>, f: Frame, fatLeaves: bool)
    requires StackOk(below) && FrameOk(f) && f.next < 17 && (f.next == 0 || !Opens(f.node, f.depth))
    ensures Turn(below + [f], below, [], 0, fatLeaves)
  {
    StackRestTop(below, f, fatLeaves);
    StackLooksTop(below, f);
    StackWorkTop(below, f);
    assert FrameRest(f, fatLeaves) == [];
  }

  lemma {:induction false} BranchFrame(f: Frame, fatLeaves: bool)
    requires FrameOk(f) && 0 < f.next < 17 && Opens(f.node, f.depth)
    ensures FrameRest(f, fatLeaves) == Branch(f.node, f.path, f.depth, fatLeaves, f.next - 1)
      + FrameRest(f.(next := f.next - 1), fatLeaves)
    ensures FrameWork(f) == FrameWork(f.(next := f.next - 1)) + 1 + Work(f.node.kids[f.next - 1])
    ensures FrameLooks(f) == LooksAt(f.node, f.depth, f.next - 1) + FrameLooks(f.(next := f.next - 1))
  {
    hide Branch, BranchCount, LooksAt;
  }

  lemma {:induction false} BranchTurn(below: seq<Frame>, f: Frame, fatLeaves: bool)
    requires StackOk(below) && FrameOk(f) && 0 < f.next < 17 && Opens(f.node, f.depth)
    ensures Turn(below + [f], below + [f.(next := f.next - 1)], Branch(f.node, f.path, f.depth, fatLeaves, f.next - 1),
                 LooksAt(f.node, f.depth, f.next - 1), fatLeaves)
  {
    BranchFrame(f, fatLeaves);
    hide FrameRest, FrameWork, FrameLooks, Branch, Work, LooksAt;
    TurnOne(below, f, f.(next := f.next - 1), Branch(f.node, f.path, f.depth, fatLeaves, f.next - 1),
            LooksAt(f.node, f.depth, f.next - 1), fatLeaves);
  }

  /** The next branch holds an inner node the walk goes into. */
  predicate Descends(f: Frame)
    requires Sized(f.node) && f.node.Inner? && 0 < f.next < 17
  {
    f.node.kids[f.next - 1].Inner? && (f.depth > 1 || BranchCount(f.node) == 1)
  }

  function ChildFrame(f: Frame): Frame
    requires Sized(f.node) && f.node.Inner? && 0 < f.next < 17
  {
    Frame(f.node.kids[f.next - 1], f.path + [f.next - 1], if BranchCount(f.node) == 1 then f.depth else f.depth - 1, 17)
  }

  lemma {:induction false} DescendFrame(f: Frame, fatLeaves: bool)
    requires FrameOk(f) && 0 < f.next < 17 && Opens(f.node, f.depth) && Descends(f)
    ensures FrameOk(ChildFrame(f))
      && FrameRest(ChildFrame(f), fatLeaves) == Branch(f.node, f.path, f.depth, fatLeaves, f.next - 1)
    ensures FrameWork(ChildFrame(f)) == Work(f.node.kids[f.next - 1])
    ensures LooksAt(f.node, f.depth, f.next - 1) == 1 + FrameLooks(ChildFrame(f))
  {
    hide BranchCount;
  }

  lemma {:induction false} PushTurn(below: seq<Frame>, f: Frame, fatLeaves: bool)
    requires StackOk(below) && FrameOk(f) && 0 < f.next < 17 && Opens(f.node, f.depth) && Descends(f)
    ensures Turn(below + [f], below + [f.(next := f.next - 1), ChildFrame(f)], [], 1, fatLeaves)
  {
    BranchFrame(f, fatLeaves);
    DescendFrame(f, fatLeaves);
    hide FrameRest, FrameWork, FrameLooks, Branch, Work, LooksAt, ChildFrame, Turn;
    TurnTwo(below, f, f.(next := f.next - 1), ChildFrame(f), fatLeaves);
  }

  lemma {:induction false} TurnTwo(below: seq<Frame>, f: Frame, f': Frame, c: Frame, fatLeaves: bool)
    requires StackOk(below) && FrameOk(f) && FrameOk(f') && FrameOk(c)
    requires FrameRest(f, fatLeaves) == FrameRest(c, fatLeaves) + FrameRest(f', fatLeaves)
    requires FrameWork(f') + FrameWork(c) < FrameWork(f) && FrameLooks(f) == 1 + FrameLooks(f') + FrameLooks(c)
    ensures Turn(below + [f], below + [f', c], [], 1, fatLeaves)
  {
    hide FrameRest, FrameWork, FrameLooks, FrameOk, StackRest, StackWork, StackLooks;
    StackLooksTop(below, f);
    StackLooksTop(below, f');
    StackLooksTop(below + [f'], c);
    assert below + [f', c] == (below + [f']) + [c];
    TwoRest(below, f, f', c, fatLeaves);
    TwoWork(below, f, f', c);
  }

  lemma {:induction false} TwoRest(below: seq<Frame>, f: Frame, f': Frame, c: Frame, fatLeaves: bool)
    requires StackOk(below) && FrameOk(f) && FrameOk(f') && FrameOk(c)
    requires FrameRest(f, fatLeaves) == FrameRest(c, fatLeaves) + FrameRest(f', fatLeaves)
    ensures StackRest((below + [f']) + [c], fatLeaves) == StackRest(below + [f], fatLeaves)
  {
    hide FrameRest, FrameOk, StackRest;
    StackRestTop(below, f, fatLeaves);
    StackRestTop(below, f', fatLeaves);
    StackRestTop(below + [f'], c, fatLeaves);
    Regroup(FrameRest(c, fatLeaves), FrameRest(f', fatLeaves), StackRest(below, fatLeaves));
  }

  lemma {:induction false} TwoWork(below: seq<Frame>, f: Frame, f': Frame, c: Frame)
    requires StackOk(below) && FrameOk(f) && FrameOk(f') && FrameOk(c) && FrameWork(f') + FrameWork(c) < FrameWork(f)
    ensures StackWork((below + [f']) + [c]) < StackWork(below + [f])
  {
    hide FrameWork, FrameOk, StackWork;
    StackWorkTop(below, f);
    StackWorkTop(below, f');
    StackWorkTop(below + [f'], c);
  }

  // ------------------------------------------------------------------ cold reads

  /** The size of a node's record in the store. */
  function PrefixBytes(kind: LeafKind, t: Tree): nat {
    match t
    case Empty => 0
    case Leaf(_, data) => |data| + if KeyOnWire(kind) then 36 else 4
    case Inner(_) => 516
  }

  function MaxBoundedPrefixBytes(remaining: int): int {
    if remaining < MAX_INNER_WIRE then 0 else remaining - 30
  }

  /** The read limit lets a record through. */
  predicate Admits(kind: LeafKind, t: Tree, remaining: int) {
    MaxBoundedPrefixBytes(remaining) != 0 && PrefixBytes(kind, t) <= MaxBoundedPrefixBytes(remaining)
  }

  /** The read limit never keeps back a node that fits, exactly when the remaining bytes
      cover the largest inner node or no node at all. */
  lemma {:induction false} ColdLimitExactly(remaining: int)
    ensures (forall kind: LeafKind, t: Tree | Servable(t) && WireBytes(kind, t) <= remaining ::
               Admits(kind, t, remaining))
            <==> remaining >= MAX_INNER_WIRE || remaining < 46
  {
    if MAX_INNER_WIRE <= remaining {
      forall kind: LeafKind, t: Tree | Servable(t) && WireBytes(kind, t) <= remaining
        ensures Admits(kind, t, remaining)
      {
      }
    } else if remaining >= 46 {
      var small := Leaf(ZeroKey(), [0, 0, 0, 0, 0, 0, 0, 0, 0, 0, 0, 0]);
      assert Servable(small) && WireBytes(Transaction, small) == 46;
      assert !Admits(Transaction, small, remaining);
    } else {
      forall kind: LeafKind, t: Tree | Servable(t)
        ensures WireBytes(kind, t) >= 46
      {
        SmallestNode(kind, t);
      }
    }
  }

  function ZeroKey(): Key {
    seq(64, i => 0)
  }

  /** A node that can be stored and sent. */
  predicate Servable(t: Tree) {
    (t.Leaf? && |t.data| >= 12) || (t.Inner? && |t.kids| == 16 && BranchCount(t) > 0)
  }

  lemma {:induction false} SmallestNode(kind: LeafKind, t: Tree)
    requires Servable(t)
    ensures WireBytes(kind, t) >= 46
  {
  }

  // ---------------------------------------------------------------- the wire budget

  class WireBudget {
    var nodes: int
    var bytes: int
    var work: int

    constructor (nodes: int, bytes: int, work: int)
      ensures this.nodes == nodes && this.bytes == bytes && this.work == work
    {
      this.nodes, this.bytes, this.work := nodes, bytes, work;
    }

    method SpendWork() returns (ok: bool)
      modifies `work
      ensures ok == (old(work) > 0) && work == old(work) - if ok then 1 else 0
    {
      ok := work > 0;
      if ok {
        work := work - 1;
      }
    }

    method ReserveNode(n: int) returns (ok: bool)
      modifies `nodes, `bytes
      ensures ok == (n >= NODE_ID_BYTES && old(nodes) > 0 && old(bytes) >= n)
      ensures nodes == old(nodes) - (if ok then 1 else 0) && bytes == old(bytes) - if ok then n else 0
    {
      ok := n >= NODE_ID_BYTES && nodes > 0 && bytes >= n;
      if ok {
        nodes, bytes := nodes - 1, bytes - n;
      }
    }
  }

  datatype Outcome = Fine | OutOfBudget | Failed

  /** What a budget has left. */
  datatype Purse = Purse(nodes: int, bytes: int, work: int)

  function Left(b: WireBudget): Purse
    reads b
  {
    Purse(b.nodes, b.bytes, b.work)
  }

  /** Nothing is overdrawn, and the work spent is one for each node met and each branch
      looked at; what does not come off may have cost a little more. */
  ghost predicate Spends(r: Outcome, met: nat, looks: nat, was: Purse, now: Purse) {
    && (0 <= was.nodes ==> 0 <= now.nodes) && (0 <= was.bytes ==> 0 <= now.bytes) && (0 <= was.work ==> 0 <= now.work)
    && now.work <= was.work - met - looks && (r == Fine ==> now.work == was.work - met - looks)
  }

  lemma {:induction false} SpendsOn(r: Outcome, m1: nat, l1: nat, m2: nat, l2: nat, a: Purse, b: Purse, c: Purse)
    requires Spends(Fine, m1, l1, a, b) && Spends(r, m2, l2, b, c)
    ensures Spends(r, m1 + m2, l1 + l2, a, c)
  {
  }

  /** spendBranch: a look at one branch. */
  method SpendBranch(budget: WireBudget?) returns (ok: bool)
    modifies if budget == null then {} else {budget}
    ensures budget != null ==> budget.nodes == old(budget.nodes) && budget.bytes == old(budget.bytes)
    ensures budget == null ==> ok
    ensures budget != null ==> budget.work == old(budget.work) - (if ok then 1 else 0) && (ok ==> budget.work >= 0)
    ensures budget != null && !ok ==> budget.work <= 0 || budget.nodes <= 0 || budget.bytes < NODE_ID_BYTES
  {
    if budget == null {
      return true;
    }
    if budget.nodes <= 0 || budget.bytes < NODE_ID_BYTES {
      return false;
    }
    ok := budget.SpendWork();
  }

  /** An inner node without branches has no encoding. */
  predicate Bare(t: Tree) {
    t.Inner? && |t.kids| == 16 && BranchCount(t) == 0
  }

  /** chargeNode: what one node costs. A node that has no encoding cannot be sent. */
  method ChargeNode(kind: LeafKind, t: Tree, budget: WireBudget?) returns (r: Outcome)
    modifies if budget == null then {} else {budget}
    ensures r == OutOfBudget ==>
      budget != null && (budget.work <= 0 || budget.nodes <= 0 || budget.bytes < WireBytes(kind, t))
    ensures r == Fine ==> !Bare(t)
    ensures r == Failed ==> Bare(t)
    ensures budget != null ==>
      && budget.nodes == old(budget.nodes) - (if r == Fine then 1 else 0)
      && budget.bytes == old(budget.bytes) - (if r == Fine then WireBytes(kind, t) else 0)
      && Spends(r, if r == Fine then 1 else 0, 0, old(Left(budget)), Left(budget))
  {
    if budget != null {
      var ok := budget.SpendWork();
      if !ok {
        return OutOfBudget;
      }
    }
    if Bare(t) {
      return Failed;
    }
    if budget != null {
      var ok := budget.ReserveNode(WireBytes(kind, t));
      if !ok {
        return OutOfBudget;
      }
    }
    r := Fine;
  }

  /** readChild and readChildForWire. Under a budget a node that is not in memory is only
      read if it fits; the budget stops a read only when the node does not fit or the
      remaining bytes do not cover the largest inner node. In calm circumstances no read
      fails and no request is cancelled. */
  method ReadChild(kind: LeafKind, child: Tree, calm: bool, budget: WireBudget?) returns (r: Outcome)
    ensures r == OutOfBudget ==>
      budget != null && (WireBytes(kind, child) > budget.bytes || budget.bytes < MAX_INNER_WIRE)
    ensures child == Empty ==> r == Fine
    ensures calm ==> r != Failed
  {
    if child == Empty {
      return Fine;
    }
    var fault: bool, cold: bool, cached: bool := *, *, *;
    var failed := fault && !calm;
    if budget == null || !cold {
      return if failed then Failed else Fine;
    }
    var fits := budget.bytes >= NODE_ID_BYTES && WireBytes(kind, child) - NODE_ID_BYTES <= budget.bytes - NODE_ID_BYTES;
    if cached {
      return if fits then Fine else OutOfBudget;
    }
    if failed {
      return Failed;
    }
    if !Admits(kind, child, budget.bytes) {
      PrefixFits(kind, child, budget.bytes);
      return OutOfBudget;
    }
    return if fits then Fine else OutOfBudget;
  }

  lemma {:induction false} PrefixFits(kind: LeafKind, t: Tree, remaining: int)
    ensures (&& remaining >= MAX_INNER_WIRE && WireBytes(kind, t) <= remaining && t != Empty
             && (t.Inner? ==> |t.kids| == 16)) ==> Admits(kind, t, remaining)
  {
  }

  /** Why a walk may stop with this much budget left: the work or the nodes are used up,
      the bytes do not cover the largest inner node, or the next node does not fit. */
  ghost predicate Short(kind: LeafKind, rest: seq<Event>, nodes: int, bytes: int, work: int) {
    work <= 0 || nodes <= 0 || bytes < MAX_INNER_WIRE || (rest != [] && WireBytes(kind, rest[0].node) > bytes)
  }

  /** The next node has no encoding. */
  ghost predicate Stuck(rest: seq<Event>) {
    rest != [] && Bare(rest[0].node)
  }

  lemma {:induction false} NextIs(stack: seq<Frame>, stack': seq<Frame>, e: Event, fatLeaves: bool)
    requires Turn(stack, stack', [e], 0, fatLeaves)
    ensures StackOk(stack) && StackRest(stack, fatLeaves) != [] && StackRest(stack, fatLeaves)[0] == e
  {
    hide StackRest, StackOk, StackWork, StackLooks;
  }

  /** The next node met is the one on the branch looked at. */
  lemma {:induction false} BranchIsNext(below: seq<Frame>, f: Frame, fatLeaves: bool)
    requires StackOk(below) && FrameOk(f) && 0 < f.next < 17 && Opens(f.node, f.depth)
      && f.node.kids[f.next - 1] != Empty
    ensures StackOk(below + [f]) && StackRest(below + [f], fatLeaves) != []
    ensures StackRest(below + [f], fatLeaves)[0].node == f.node.kids[f.next - 1]
  {
    BranchTurn(below, f, fatLeaves);
    BranchBegins(f, fatLeaves);
    hide StackRest, StackOk, StackWork, StackLooks, Branch, Opens, LooksAt;
  }

  lemma {:induction false} BranchBegins(f: Frame, fatLeaves: bool)
    requires FrameOk(f) && f.node.Inner? && 0 < f.next < 17 && f.node.kids[f.next - 1] != Empty
    ensures var events := Branch(f.node, f.path, f.depth, fatLeaves, f.next - 1);
      events != [] && events[0].node == f.node.kids[f.next - 1]
  {
  }

  /** What a walk has done so far: the nodes met, those sent, and what they cost. */
  ghost predicate Paid(kind: LeafKind, done: seq<Event>, nodes: int, bytes: int, nodes': int, bytes': int) {
    nodes' == nodes - |done| && bytes' == bytes - Cost(kind, done)
  }

  lemma {:induction false} PaidMore(kind: LeafKind, done: seq<Event>, e: Event, nodes: int, bytes: int, nodes': int,
                                    bytes': int)
    requires Paid(kind, done, nodes, bytes, nodes', bytes')
    ensures Paid(kind, done + [e], nodes, bytes, nodes' - 1, bytes' - WireBytes(kind, e.node))
    ensures Sent(done + [e]) == Sent(done) + if e.sent then [e] else []
  {
    CostAppend(kind, done, [e]);
    assert [e][1..] == [];
    assert Cost(kind, [e]) == WireBytes(kind, e.node) + Cost(kind, []);
    SentAppend(done, [e]);
    assert Sent([e]) == (if e.sent then [e] else []) + Sent([]);
  }

  /** One turn of the stack walk: a node not yet sent is sent, a spent frame is dropped, or
      the next branch is looked at. Nothing is met or paid for unless the turn is fine. */
  method TakeTurn(kind: LeafKind, stack: seq<Frame>, fatLeaves: bool, calm: bool, budget: WireBudget?)
    returns (r: Outcome, stack': seq<Frame>, met: Option<Event>, ghost looks: nat)
    requires StackOk(stack) && stack != []
    modifies if budget == null then {} else {budget}
    ensures r == Fine ==> Turn(stack, stack', if met.Some? then [met.value] else [], looks, fatLeaves)
    ensures met.Some? ==> !Bare(met.value.node)
    ensures budget != null ==> Spends(r, if met.Some? then 1 else 0, looks, old(Left(budget)), Left(budget))
    ensures r == OutOfBudget ==>
      budget != null && Short(kind, StackRest(stack, fatLeaves), budget.nodes, budget.bytes, budget.work)
    ensures r == Failed && calm ==> Stuck(StackRest(stack, fatLeaves))
    ensures r != Fine ==> met.None? && looks == 0
    ensures budget != null ==> budget.nodes == old(budget.nodes) - (if met.Some? then 1 else 0)
    ensures budget != null ==>
      budget.bytes == old(budget.bytes) - if met.Some? then WireBytes(kind, met.value.node) else 0
  {
    hide Turn, BranchCount, StackRest;
    var below, f := stack[..|stack| - 1], stack[|stack| - 1];
    assert stack == below + [f];
    r, stack', met, looks := Fine, stack, None, 0;
    if f.next == 17 {
      r := ChargeNode(kind, f.node, budget);
      EmitTurn(below, f, fatLeaves);
      if r != Fine {
        NextIs(stack, below + [f.(next := 16)], Event(f.path, f.node, true), fatLeaves);
        return r, stack, None, 0;
      }
      return Fine, below + [f.(next := 16)], Some(Event(f.path, f.node, true)), 0;
    }
    if f.next == 0 || !Opens(f.node, f.depth) {
      PopTurn(below, f, fatLeaves);
      return Fine, below, None, 0;
    }
    var ok := SpendBranch(budget);
    if !ok {
      return OutOfBudget, stack, None, 0;
    }
    r, stack', met := VisitBranch(kind, below, f, fatLeaves, calm, budget);
    looks := if r == Fine then 1 else 0;
  }

  /** A look at a branch the walk does not go into. */
  lemma {:induction false} LookIsOne(f: Frame)
    requires FrameOk(f) && f.node.Inner? && 0 < f.next < 17
    ensures !Descends(f) ==> LooksAt(f.node, f.depth, f.next - 1) == 1
  {
  }

  method VisitBranch(kind: LeafKind, below: seq<Frame>, f: Frame, fatLeaves: bool, calm: bool, budget: WireBudget?)
    returns (r: Outcome, stack': seq<Frame>, met: Option<Event>)
    requires StackOk(below) && FrameOk(f) && 0 < f.next < 17 && Opens(f.node, f.depth)
    modifies if budget == null then {} else {budget}
    ensures r == Fine ==> Turn(below + [f], stack', if met.Some? then [met.value] else [], 1, fatLeaves)
    ensures met.Some? ==> !Bare(met.value.node)
    ensures budget != null ==> Spends(r, if met.Some? then 1 else 0, 0, old(Left(budget)), Left(budget))
    ensures StackOk(below + [f])
    ensures r == OutOfBudget ==>
      budget != null && Short(kind, StackRest(below + [f], fatLeaves), budget.nodes, budget.bytes, budget.work)
    ensures r == Failed && calm ==> Stuck(StackRest(below + [f], fatLeaves))
    ensures r != Fine ==> met.None?
    ensures budget != null ==> budget.nodes == old(budget.nodes) - (if met.Some? then 1 else 0)
    ensures budget != null ==>
      budget.bytes == old(budget.bytes) - if met.Some? then WireBytes(kind, met.value.node) else 0
  {
    hide Turn, BranchCount, WireBytes, StackRest;
    var child := f.node.kids[f.next - 1];
    var f' := f.(next := f.next - 1);
    met := None;
    if child != Empty {
      BranchIsNext(below, f, fatLeaves);
    }
    r := ReadChild(kind, child, calm, budget);
    if r != Fine {
      return r, below + [f], None;
    }
    BranchTurn(below, f, fatLeaves);
    LookIsOne(f);
    hide LooksAt;
    if child.Empty? {
      return Fine, below + [f'], None;
    }
    if Descends(f) {
      PushTurn(below, f, fatLeaves);
      return Fine, below + [f', ChildFrame(f)], None;
    }
    r := ChargeNode(kind, child, budget);
    if r != Fine {
      return r, below + [f], None;
    }
    return Fine, below + [f'], Some(Event(f.path + [f.next - 1], child, child.Inner? || fatLeaves));
  }

  /** The stack walk of getNodeFatByPath from a located node, with or without a budget.
      Without one the whole walk is served. With one the walk may stop early: what is
      served is what the first n nodes met by the unbounded walk give, and exactly those
      are paid for, within the budget. */
  method Serve(kind: LeafKind, node: Tree, path: seq<Nibble>, depth: int, fatLeaves: bool, calm: bool,
               budget: WireBudget?)
    returns (r: Outcome, out: seq<Event>, ghost n: nat, ghost looked: nat)
    requires Sized(node)
    modifies if budget == null then {} else {budget}
    ensures n <= |Events(node, path, depth, fatLeaves)|
    ensures r == Fine ==> n == |Events(node, path, depth, fatLeaves)|
    ensures r == OutOfBudget ==>
      budget != null && Short(kind, Events(node, path, depth, fatLeaves)[n..], budget.nodes, budget.bytes, budget.work)
    ensures r != Failed ==> out == Sent(Events(node, path, depth, fatLeaves)[..n])
    ensures r == Failed ==> out == [] && (calm ==> Stuck(Events(node, path, depth, fatLeaves)[n..]))
    ensures looked <= Looks(node, depth) && (r == Fine ==> looked == Looks(node, depth))
    ensures budget != null ==> Spends(r, n, looked, old(Left(budget)), Left(budget))
    ensures AllSendable(Events(node, path, depth, fatLeaves)[..n])
    ensures budget != null ==>
      Paid(kind, Events(node, path, depth, fatLeaves)[..n], old(budget.nodes), old(budget.bytes), budget.nodes,
        budget.bytes)
  {
    ghost var done;
    StackRestTop([], Frame(node, path, depth, 17), fatLeaves);
    StackLooksTop([], Frame(node, path, depth, 17));
    assert [] + [Frame(node, path, depth, 17)] == [Frame(node, path, depth, 17)];
    hide Events, Looks, StackRest, StackLooks, StackOk, Short, Spends, Paid, Sent, Stuck, AllSendable;
    r, out, done, looked := Unwind(kind, [Frame(node, path, depth, 17)], fatLeaves, calm, budget,
      Events(node, path, depth, fatLeaves));
    n := |done|;
  }

  /** The loop of the stack walk. */
  method Unwind(kind: LeafKind, start: seq<Frame>, fatLeaves: bool, calm: bool, budget: WireBudget?,
                ghost all: seq<Event>)
    returns (r: Outcome, out: seq<Event>, ghost done: seq<Event>, ghost looked: nat)
    requires StackOk(start) && StackRest(start, fatLeaves) == all
    modifies if budget == null then {} else {budget}
    ensures |done| <= |all| && all[..|done|] == done && (r == Fine ==> done == all)
    ensures r == OutOfBudget ==> budget != null && Short(kind, all[|done|..], budget.nodes, budget.bytes, budget.work)
    ensures if r == Failed then out == [] && (calm ==> Stuck(all[|done|..])) else out == Sent(done)
    ensures looked <= StackLooks(start) && (r == Fine ==> looked == StackLooks(start))
    ensures Kept(kind, r, done, looked, old(Allowance(budget)), Allowance(budget))
  {
    var stack := start;
    r, out, done, looked := Fine, [], [], 0;
    hide StackRest, StackWork, StackLooks, StackOk, Short, Sent, Stuck, Kept;
    NothingDone(kind, Allowance(budget));
    while stack != []
      invariant StackOk(stack) && looked + StackLooks(stack) == StackLooks(start)
      invariant Kept(kind, Fine, done, looked, old(Allowance(budget)), Allowance(budget))
      invariant r == Fine && out == Sent(done) && done + StackRest(stack, fatLeaves) == all
      decreases StackWork(stack)
    {
      r, stack, out, done, looked := Advance(kind, stack, fatLeaves, calm, budget, out, done, looked, all,
        old(Allowance(budget)));
      if r != Fine {
        return;
      }
    }
    NothingLeft(done, all, fatLeaves);
    var cancelled: bool := *;
    if cancelled && !calm {
      r, out := Failed, [];
      KeptAnyway(kind, done, looked, old(Allowance(budget)), Allowance(budget));
    }
  }

  /** What a request may still spend; without a budget it is not limited. */
  ghost function Allowance(budget: WireBudget?): Option<Purse>
    reads budget
  {
    if budget == null then None else Some(Left(budget))
  }

  /** The books of a walk: what was met has an encoding and is paid for. */
  ghost predicate Kept(kind: LeafKind, r: Outcome, done: seq<Event>, looked: nat, was: Option<Purse>,
                       now: Option<Purse>) {
    && AllSendable(done) && was.Some? == now.Some?
    && (was.Some? ==>
          && Spends(r, |done|, looked, was.value, now.value)
          && Paid(kind, done, was.value.nodes, was.value.bytes, now.value.nodes, now.value.bytes))
  }

  /** A turn keeps the books. */
  lemma {:induction false} KeptOn(kind: LeafKind, r: Outcome, done: seq<Event>, looked: nat, met: Option<Event>,
                                  looks: nat,
                                  was: Option<Purse>, before: Option<Purse>, now: Option<Purse>)
    requires Kept(kind, Fine, done, looked, was, before) && before.Some? == now.Some?
    requires before.Some? ==>
      && Spends(r, if met.Some? then 1 else 0, looks, before.value, now.value)
      && now.value.nodes == before.value.nodes - (if met.Some? then 1 else 0)
      && now.value.bytes == before.value.bytes - if met.Some? then WireBytes(kind, met.value.node) else 0
    requires met.Some? ==> !Bare(met.value.node)
    ensures met.None? ==> Kept(kind, r, done, looked + looks, was, now)
    ensures met.Some? ==>
      && Kept(kind, r, done + [met.value], looked + looks, was, now)
      && Sent(done + [met.value]) == Sent(done) + if met.value.sent then [met.value] else []
  {
    hide Cost, Sent, WireBytes, Bare;
    if met.Some? {
      PaidMore(kind, done, met.value, |done|, Cost(kind, done), 0, 0);
    }
  }

  lemma {:induction false} KeptAnyway(kind: LeafKind, done: seq<Event>, looked: nat, was: Option<Purse>,
                                      now: Option<Purse>)
    requires Kept(kind, Fine, done, looked, was, now)
    ensures Kept(kind, Failed, done, looked, was, now)
  {
  }

  /** Every node met has an encoding. */
  ghost predicate AllSendable(done: seq<Event>) {
    forall i :: 0 <= i < |done| ==> !Bare(done[i].node)
  }

  lemma {:induction false} NothingDone(kind: LeafKind, p: Option<Purse>)
    ensures Kept(kind, Fine, [], 0, p, p) && Sent([]) == []
  {
  }

  lemma {:induction false} NothingLeft(done: seq<Event>, all: seq<Event>, fatLeaves: bool)
    requires done + StackRest([], fatLeaves) == all
    ensures done == all && all[..|done|] == done && StackLooks([]) == 0
  {
  }

  /** One turn of the walk with the books kept. */
  method Advance(kind: LeafKind, stack: seq<Frame>, fatLeaves: bool, calm: bool, budget: WireBudget?, out: seq<Event>,
                 ghost done: seq<Event>, ghost looked: nat, ghost all: seq<Event>, ghost was: Option<Purse>)
    returns (r: Outcome, stack': seq<Frame>, out': seq<Event>, ghost done': seq<Event>, ghost looked': nat)
    requires StackOk(stack) && stack != [] && done + StackRest(stack, fatLeaves) == all && out == Sent(done)
    requires Kept(kind, Fine, done, looked, was, Allowance(budget))
    modifies if budget == null then {} else {budget}
    ensures r == Fine ==>
      && StackOk(stack') && done' + StackRest(stack', fatLeaves) == all && StackOk(stack)
      && StackWork(stack') < StackWork(stack)
    ensures r == Fine ==> StackOk(stack') && looked + StackLooks(stack) == looked' + StackLooks(stack')
    ensures r != Fine ==> looked' <= looked + StackLooks(stack)
    ensures |done'| <= |all| && all[..|done'|] == done'
    ensures Kept(kind, r, done', looked', was, Allowance(budget))
    ensures if r == Failed then out' == [] else out' == Sent(done')
    ensures r == Failed && calm ==> Stuck(all[|done'|..])
    ensures r == OutOfBudget ==> budget != null && Short(kind, all[|done'|..], budget.nodes, budget.bytes, budget.work)
  {
    hide StackRest, StackWork, StackLooks, Sent, StackOk, Cost, Short, Bare, Stuck, Kept, Spends;
    DoneIsPrefix(done, StackRest(stack, fatLeaves), all);
    done' := done;
    looked' := looked;
    var cancelled: bool := *;
    if cancelled && !calm {
      KeptAnyway(kind, done, looked, was, Allowance(budget));
      return Failed, stack, [], done, looked;
    }
    var met;
    ghost var looks;
    ghost var before := Allowance(budget);
    r, stack', met, looks := TakeTurn(kind, stack, fatLeaves, calm, budget);
    KeptOn(kind, r, done, looked, met, looks, was, before, Allowance(budget));
    if r != Fine {
      out' := if r == Failed then [] else out;
      return;
    }
    looked' := looked + looks;
    ghost var events := if met.Some? then [met.value] else [];
    TurnParts(stack, stack', events, looks, fatLeaves);
    out' := out;
    if met.Some? {
      if met.value.sent {
        out' := out + [met.value];
      }
      done' := done + [met.value];
    }
    assert done + (events + StackRest(stack', fatLeaves)) == done' + StackRest(stack', fatLeaves);
    DoneIsPrefix(done', StackRest(stack', fatLeaves), all);
  }

  lemma {:induction false} DoneIsPrefix(done: seq<Event>, rest: seq<Event>, all: seq<Event>)
    requires done + rest == all
    ensures |done| <= |all| && all[..|done|] == done && all[|done|..] == rest
  {
  }

  lemma {:induction false} TurnParts(stack: seq<Frame>, stack': seq<Frame>, events: seq<Event>, looks: nat,
                                     fatLeaves: bool)
    requires Turn(stack, stack', events, looks, fatLeaves)
    ensures StackOk(stack) && StackOk(stack') && StackLooks(stack) == looks + StackLooks(stack')
    ensures StackRest(stack, fatLeaves) == events + StackRest(stack', fatLeaves)
    ensures StackWork(stack') < StackWork(stack)
  {
  }

  /** The bounded list is a prefix of the unbounded one. */
  lemma {:induction false} PrefixServed(events: seq<Event>, n: nat)
    requires n <= |events|
    ensures Sent(events[..n]) <= Sent(events)
  {
    assert events == events[..n] + events[n..];
    SentAppend(events[..n], events[n..]);
  }

  /** The node at a path, unless the tree ends before it. */
  function Located(t: Tree, path: seq<Nibble>): Option<Tree>
    requires Sized(t)
    decreases |path|
  {
    if path == [] then Some(t)
    else if !t.Inner? || t.kids[path[0]].Empty? then None
    else Located(t.kids[path[0]], path[1..])
  }

  /** Why the descent may stop: the budget is used up or low, or a node on the way does
      not fit. */
  ghost predicate Blocked(kind: LeafKind, root: Tree, wanted: seq<Nibble>, nodes: int, bytes: int, work: int)
    requires Sized(root)
  {
    || work <= 0 || nodes <= 0 || bytes < MAX_INNER_WIRE
    || exists i ::
         && 0 < i <= |wanted| && Located(root, wanted[..i]).Some?
         && WireBytes(kind, Located(root, wanted[..i]).value) > bytes
  }

  lemma {:induction false} LocatedChild(root: Tree, wanted: seq<Nibble>, cur: nat, t: Tree)
    requires Sized(root) && Sized(t) && cur < |wanted| && Located(root, wanted[..cur]) == Some(t) && t.Inner?
    ensures t.kids[wanted[cur]] != Empty ==> Located(root, wanted[..cur + 1]) == Some(t.kids[wanted[cur]])
    decreases cur
  {
    var path := wanted[..cur + 1];
    if cur == 0 {
      assert path[1..] == [];
    } else {
      assert wanted[..cur][0] == wanted[0] && wanted[..cur][1..] == wanted[1..][..cur - 1];
      LocatedChild(root.kids[wanted[0]], wanted[1..], cur - 1, t);
      assert path[1..] == wanted[1..][..cur];
    }
  }

  /** The descent of getNodeFatByPath. It costs work but neither nodes nor bytes. */
  method Locate(kind: LeafKind, root: Tree, wanted: seq<Nibble>, calm: bool, budget: WireBudget?)
    returns (r: Outcome, node: Option<Tree>, ghost steps: nat)
    requires Sized(root)
    modifies if budget == null then {} else {budget}
    ensures r == Fine ==> node == Located(root, wanted)
    ensures node.Some? ==> Sized(node.value)
    ensures r == OutOfBudget ==> budget != null && Blocked(kind, root, wanted, budget.nodes, budget.bytes, budget.work)
    ensures budget != null ==> budget.nodes == old(budget.nodes) && budget.bytes == old(budget.bytes)
    ensures calm ==> r != Failed
    ensures steps <= |wanted| && (node.Some? ==> r == Fine && steps == |wanted|)
    ensures budget != null ==> Spends(r, 0, steps, old(Left(budget)), Left(budget))
  {
    var t, cur := root, 0;
    steps := 0;
    while cur < |wanted|
      invariant 0 <= cur <= |wanted| && Sized(t) && Located(root, wanted) == Located(t, wanted[cur..])
      invariant Located(root, wanted[..cur]) == Some(t)
      invariant budget != null ==> budget.nodes == old(budget.nodes) && budget.bytes == old(budget.bytes)
      invariant steps == cur && (budget != null ==> Spends(Fine, 0, steps, old(Left(budget)), Left(budget)))
    {
      assert wanted[cur..][0] == wanted[cur] && wanted[cur..][1..] == wanted[cur + 1..];
      if !t.Inner? {
        return Fine, None, steps;
      }
      var ok := SpendBranch(budget);
      if !ok {
        return OutOfBudget, None, steps;
      }
      steps := steps + 1;
      var child := t.kids[wanted[cur]];
      LocatedChild(root, wanted, cur, t);
      r := ReadChild(kind, child, calm, budget);
      if r != Fine {
        return r, None, steps;
      }
      if child.Empty? {
        return Fine, None, steps;
      }
      t, cur := child, cur + 1;
    }
    assert wanted[cur..] == [];
    return Fine, Some(t), steps;
  }

  /** What an unbounded request for a position is answered with. */
  function Answer(root: Tree, wanted: seq<Nibble>, depth: int, fatLeaves: bool): seq<Event>
    requires Sized(root)
  {
    var t := Located(root, wanted);
    if t.None? then [] else Asked(t.value, wanted, depth, fatLeaves)
  }

  function Asked(t: Tree, wanted: seq<Nibble>, depth: int, fatLeaves: bool): seq<Event> {
    if !Sized(t) || (t.Inner? && BranchCount(t) == 0) then [] else Events(t, wanted, depth, fatLeaves)
  }

  /** GetNodeFatByPath and GetNodeFatByPathBounded: a bounded request is answered with a
      prefix of the unbounded answer, and pays exactly for the nodes met on the way,
      within its allowance of nodes, bytes and work. */
  method GetNodeFatByPath(kind: LeafKind, root: Tree, wanted: seq<Nibble>, depth: int, fatLeaves: bool, calm: bool,
                          budget: WireBudget?)
    returns (r: Outcome, out: seq<Event>, ghost n: nat, ghost looked: nat)
    requires Sized(root)
    modifies if budget == null then {} else {budget}
    ensures n <= |Answer(root, wanted, depth, fatLeaves)|
      && (r == Fine ==> n == |Answer(root, wanted, depth, fatLeaves)|)
    ensures r == OutOfBudget ==>
      && budget != null
      && (|| Blocked(kind, root, wanted, budget.nodes, budget.bytes, budget.work)
          || Short(kind, Answer(root, wanted, depth, fatLeaves)[n..], budget.nodes, budget.bytes, budget.work))
    ensures budget != null ==> Spends(r, n, looked, old(Left(budget)), Left(budget))
    ensures r == Failed && calm ==> Stuck(Answer(root, wanted, depth, fatLeaves)[n..])
    ensures r == Fine && Answer(root, wanted, depth, fatLeaves) != [] ==>
      looked == |wanted| + Looks(Located(root, wanted).value, depth)
    ensures r != Failed ==>
      out == Sent(Answer(root, wanted, depth, fatLeaves)[..n]) && out <= Sent(Answer(root, wanted, depth, fatLeaves))
    ensures budget != null ==>
      Paid(kind, Answer(root, wanted, depth, fatLeaves)[..n], old(budget.nodes), old(budget.bytes), budget.nodes,
        budget.bytes)
  {
    var node;
    r, node, looked := Locate(kind, root, wanted, calm, budget);
    out, n := [], 0;
    PrefixServed(Answer(root, wanted, depth, fatLeaves), 0);
    if r != Fine || node.None? || (node.value.Inner? && BranchCount(node.value) == 0) {
      return;
    }
    hide Events, Sent, Paid, BranchCount, Short, Blocked, Spends, Looks, Stuck;
    ghost var steps, purse, looks := looked, if budget == null then Purse(0, 0, 0) else Left(budget), 0;
    r, out, n, looks := Serve(kind, node.value, wanted, depth, fatLeaves, calm, budget);
    if budget != null {
      SpendsOn(r, 0, steps, n, looks, old(Left(budget)), purse, Left(budget));
    }
    looked := steps + looks;
    PrefixServed(Answer(root, wanted, depth, fatLeaves), n);
  }
}
