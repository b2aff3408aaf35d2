/** The missing-node scanner as a state machine: shamap/missing_scanner.go,
    shamap/missing_scanner_proof.go and the parts of shamap/persistence_ack.go and
    shamap/backed_walk.go it works with.

    Between any two turns the sources may move on, the shared completeness cache may
    gain or lose marks, a memory reservation may be refused, a read may fail and the
    traversal budget may run out. */
module Scanner {
  import opened KeyPath
  import opened Trie
  import opened Hashing
  import opened ScanModel
  import opened ScanSound
  import opened ScanExact
  import opened ScanAccount
  import opened ScanStep

  datatype Status = More | Waiting | Complete | Memory | Persistence

  datatype Outcome = Go | Yield | Fail | Stop

  /** The default and largest result window. */
  const RESULT_LIMIT: nat := 256

  const PROOF_LIMIT: nat := 65536

  function TotalProofs(lanes: seq<Lane>): nat {
    if lanes == [] then 0 else LaneProofs(lanes[0]) + TotalProofs(lanes[1..])
  }

  function TotalCapacity(lanes: seq<Lane>): nat {
    if lanes == [] then 0 else lanes[0].capacity + TotalCapacity(lanes[1..])
  }

  lemma {:induction false} TotalUpdate(lanes: seq<Lane>, i: nat, l: Lane)
    requires i < |lanes|
    ensures TotalProofs(lanes[i := l]) == TotalProofs(lanes) - LaneProofs(lanes[i]) + LaneProofs(l)
    ensures TotalCapacity(lanes[i := l]) == TotalCapacity(lanes) - lanes[i].capacity + l.capacity
    ensures LaneProofs(lanes[i]) <= TotalProofs(lanes) && lanes[i].capacity <= TotalCapacity(lanes)
    decreases |lanes|
  {
    if i == 0 {
      assert lanes[i := l][1..] == lanes[1..];
    } else {
      assert lanes[i := l][1..] == lanes[1..][i - 1 := l];
      TotalUpdate(lanes[1..], i - 1, l);
    }
  }

  /** What a lane must report over a whole pass. A root branch whose hash is zero is
      never walked. */
  ghost function Due(env: Env, l: Lane): seq<MissingNode> {
    if l.root.hash.Zero? then [] else Absent(env, l.root.hash, l.root.parentHash, l.root.path)
  }

  /** The nodes of a list the filter accepts. */
  function Kept(filter: Hash -> bool, list: seq<MissingNode>): seq<MissingNode> {
    if list == [] then []
    else (if filter(list[0].hash) then [list[0]] else []) + Kept(filter, list[1..])
  }

  /** Only lane i has changed: it found `items` more, and the filter's choice of them is
      on the list. */
  ghost predicate Wider(i: nat, lanes0: seq<Lane>, found0: seq<seq<MissingNode>>, lanes: seq<Lane>,
                        found: seq<seq<MissingNode>>,
                        filter: Hash -> bool, items: seq<MissingNode>, list0: seq<MissingNode>,
                          list: seq<MissingNode>) {
    && i < |lanes0| == |found0| == |lanes| == |found|
    && lanes == lanes0[i := lanes[i]] && found == found0[i := found0[i] + items]
    && list == list0 + Kept(filter, items)
  }

  lemma {:induction false} StartsNarrow(i: nat, lanes: seq<Lane>, found: seq<seq<MissingNode>>, filter: Hash -> bool,
                                        list: seq<MissingNode>)
    requires i < |lanes| == |found|
    ensures Wider(i, lanes, found, lanes, found, filter, [], list, list)
  {
    assert found[i] + [] == found[i];
  }

  lemma {:induction false} Widens(i: nat, lanes0: seq<Lane>, found0: seq<seq<MissingNode>>, lanes1: seq<Lane>,
                                  found1: seq<seq<MissingNode>>,
                                  lanes2: seq<Lane>, found2: seq<seq<MissingNode>>, filter: Hash -> bool,
                                  items: seq<MissingNode>, more: seq<MissingNode>,
                                  list0: seq<MissingNode>, list1: seq<MissingNode>, list2: seq<MissingNode>)
    requires Wider(i, lanes0, found0, lanes1, found1, filter, items, list0, list1)
    requires |lanes2| == |lanes1| && lanes2 == lanes1[i := lanes2[i]] && found2 == found1[i := found1[i] + more]
    requires list2 == list1 + Kept(filter, more)
    ensures Wider(i, lanes0, found0, lanes2, found2, filter, items + more, list0, list2)
  {
    KeptAppend(filter, items, more);
    assert found0[i] + items + more == found0[i] + (items + more);
  }

  lemma {:induction false} WideIs(i: nat, lanes0: seq<Lane>, found0: seq<seq<MissingNode>>, lanes: seq<Lane>,
                                  found: seq<seq<MissingNode>>,
                                  filter: Hash -> bool, items: seq<MissingNode>, list0: seq<MissingNode>,
                                    list: seq<MissingNode>)
    requires Wider(i, lanes0, found0, lanes, found, filter, items, list0, list)
    ensures i < |lanes0| == |found0| == |lanes| == |found|
    ensures lanes == lanes0[i := lanes[i]] && found == found0[i := found0[i] + items]
    ensures list == list0 + Kept(filter, items)
  {
  }

  lemma {:induction false} KeptAppend(filter: Hash -> bool, a: seq<MissingNode>, b: seq<MissingNode>)
    ensures Kept(filter, a + b) == Kept(filter, a) + Kept(filter, b)
  {
    if a == [] {
      assert a + b == b;
    } else {
      assert (a + b)[1..] == a[1..] + b;
      KeptAppend(filter, a[1..], b);
    }
  }

  /** The sizes a memory budget is charged with. */
  datatype ByteSizes = ByteSizes(frame: nat, proof: nat, cursor: nat)

  /** n times a size. */
  function Bytes(size: nat, n: nat): nat {
    if n == 0 then 0 else size + Bytes(size, n - 1)
  }

  lemma {:induction false} BytesSplit(size: nat, m: nat, n: nat)
    ensures Bytes(size, m + n) == Bytes(size, m) + Bytes(size, n)
  {
    if n > 0 {
      BytesSplit(size, m, n - 1);
    }
  }

  /** What a cursor with these lanes and this many proof nodes is charged. */
  function Charge(z: ByteSizes, lanes: seq<Lane>, proofs: nat): nat {
    z.cursor + Bytes(z.frame, TotalCapacity(lanes)) + Bytes(z.proof, proofs)
  }

  /** The lanes from branch b on stand at their branches, and their stacks are admitted
      while in use. */
  ghost predicate Seated(lanes: seq<Lane>, b: nat) {
    lanes != [] ==>
      && Admitted(lanes[0]) && |lanes[0].root.path| == 1 && lanes[0].root.path[0] == b
      && Seated(lanes[1..], b + 1)
  }

  lemma {:induction false} SeatedAt(lanes: seq<Lane>, b: nat, i: nat)
    requires Seated(lanes, b) && i < |lanes|
    ensures Admitted(lanes[i]) && |lanes[i].root.path| == 1 && lanes[i].root.path[0] == b + i
    decreases |lanes|
  {
    if i > 0 {
      SeatedAt(lanes[1..], b + 1, i - 1);
    }
  }

  lemma {:induction false} SeatedUpdate(lanes: seq<Lane>, b: nat, i: nat, l: Lane)
    requires Seated(lanes, b) && i < |lanes| && Admitted(l) && l.root == lanes[i].root
    ensures Seated(lanes[i := l], b)
    decreases |lanes|
  {
    if i == 0 {
      assert lanes[i := l][1..] == lanes[1..];
    } else {
      assert lanes[i := l][1..] == lanes[1..][i - 1 := l];
      SeatedUpdate(lanes[1..], b + 1, i - 1, l);
    }
  }

  ghost predicate MarksOk(marks: set<Hash>, s: set<Hash>) {
    forall h :: h in marks ==> Stored(h, s)
  }

  ghost predicate LanesOk(env: Env, root: Hash, lanes: seq<Lane>) {
    lanes != [] ==> LaneOk(env, root, lanes[0]) && LanesOk(env, root, lanes[1..])
  }

  lemma {:induction false} LaneAt(env: Env, root: Hash, lanes: seq<Lane>, i: nat)
    requires LanesOk(env, root, lanes) && i < |lanes|
    ensures LaneOk(env, root, lanes[i])
    decreases |lanes|
  {
    if i > 0 {
      LaneAt(env, root, lanes[1..], i - 1);
    }
  }

  lemma {:induction false} LanesUpdate(env: Env, root: Hash, lanes: seq<Lane>, i: nat, l: Lane)
    requires LanesOk(env, root, lanes) && i < |lanes| && LaneOk(env, root, l)
    ensures LanesOk(env, root, lanes[i := l])
    decreases |lanes|
  {
    if i == 0 {
      assert lanes[i := l][1..] == lanes[1..];
    } else {
      assert lanes[i := l][1..] == lanes[1..][i - 1 := l];
      LanesUpdate(env, root, lanes[1..], i - 1, l);
    }
  }

  lemma {:induction false} LanesLater(env: Env, env': Env, root: Hash, lanes: seq<Lane>)
    requires LanesOk(env, root, lanes) && Later(env, env', root)
    ensures LanesOk(env', root, lanes)
    decreases |lanes|
  {
    if lanes != [] {
      LaneLater(env, env', root, lanes[0]);
      LanesLater(env, env', root, lanes[1..]);
    }
  }

  ghost predicate Idle(lanes: seq<Lane>) {
    forall i :: 0 <= i < |lanes| ==> lanes[i].stack == []
  }

  /** What each lane has found and what it has left is what it owes. */
  ghost predicate Exact(env: Env, lanes: seq<Lane>, found: seq<seq<MissingNode>>) {
    && |lanes| == |found|
    && (lanes != [] ==> LaneExact(env, lanes[0], found[0]) && Exact(env, lanes[1..], found[1..]))
  }

  ghost predicate LaneExact(env: Env, l: Lane, found: seq<MissingNode>) {
    && AllShaped(l.stack) && found + LaneRest(env, l) == Due(env, l)
    && (l.incomplete && !l.complete ==> found != [])
  }

  lemma {:induction false} ExactAt(env: Env, lanes: seq<Lane>, found: seq<seq<MissingNode>>, i: nat)
    requires Exact(env, lanes, found) && i < |lanes|
    ensures LaneExact(env, lanes[i], found[i])
    decreases |lanes|
  {
    if i > 0 {
      ExactAt(env, lanes[1..], found[1..], i - 1);
    }
  }

  lemma {:induction false} ExactWith(env: Env, lanes: seq<Lane>, found: seq<seq<MissingNode>>, i: nat, l: Lane,
                                     f: seq<MissingNode>)
    requires Exact(env, lanes, found) && i < |lanes| && LaneExact(env, l, f)
    ensures Exact(env, lanes[i := l], found[i := f])
    decreases |lanes|
  {
    if i == 0 {
      assert lanes[i := l][1..] == lanes[1..] && found[i := f][1..] == found[1..];
    } else {
      assert lanes[i := l][1..] == lanes[1..][i - 1 := l] && found[i := f][1..] == found[1..][i - 1 := f];
      ExactWith(env, lanes[1..], found[1..], i - 1, l, f);
    }
  }

  lemma {:induction false} MarksLater(marks: set<Hash>, s: set<Hash>, s': set<Hash>)
    requires MarksOk(marks, s) && s <= s'
    ensures MarksOk(marks, s')
  {
    forall h | h in marks
      ensures Stored(h, s')
    {
      ClosedGrows(h, s, s');
    }
  }

  lemma {:induction false} ChargeSame(z: ByteSizes, lanes: seq<Lane>, lanes': seq<Lane>, proofs: nat)
    requires TotalCapacity(lanes) == TotalCapacity(lanes')
    ensures Charge(z, lanes, proofs) == Charge(z, lanes', proofs)
  {
  }

  /** When a lane frees proof nodes, and its stack if that is now empty, the cursor is
      charged that much less. */
  lemma {:induction false} ChargeUpdate(z: ByteSizes, lanes: seq<Lane>, i: nat, l: Lane, freed: nat)
    requires i < |lanes| && l.capacity <= lanes[i].capacity && LaneProofs(l) == LaneProofs(lanes[i]) - freed
    ensures freed <= TotalProofs(lanes) && TotalProofs(lanes[i := l]) == TotalProofs(lanes) - freed
    ensures Charge(z, lanes, TotalProofs(lanes)) == Charge(z, lanes[i := l], TotalProofs(lanes) - freed)
            + Bytes(z.frame, lanes[i].capacity - l.capacity) + Bytes(z.proof, freed)
  {
    TotalUpdate(lanes, i, l);
    BytesSplit(z.frame, TotalCapacity(lanes[i := l]), lanes[i].capacity - l.capacity);
    BytesSplit(z.proof, TotalProofs(lanes) - freed, freed);
  }

  /** A turn on one lane keeps the books of the pass. */
  lemma {:induction false} ExactUpdate(env: Env, lanes: seq<Lane>, found: seq<seq<MissingNode>>, i: nat, l: Lane,
                                       items: seq<MissingNode>)
    requires Exact(env, lanes, found) && i < |lanes| && lanes[i].started && !lanes[i].complete
    requires l.started && !l.complete && l.root == lanes[i].root && AllShaped(lanes[i].stack) && AllShaped(l.stack)
    requires StackRest(env, lanes[i].stack) == items + StackRest(env, l.stack)
      && l.incomplete == (lanes[i].incomplete || items != [])
    ensures Exact(env, lanes[i := l], found[i := found[i] + items])
  {
    hide Exact, StackRest;
    ExactLength(env, lanes, found);
    ExactAt(env, lanes, found, i);
    assert found[i] + items + StackRest(env, l.stack) == found[i] + (items + StackRest(env, l.stack));
    ExactWith(env, lanes, found, i, l, found[i] + items);
  }

  lemma {:induction false} DurableGrows(env: Env, env': Env, root: Hash)
    requires Later(env, env', root)
    ensures env.durable <= env'.durable
  {
  }

  lemma {:induction false} MarksGrow(marks: set<Hash>, env: Env, env': Env, root: Hash)
    requires MarksOk(marks, env.durable) && Later(env, env', root)
    ensures MarksOk(marks, env'.durable)
  {
    MarksLater(marks, env.durable, env'.durable);
  }

  /** What a turn on lane i means for the cursor. */
  lemma {:induction false} TurnParts(env: Env, root: Hash, lanes: seq<Lane>, i: nat, l: Lane,
                                     items: seq<MissingNode>, freed: int)
    requires LanesOk(env, root, lanes) && Seated(lanes, 0) && i < |lanes|
    requires Turn(env, root, lanes[i], l, items, freed)
    ensures l.started && !l.complete && l.root == lanes[i].root && Admitted(l)
    ensures LanesOk(env, root, lanes[i := l]) && LaneProofs(l) == LaneProofs(lanes[i]) - freed
    ensures l.capacity <= lanes[i].capacity || lanes[i].stack == []
    ensures AllShaped(lanes[i].stack) && AllShaped(l.stack)
    ensures StackRest(env, lanes[i].stack) == items + StackRest(env, l.stack)
    ensures StackWork(l.stack) < StackWork(lanes[i].stack)
    ensures l.incomplete == (lanes[i].incomplete || items != [])
  {
    SeatedAt(lanes, 0, i);
    LanesUpdate(env, root, lanes, i, l);
  }

  lemma {:induction false} LaneWalks(env: Env, root: Hash, lanes: seq<Lane>, i: nat)
    requires LanesOk(env, root, lanes) && Seated(lanes, 0) && i < |lanes| && lanes[i].stack != []
    ensures Walking(env, root, lanes[i])
  {
    LaneAt(env, root, lanes, i);
    SeatedAt(lanes, 0, i);
  }

  /** The states the sources have been in since the generation and root began. */
  ghost predicate HistoryOk(past: seq<Env>, root: Hash) {
    && past != []
    && if |past| == 1 then EnvOk(past[0], root)
       else HistoryOk(past[..|past| - 1], root) && Later(past[|past| - 2], past[|past| - 1], root)
  }

  /** The walk has seen nodes of the map only, though perhaps not the newest. */
  ghost predicate Sees(attached: map<seq<Nibble>, Attached>, nodes: map<seq<Nibble>, Attached>, root: Hash) {
    && EnvOk(Env({}, {}, nodes), root)
    && [] in attached && forall p :: p in attached ==> p in nodes && nodes[p] == attached[p]
  }

  /** Coming to see further nodes of the map is a move the scanner allows for. */
  lemma {:induction false} SeeingIsLater(env: Env, root: Hash, nodes: map<seq<Nibble>, Attached>,
                                         more: set<seq<Nibble>>)
    requires EnvOk(env, root) && Sees(env.attached, nodes, root)
    ensures var attached := env.attached + map p | p in nodes && p in more :: nodes[p];
      Later(env, env.(attached := attached), root) && Sees(attached, nodes, root)
  {
    hide HashAt, AttachedOk;
  }

  lemma {:induction false} OneMark(h: Hash, s: set<Hash>)
    requires IsFan(h) && Stored(h, s)
    ensures MarksOk({h}, s)
  {
  }

  lemma {:induction false} MarkClosed(marks: set<Hash>, h: Hash, s: set<Hash>)
    requires MarksOk(marks, s) && IsFan(h) && Closed(h, s)
    ensures MarksOk(marks + {h}, s)
  {
    MarksAdd(marks, h, s);
  }

  lemma {:induction false} NewHistory(env: Env, root: Hash)
    requires EnvOk(env, root)
    ensures HistoryOk([env], root)
  {
  }

  lemma {:induction false} SeesItself(env: Env, root: Hash)
    requires EnvOk(env, root)
    ensures Sees(env.attached, env.attached, root)
  {
  }

  lemma {:induction false} SeesAll(attached: map<seq<Nibble>, Attached>, nodes: map<seq<Nibble>, Attached>, root: Hash)
    requires Sees(attached, nodes, root)
    ensures attached + (map p | p in nodes && p in nodes.Keys :: nodes[p]) == nodes && Sees(nodes, nodes, root)
  {
  }

  lemma {:induction false} HistoryNow(past: seq<Env>, root: Hash)
    requires HistoryOk(past, root)
    ensures EnvOk(past[|past| - 1], root)
  {
  }

  /** The sources have been the same since the pass that began after `start` states. */
  ghost predicate Steady(past: seq<Env>, start: nat) {
    1 <= start <= |past| && forall i :: start <= i < |past| ==> past[i] == past[start - 1]
  }

  lemma {:induction false} StillSteady(past: seq<Env>, start: nat, env: Env)
    requires start <= |past| && Steady(past + [env], start)
    ensures Steady(past, start) && env == past[|past| - 1]
  {
    assert (past + [env])[|past|] == env;
    forall i | start <= i < |past|
      ensures past[i] == past[start - 1]
    {
      assert (past + [env])[i] == past[i];
    }
  }

  /** The store generation, root and base a cursor was made for. */
  datatype Binding = Binding(generation: nat, root: Hash, base: Option<Hash>)

  /** The state of one backed acquisition. */
  class Acquisition {
    /** Whether a memory budget is attached, its limit, and the sizes it is charged. */
    const budgeted: bool
    const limit: nat
    const sizes: ByteSizes

    /** The nodes attached to the map, and the sources as the walk sees them. */
    var nodes: map<seq<Nibble>, Attached>
    var env: Env
    var marks: set<Hash>
    var generation: nat
    var rootHash: Hash
    var rootDirty: bool
    var base: Option<Hash>
    var charged: nat

    /** The cursor. */
    var open: bool
    var binding: Binding
    var proofCount: nat
    var nextLane: nat
    var passActive: bool
    var rootDurable: bool
    var lanes: seq<Lane>

    /** The states the sources have been in, how many there were when the pass began,
        and what each lane has found absent in this pass. */
    ghost var past: seq<Env>
    ghost var passStart: nat
    ghost var found: seq<seq<MissingNode>>

    /** Every byte charged is accounted for. */
    ghost predicate Accounted()
      reads this
    {
      if open then
        && |lanes| == 16 && Seated(lanes, 0) && proofCount == TotalProofs(lanes) && nextLane < 16
        && binding.generation <= generation
        && charged == (if budgeted then Charge(sizes, lanes, proofCount) else 0)
      else charged == 0
    }

    /** The cursor belongs to the current root and store generation. */
    ghost predicate Current()
      reads this
    {
      open && binding.generation == generation && binding.root == rootHash
    }

    /** A pass of the cursor for the current root, generation and base is under way. */
    predicate UnderWay()
      reads this
    {
      open && binding == Binding(generation, rootHash, base) && passActive
    }

    /** No cursor has to give way to another, or no base is lost with it. */
    predicate KeepsBase()
      reads this
    {
      !open || base.None? || binding == Binding(generation, rootHash, base)
    }

    /** What holds of a current cursor. */
    ghost predicate CursorOk()
      reads this
    {
      && LanesOk(env, rootHash, lanes) && |lanes| == |found| == 16 && IsFan(rootHash)
      && (!passActive ==> Idle(lanes))
      && (rootDurable ==> rootHash in env.durable)
      && (passActive && Steady(past, passStart) ==> Exact(env, lanes, found))
    }

    /** What holds of the sources, the marks and the base. */
    ghost predicate Surroundings()
      reads this
    {
      && HistoryOk(past, rootHash) && env == past[|past| - 1] && passStart <= |past|
      && Sees(env.attached, nodes, rootHash)
      && MarksOk(marks, env.durable)
      && (base.Some? ==> MarksOk({base.value}, env.durable))
    }

    ghost predicate Valid()
      reads this
    {
      Surroundings() && Accounted() && (Current() ==> CursorOk())
    }

    constructor (env: Env, rootHash: Hash, budgeted: bool, limit: nat, sizes: ByteSizes)
      requires EnvOk(env, rootHash)
      ensures Valid() && !open && this.env == env && nodes == env.attached && this.rootHash == rootHash && rootDirty
      ensures base.None? && this.budgeted == budgeted
    {
      this.env, this.nodes, this.rootHash := env, env.attached, rootHash;
      this.budgeted, this.limit, this.sizes := budgeted, limit, sizes;
      marks, generation, rootDirty, base, charged := {}, 0, true, None, 0;
      open, binding := false, Binding(0, Zero, None);
      proofCount, nextLane, passActive, rootDurable, lanes := 0, 0, false, false, [];
      past, passStart, found := [env], 0, [];
    }

    /** Another component moves: the durable store grows, nodes are staged, the walk comes
        to see nodes of the map or no longer sees them, marks come and go. */
    method Move(env': Env, marks': set<Hash>)
      requires Valid() && Later(env, env', rootHash) && MarksOk(marks', env'.durable)
      requires Sees(env'.attached, nodes, rootHash)
      modifies `env, `marks, `past
      ensures Valid() && env == env' && marks == marks' && past == old(past) + [env']
    {
      hide LanesOk, Exact, Steady, Later, Sees, MarksOk, Seated, Charge;
      if base.Some? {
        MarksGrow({base.value}, env, env', rootHash);
      }
      if Current() {
        LanesLater(env, env', rootHash, lanes);
        if passActive && Steady(past + [env'], passStart) {
          StillSteady(past, passStart, env');
        }
      }
      DurableGrows(env, env', rootHash);
      assert (past + [env'])[..|past|] == past;
      env, marks, past := env', marks', past + [env'];
    }

    /** The map's nodes are others now: some were attached, or those the walk no longer
        sees were let go. */
    method Attach(nodes': map<seq<Nibble>, Attached>)
      requires Valid() && Sees(env.attached, nodes', rootHash)
      modifies `nodes
      ensures Valid() && nodes == nodes'
    {
      hide LanesOk, Exact, Steady, HistoryOk, Sees, MarksOk, Seated, Charge;
      nodes := nodes';
    }

    /** The walk sees the map as it is. */
    method LookAround()
      requires Valid()
      modifies `env, `marks, `past
      ensures Valid() && env == old(env).(attached := nodes) && marks == old(marks)
    {
      hide LanesOk, Exact, Steady, HistoryOk, Later, Sees, EnvOk, MarksOk, Seated, Charge;
      HistoryNow(past, rootHash);
      SeeingIsLater(env, rootHash, nodes, nodes.Keys);
      SeesAll(env.attached, nodes, rootHash);
      Move(env.(attached := nodes), marks);
    }

    /** The root's dirty flag, set when nodes are attached that are not in the store. */
    method SetRootDirty(dirty: bool)
      requires Valid()
      modifies `rootDirty
      ensures Valid() && rootDirty == dirty
    {
      hide LanesOk, Exact, Steady, HistoryOk, Sees, MarksOk, Seated, Charge, TotalProofs, Idle;
      rootDirty := dirty;
    }

    /** Whatever happens between two turns of a walk. The contract is all the scanner
        relies on, and every move meets it. */
    method Drift()
      requires Valid()
      modifies `env, `marks, `past
      ensures Valid() && old(env.durable) <= env.durable && old(past) <= past
      ensures past == old(past) ==> env == old(env)
    {
      hide HistoryOk, Sees, EnvOk, Later;
      var idle: bool, arrived: set<Hash>, staged: set<Hash>, seen: set<seq<Nibble>> := *, *, *, *;
      if idle {
        return;
      }
      HistoryNow(past, rootHash);
      var durable := env.durable + env.staged + arrived;
      ArrivalIsLater(env, rootHash, durable, staged);
      Move(env.(durable := durable, staged := staged), {});
      HistoryNow(past, rootHash);
      SeeingIsLater(env, rootHash, nodes, seen);
      Move(env.(attached := env.attached + map p | p in nodes && p in seen :: nodes[p]), {});
    }

    /** reserveCursorBytes; the budget may refuse. */
    method Reserve(bytes: nat) returns (ok: bool)
      modifies `charged
      ensures charged == old(charged) + (if ok && budgeted then bytes else 0)
      ensures !budgeted ==> ok
    {
      ok := *;
      if !budgeted {
        ok := true;
      } else if ok {
        charged := charged + bytes;
      }
    }

    /** releaseCursorBytes: giving back more than is charged would be a fault. */
    method Release(bytes: nat)
      requires budgeted ==> bytes <= charged
      modifies `charged
      ensures charged == old(charged) - (if budgeted then bytes else 0)
    {
      if budgeted {
        charged := charged - bytes;
      }
    }

    /** A lane of the pass now running. */
    ghost predicate Running(i: nat)
      reads this
    {
      Valid() && Current() && passActive && i < 16 && lanes[i].started && !lanes[i].complete
    }

    /** Puts a lane back after a turn and gives back what it let go. */
    method Install(i: nat, l: Lane, ghost items: seq<MissingNode>, freed: nat)
      requires Running(i) && l.started && !l.complete
      requires LanesOk(env, rootHash, lanes[i := l]) && Admitted(l) && l.root == lanes[i].root
      requires l.capacity <= lanes[i].capacity && LaneProofs(l) == LaneProofs(lanes[i]) - freed
      requires AllShaped(lanes[i].stack) && AllShaped(l.stack)
      requires StackRest(env, lanes[i].stack) == items + StackRest(env, l.stack)
        && l.incomplete == (lanes[i].incomplete || items != [])
      modifies `lanes, `found, `proofCount, `charged
      ensures Running(i) && lanes == old(lanes)[i := l] && found == old(found)[i := old(found[i]) + items]
    {
      hide LanesOk, Exact, Steady, HistoryOk, Sees, MarksOk, Seated, Admitted, StackRest, AllShaped, Charge, Bytes,
           LaneProofs, TotalProofs, Idle, IsFan;
      ChargeUpdate(sizes, lanes, i, l, freed);
      SeatedUpdate(lanes, 0, i, l);
      if Steady(past, passStart) {
        ExactUpdate(env, lanes, found, i, l, items);
      }
      Release(Bytes(sizes.frame, lanes[i].capacity - l.capacity));
      Release(Bytes(sizes.proof, freed));
      proofCount := proofCount - freed;
      lanes := lanes[i := l];
      found := found[i := found[i] + items];
    }

    /** A lane of the pass now running that has frames left; the top one is to be
        loaded, or is loaded. */
    ghost predicate AtTop(i: nat, loaded: bool)
      reads this
    {
      Running(i) && lanes[i].stack != [] && Top(lanes[i]).loaded == loaded
    }

    /** What every turn on lane i does. */
    twostate predicate Turned(i: nat, new items: seq<MissingNode>)
      reads this
    {
      && Running(i) && |old(lanes)| == |old(found)| == 16
      && lanes == old(lanes)[i := lanes[i]] && found == old(found)[i := old(found)[i] + items]
      && AllShaped(lanes[i].stack) && AllShaped(old(lanes)[i].stack)
      && StackWork(lanes[i].stack) < StackWork(old(lanes)[i].stack)
      && (items != [] ==> lanes[i].incomplete)
    }

    /** The base has this very subtree, or the cache has its mark. */
    method Skip(i: nat, viaBase: bool)
      requires AtTop(i, false) && MarksOk({Top(lanes[i]).item.hash}, env.durable)
      modifies `lanes, `found, `proofCount, `charged
      ensures Turned(i, [])
    {
      ghost var l := SetTop(lanes[i], Skipped(Top(lanes[i]), viaBase));
      LaneWalks(env, rootHash, lanes, i);
      assert Stored(Top(lanes[i]).item.hash, env.durable);
      SkipTurn(env, rootHash, lanes[i], viaBase);
      hide LanesOk, Exact, Steady, HistoryOk, Sees, MarksOk, Seated, Admitted, StackRest, AllShaped, Charge,
           LaneProofs, Walking, Turn, StackWork, Stored;
      TurnParts(env, rootHash, lanes, i, l, [], 0);
      Install(i, SetTop(lanes[i], Skipped(Top(lanes[i]), viaBase)), [], 0);
    }

    /** The node is there: the durable record, else the staged one, else the attached
        node. The base's node at this position is read too, if it can be. */
    method Load(i: nat, view: View)
      requires AtTop(i, false) && ViewAt(env, Top(lanes[i]).item.path, Top(lanes[i]).item.hash) == Some(view)
      requires !Spoilt(env, Top(lanes[i]).item.hash)
      modifies `lanes, `found, `proofCount, `charged
      ensures Turned(i, [])
    {
      var f := Top(lanes[i]);
      var readBase: bool := *;
      var baseView := if f.item.baseHash != Zero && readBase then DecodedView(f.item.baseHash) else NO_VIEW;
      var l := SetTop(lanes[i], Loaded(f, view, f.item.hash in env.durable, baseView));
      hide LanesOk, Exact, Steady, HistoryOk, Sees, MarksOk, Seated, Admitted, StackRest, AllShaped, Charge,
           LaneProofs, Walking, Turn, StackWork, Stored, DecodedView;
      LaneWalks(env, rootHash, lanes, i);
      HistoryNow(past, rootHash);
      LoadTurn(env, rootHash, lanes[i], view, baseView);
      TurnParts(env, rootHash, lanes, i, l, [], 0);
      Install(i, l, [], 0);
    }

    /** Descends into the next branch. */
    method Descend(i: nat, b: nat)
      requires AtTop(i, true) && Shaped(Top(lanes[i])) && |Top(lanes[i]).item.path| < 64
      requires b == NextBranch(Top(lanes[i]), Top(lanes[i]).next) && b < 16
      modifies `lanes, `found, `proofCount, `charged
      ensures Turned(i, [])
    {
      var l := Push(lanes[i], b);
      hide LanesOk, Exact, Steady, HistoryOk, Sees, MarksOk, Seated, Admitted, StackRest, AllShaped, Charge,
           LaneProofs, Walking, Turn, StackWork, Stored, Shaped;
      LaneWalks(env, rootHash, lanes, i);
      PushTurn(env, rootHash, lanes[i], b);
      TurnParts(env, rootHash, lanes, i, l, [], 0);
      Install(i, l, [], 0);
    }

    /** finishBackedScanFrame: the mark of a full, stored inner node is published. */
    method FinishTop(i: nat)
      requires AtTop(i, true) && Shaped(Top(lanes[i])) && NextBranch(Top(lanes[i]), Top(lanes[i]).next) == 16
      modifies `lanes, `found, `proofCount, `charged, `marks
      ensures Turned(i, [])
    {
      hide LanesOk, Exact, Steady, HistoryOk, Sees, MarksOk, Seated, Admitted, StackRest, AllShaped, Charge,
           LaneProofs, Walking, Turn, StackWork, Stored, Shaped, Linked;
      LaneWalks(env, rootHash, lanes, i);
      FinishTurn(env, rootHash, lanes[i]);
      var f := Top(lanes[i]);
      var freed := if f.full then OptSize(f.proof) else 0;
      LinkedParts(lanes[i]);
      var l := Finish(lanes[i]);
      TurnParts(env, rootHash, lanes, i, l, [], freed);
      if FinishMark(f).Some? {
        MarksAdd(marks, FinishMark(f).value, env.durable);
        marks := marks + {FinishMark(f).value};
      }
      Install(i, l, [], freed);
    }

    /** retainBackedScanProofs: the frames below the top get proof nodes, from the
        bottom up, as far as the limits and the budget allow. */
    method RetainProofs(i: nat)
      requires AtTop(i, false)
      modifies `lanes, `proofCount, `charged
      ensures AtTop(i, false) && lanes == old(lanes)[i := lanes[i]]
      ensures Top(lanes[i]) == old(Top(lanes[i]))
      ensures AllShaped(lanes[i].stack) && AllShaped(old(lanes)[i].stack)
      ensures StackWork(lanes[i].stack) == StackWork(old(lanes)[i].stack)
    {
      hide LanesOk, Exact, Steady, HistoryOk, Sees, MarksOk, Seated, Admitted, StackRest, AllShaped, Charge,
           LaneProofs, Walking, Turn, StackWork, Stored;
      ShapedAt(env, rootHash, lanes, i);
      var j := 0;
      while j < |lanes[i].stack| - 1
        invariant AtTop(i, false) && lanes == old(lanes)[i := lanes[i]]
        invariant |lanes[i].stack| == |old(lanes)[i].stack| && Top(lanes[i]) == Top(old(lanes)[i])
        invariant AllShaped(lanes[i].stack) && AllShaped(old(lanes)[i].stack)
        invariant StackWork(lanes[i].stack) == StackWork(old(lanes)[i].stack)
        invariant 0 <= j <= |lanes[i].stack| - 1
        invariant j > 0 ==> lanes[i].stack[j - 1].proof.Some?
      {
        if lanes[i].stack[j].proof.None? {
          if proofCount >= PROOF_LIMIT {
            return;
          }
          if budgeted && (proofCount + 1) * sizes.proof > limit / 16 {
            return;
          }
          var ok := RetainOne(i, j);
          if !ok {
            return;
          }
        }
        j := j + 1;
      }
    }

    method RetainOne(i: nat, j: nat) returns (ok: bool)
      requires AtTop(i, false) && j < |lanes[i].stack| - 1 && lanes[i].stack[j].proof.None?
      requires j > 0 ==> lanes[i].stack[j - 1].proof.Some?
      modifies `lanes, `proofCount, `charged
      ensures AtTop(i, false)
      ensures !ok ==> lanes == old(lanes)
      ensures ok ==> lanes == old(lanes)[i := Retain(old(lanes)[i], j)]
      ensures AllShaped(lanes[i].stack) && AllShaped(old(lanes)[i].stack)
      ensures StackWork(lanes[i].stack) == StackWork(old(lanes)[i].stack)
    {
      hide LanesOk, Exact, Steady, HistoryOk, Sees, MarksOk, Seated, Admitted, StackRest, AllShaped, Charge,
           LaneProofs, Walking, Turn, StackWork, Stored, Bytes;
      var l := Retain(lanes[i], j);
      LaneWalks(env, rootHash, lanes, i);
      RetainParts(env, rootHash, lanes, i, j);
      RetainCharge(sizes, lanes, i, j);
      if Steady(past, passStart) {
        RetainExact(env, lanes, found, i, l);
      }
      ok := Reserve(sizes.proof);
      if ok {
        proofCount := proofCount + 1;
        lanes := lanes[i := l];
      }
    }

    /** An absent node: its ancestors' proofs are retained and it is put on the list. */
    method Miss(i: nat)
      requires AtTop(i, false) && ViewAt(env, Top(lanes[i]).item.path, Top(lanes[i]).item.hash).None?
      modifies `lanes, `found, `proofCount, `charged
      ensures Turned(i, [Missing(old(Top(lanes[i]).item))])
    {
      hide LanesOk, Exact, Steady, HistoryOk, Sees, MarksOk, Seated, Admitted, StackRest, AllShaped, Charge,
           LaneProofs, Walking, Turn, StackWork, Stored, ViewAt;
      RetainProofs(i);
      MissTop(i);
    }

    method MissTop(i: nat)
      requires AtTop(i, false) && ViewAt(env, Top(lanes[i]).item.path, Top(lanes[i]).item.hash).None?
      modifies `lanes, `found, `proofCount, `charged
      ensures Turned(i, [Missing(old(Top(lanes[i]).item))])
    {
      hide LanesOk, Exact, Steady, HistoryOk, Sees, MarksOk, Seated, Admitted, StackRest, AllShaped, Charge,
           LaneProofs, Walking, Turn, StackWork, Stored, Linked, ViewAt;
      ghost var items := [Missing(Top(lanes[i]).item)];
      LaneWalks(env, rootHash, lanes, i);
      MissTurn(env, rootHash, lanes[i]);
      LinkedParts(lanes[i]);
      var l := ScanStep.Miss(lanes[i]);
      TurnParts(env, rootHash, lanes, i, l, items, 0);
      Install(i, l, items, 0);
    }

    /** One turn of scanBackedLane. Cancellation, a failing read and the traversal budget
        may end it before anything changed. */
    method TakeTurn(i: nat, filter: Hash -> bool, max: nat, missing: seq<MissingNode>, probe: bool)
      returns (outcome: Outcome, missing': seq<MissingNode>, ghost items: seq<MissingNode>)
      requires Running(i) && lanes[i].stack != [] && |missing| < max
      modifies `lanes, `found, `proofCount, `charged, `marks
      ensures Running(i) && AllShaped(lanes[i].stack) && AllShaped(old(lanes)[i].stack)
      ensures |old(lanes)| == |old(found)| == 16
      ensures lanes == old(lanes)[i := lanes[i]] && found == old(found)[i := old(found)[i] + items]
      ensures missing' == missing + Kept(filter, items) && |missing'| <= max
      ensures outcome.Go? ==> StackWork(lanes[i].stack) < StackWork(old(lanes)[i].stack) && |missing'| < max
      ensures outcome.Stop? && !probe ==> |missing'| == max
    {
      hide LanesOk, Exact, Steady, HistoryOk, Sees, MarksOk, Seated, Admitted, StackRest, AllShaped, Charge,
           LaneProofs, Walking, Turn, StackWork, Stored, ViewAt;
      ShapedAt(env, rootHash, lanes, i);
      missing', items := missing, [];
      var f := Top(lanes[i]);
      ShapedTop(lanes[i]);
      var cancelled: bool, exhausted: bool, failed: bool := *, *, *;
      assert found[i] + [] == found[i];
      assert lanes == lanes[i := lanes[i]] && found == found[i := found[i] + []];
      if cancelled {
        return Fail, missing', items;
      }
      if f.loaded {
        var b := NextBranch(f, f.next);
        if b == 16 {
          FinishTop(i);
        } else if |f.item.path| >= 64 {
          return Fail, missing', items;
        } else {
          Descend(i, b);
        }
        return Go, missing', items;
      }
      if f.item.baseHash != Zero && f.item.baseHash == f.item.hash {
        BaseMark(env, rootHash, lanes, i);
        Skip(i, true);
        return Go, missing', items;
      }
      if f.item.hash in marks {
        MarkAlone(marks, f.item.hash, env.durable);
        Skip(i, false);
        return Go, missing', items;
      }
      if exhausted {
        return Yield, missing', items;
      }
      if failed || Spoilt(env, f.item.hash) {
        return Fail, missing', items;
      }
      var view := ViewAt(env, f.item.path, f.item.hash);
      if view.Some? {
        Load(i, view.value);
        return Go, missing', items;
      }
      if probe {
        return Stop, missing', items;
      }
      items := [Missing(f.item)];
      Miss(i);
      outcome := Go;
      if filter(f.item.hash) {
        missing' := missing + [Missing(f.item)];
        if |missing'| >= max {
          outcome := Stop;
        }
      }
    }

    /** scanBackedLane. What was found absent since the call began is `items`; what the
        filter accepts of it is on the list returned. */
    method ScanLane(i: nat, filter: Hash -> bool, max: nat, missing: seq<MissingNode>, probe: bool)
      returns (outcome: Outcome, missing': seq<MissingNode>, ghost items: seq<MissingNode>)
      requires Running(i) && |missing| < max
      modifies `env, `past, `lanes, `found, `proofCount, `charged, `marks
      ensures Valid() && Current() && passActive && |old(lanes)| == |old(found)| == 16
      ensures lanes == old(lanes)[i := lanes[i]] && found == old(found)[i := old(found)[i] + items]
      ensures missing' == missing + Kept(filter, items) && |missing'| <= max && (outcome.Go? ==> |missing'| < max)
      ensures outcome.Go? ==> lanes[i].stack == [] && lanes[i].started && (lanes[i].complete <==> !lanes[i].incomplete)
      ensures old(past) <= past && old(env.durable) <= env.durable
    {
      hide LanesOk, Exact, Steady, HistoryOk, Sees, MarksOk, Seated, Admitted, StackRest, AllShaped, Charge,
           LaneProofs, Walking, Turn, StackWork, Stored, Kept, Wider, TotalProofs, Idle;
      missing', items, outcome := missing, [], Go;
      ShapedAt(env, rootHash, lanes, i);
      StartsNarrow(i, lanes, found, filter, missing);
      while lanes[i].stack != []
        invariant Running(i) && AllShaped(lanes[i].stack) && |missing'| < max
        invariant Wider(i, old(lanes), old(found), lanes, found, filter, items, missing, missing')
        invariant old(past) <= past && old(env.durable) <= env.durable
        decreases StackWork(lanes[i].stack)
      {
        ghost var sofar, more, lanes0, found0, list0 := items, [], lanes, found, missing';
        Drift();
        outcome, missing', more := TakeTurn(i, filter, max, missing', probe);
        items := sofar + more;
        Widens(i, old(lanes), old(found), lanes0, found0, lanes, found, filter, sofar, more, missing, list0, missing');
        if !outcome.Go? {
          WideIs(i, old(lanes), old(found), lanes, found, filter, items, missing, missing');
          return;
        }
      }
      outcome := Go;
      WideIs(i, old(lanes), old(found), lanes, found, filter, items, missing, missing');
      SettleLane(i);
    }

    /** The end of scanBackedLane. */
    method SettleLane(i: nat)
      requires Running(i) && lanes[i].stack == []
      modifies `lanes
      ensures Valid() && Current() && passActive && lanes == old(lanes)[i := Settle(old(lanes)[i])]
    {
      hide LanesOk, Exact, Steady, HistoryOk, Sees, MarksOk, Seated, Admitted, StackRest, AllShaped, Charge,
           LaneProofs, Walking, Turn, StackWork, Stored, Bytes;
      var l := Settle(lanes[i]);
      SettleParts(env, rootHash, lanes, i);
      TotalUpdate(lanes, i, l);
      if Steady(past, passStart) {
        SettleExact(env, lanes, found, i);
      }
      ChargeSame(sizes, lanes, lanes[i := l], proofCount);
      lanes := lanes[i := l];
    }

    /** releaseBackedScanCursorLocked: every byte goes back. */
    method ReleaseCursor()
      requires Valid()
      modifies `charged, `open, `lanes, `base
      ensures Valid() && !open && charged == 0
      ensures base == if old(open) then None else old(base)
    {
      hide LanesOk, Exact, Steady, HistoryOk, Sees, MarksOk, Seated, Admitted, StackRest, AllShaped, Charge,
           LaneProofs, Walking, Turn, StackWork, Stored;
      if !open {
        return;
      }
      ReleaseLanes();
      Release(sizes.cursor);
      open, lanes, base := false, [], None;
    }

    method ReleaseLanes()
      requires open && Accounted()
      modifies `charged
      ensures charged == if budgeted then sizes.cursor else 0
    {
      hide Seated, LaneProofs, Bytes;
      var i := 0;
      assert lanes[0..] == lanes;
      while i < 16
        invariant 0 <= i <= 16 && |lanes| == 16
        invariant charged == if budgeted then Charge(sizes, lanes[i..], TotalProofs(lanes[i..])) else 0
      {
        ChargeFirst(sizes, lanes[i..]);
        assert lanes[i..][0] == lanes[i] && lanes[i..][1..] == lanes[i + 1..];
        Release(Bytes(sizes.frame, lanes[i].capacity));
        Release(Bytes(sizes.proof, LaneProofs(lanes[i])));
        i := i + 1;
      }
      ChargeNone(sizes, lanes[16..]);
    }

    /** The lanes of a new cursor. */
    method MakeLanes(withBase: Option<Hash>) returns (newLanes: seq<Lane>)
      requires HistoryOk(past, rootHash) && env == past[|past| - 1] && IsFan(rootHash)
      requires withBase.Some? ==> MarksOk({withBase.value}, env.durable)
      ensures |newLanes| == 16 && LanesOk(env, rootHash, newLanes) && Idle(newLanes)
      ensures Seated(newLanes, 0) && TotalProofs(newLanes) == 0 && Charge(sizes, newLanes, 0) == sizes.cursor
    {
      HistoryNow(past, rootHash);
      RootAttached(env, rootHash);
      hide LanesOk, Exact, Steady, HistoryOk, Sees, MarksOk, Seated, Admitted, StackRest, AllShaped, Charge,
           LaneProofs, Walking, Turn, StackWork, Stored, EnvOk, DecodedView;
      newLanes := [];
      for b := 0 to 16
        invariant |newLanes| == b && Idle(newLanes)
        invariant newLanes == NewLanes(rootHash, env.attached[[]].branches, withBase, b)
      {
        newLanes := newLanes + [NewLane(rootHash, env.attached[[]].branches, withBase, b)];
      }
      NewLanesOk(env, rootHash, withBase, 16);
      NewLanesCharge(sizes, rootHash, env.attached[[]].branches, withBase);
    }

    /** newBackedScanCursor; the budget may refuse it. */
    method NewCursor(withBase: Option<Hash>) returns (ok: bool)
      requires Valid() && !open && IsFan(rootHash)
      requires withBase.Some? ==> MarksOk({withBase.value}, env.durable)
      modifies `charged, `open, `binding, `proofCount, `nextLane, `passActive, `rootDurable, `lanes, `found
      ensures Valid() && (ok <==> open) && (ok ==> Current() && !passActive && binding.base == withBase)
      ensures !budgeted ==> ok
    {
      hide LanesOk, Exact, Steady, HistoryOk, Sees, MarksOk, Seated, Admitted, Charge;
      ok := Reserve(sizes.cursor);
      if ok {
        var newLanes := MakeLanes(withBase);
        OpenCursor(newLanes, withBase);
      }
    }

    method OpenCursor(newLanes: seq<Lane>, withBase: Option<Hash>)
      requires IsFan(rootHash) && Surroundings() && charged == (if budgeted then sizes.cursor else 0)
      requires |newLanes| == 16 && LanesOk(env, rootHash, newLanes) && Idle(newLanes)
      requires Seated(newLanes, 0) && TotalProofs(newLanes) == 0 && Charge(sizes, newLanes, 0) == sizes.cursor
      modifies `open, `binding, `proofCount, `nextLane, `passActive, `rootDurable, `lanes, `found
      ensures Valid() && Current() && !passActive && binding.base == withBase
    {
      hide LanesOk, Exact, Steady, HistoryOk, Sees, MarksOk, Seated, Admitted, Charge, TotalProofs, Idle, IsFan;
      ghost var nothing := NothingFound(|newLanes|);
      hide NothingFound;
      lanes, found, proofCount, nextLane := newLanes, nothing, 0, 0;
      passActive, rootDurable := false, false;
      open, binding := true, Binding(generation, rootHash, withBase);
      assert Surroundings();
      assert Accounted();
    }

    method RestartLanes()
      requires |lanes| == 16
      modifies `lanes
      ensures lanes == Restarted(old(lanes), 16)
    {
      ghost var before := lanes;
      assert Restarted(before, 0) == [];
      for i := 0 to 16
        invariant |lanes| == |before| == 16
        invariant lanes == Restarted(before, i) + before[i..]
      {
        lanes := lanes[i := Restart(lanes[i])];
      }
      assert lanes == Restarted(before, 16);
    }

    /** startBackedScanPass. */
    method StartPass()
      requires Valid() && Current() && !passActive
      modifies `lanes, `passActive, `passStart, `found
      ensures Valid() && Current() && passActive && Idle(lanes)
      ensures found == NothingFound(16) && passStart == |past|
    {
      hide LanesOk, Exact, Steady, HistoryOk, Sees, MarksOk, Seated, Admitted, StackRest, AllShaped, Charge,
           LaneProofs, Walking, Turn, StackWork, Stored, Idle, Restarted;
      RestartedOk(env, rootHash, lanes);
      RestartedCharge(sizes, lanes);
      RestartedExact(env, rootHash, lanes);
      RestartLanes();
      passActive, passStart, found := true, |past|, NothingFound(16);
    }

    /** Pushes the root frame of a lane, if the budget admits its stack. */
    method StartLane(i: nat) returns (ok: bool)
      requires Valid() && Current() && passActive && i < 16 && !lanes[i].complete && !lanes[i].started
      modifies `lanes, `charged
      ensures Valid() && Current() && lanes == old(lanes)[i := lanes[i]]
      ensures if ok then Running(i) else lanes == old(lanes)
    {
      hide LanesOk, Exact, Steady, HistoryOk, Sees, MarksOk, Seated, Admitted, StackRest, AllShaped, Charge,
           LaneProofs, Walking, Turn, StackWork, Stored, Bytes, TotalProofs;
      var l := Start(lanes[i]);
      StartParts(sizes, env, rootHash, lanes, i);
      if Steady(past, passStart) {
        StartExact(env, rootHash, lanes, found, i);
      }
      ok := Reserve(Bytes(sizes.frame, STACK_CAPACITY));
      if ok {
        lanes := lanes[i := l];
      }
    }

    /** A lane's share of scanBackedContext: nothing if it is complete, else its stack
        is admitted if need be and walked. */
    method VisitLane(i: nat, filter: Hash -> bool, max: nat, missing: seq<MissingNode>, probe: bool)
      returns (outcome: Outcome, blocked: bool, released: bool, missing': seq<MissingNode>,
        ghost items: seq<MissingNode>)
      requires Valid() && Current() && passActive && i < 16 && |missing| < max
      modifies `env, `past, `lanes, `found, `proofCount, `charged, `marks
      ensures Valid() && Current() && passActive && |old(lanes)| == |old(found)| == 16
      ensures lanes == old(lanes)[i := lanes[i]] && found == old(found)[i := old(found)[i] + items]
      ensures missing' == missing + Kept(filter, items) && |missing'| <= max && (outcome.Go? ==> |missing'| < max)
      ensures outcome.Go? && !blocked ==> Done(lanes[i])
      ensures old(past) <= past && old(env.durable) <= env.durable
    {
      hide LanesOk, Exact, Steady, HistoryOk, Sees, MarksOk, Seated, Admitted, StackRest, AllShaped, Charge,
           LaneProofs, Walking, Turn, StackWork, Stored;
      outcome, blocked, released, missing', items := Go, false, false, missing, [];
      assert found[i] + [] == found[i];
      assert lanes == lanes[i := lanes[i]] && found == found[i := found[i] + []];
      if lanes[i].complete {
        return;
      }
      if !lanes[i].started {
        var ok := StartLane(i);
        if !ok {
          blocked := true;
          return;
        }
      }
      var hadStack := lanes[i].stack != [];
      outcome, missing', items := ScanLane(i, filter, max, missing, probe);
      released := hadStack && lanes[i].stack == [];
    }

    lemma {:induction false} SixteenLanes()
      requires Valid() && Current()
      ensures nextLane < 16 && |lanes| == |found| == 16
    {
    }

    method StartNextAt(i: nat)
      requires Valid() && Current() && passActive && i < 16
      modifies `nextLane
      ensures Valid() && Current() && nextLane == i
    {
      hide LanesOk, Exact, Steady, HistoryOk, Sees, MarksOk, Seated, Charge;
      nextLane := i;
    }

    /** The loop of scanBackedContext over the lanes, from the one after the last that
        yielded. What lane b found absent in this call is parts[b]; the list returned is
        what the filter accepts of them. The pass is over exactly when no lane was
        stopped or blocked. */
    method Sweep(filter: Hash -> bool, max: nat, probe: bool)
      returns (outcome: Outcome, blocked: bool, released: bool, missing: seq<MissingNode>,
        ghost parts: seq<seq<MissingNode>>)
      requires Valid() && Current() && passActive && 0 < max
      modifies `env, `past, `lanes, `found, `proofCount, `charged, `marks, `nextLane
      ensures Valid() && Current() && passActive && |missing| <= max
      ensures |parts| == |found| == |old(found)| == 16
      ensures forall b :: 0 <= b < 16 ==> found[b] == old(found)[b] + parts[b]
      ensures missing == Kept(filter, InOrder(parts, old(nextLane), 16))
      ensures outcome.Go? && !blocked ==> forall b :: 0 <= b < 16 ==> Done(lanes[b])
      ensures old(past) <= past && old(env.durable) <= env.durable
    {
      hide LanesOk, Exact, Steady, HistoryOk, Sees, MarksOk, Seated, Admitted, StackRest, AllShaped, Charge,
           LaneProofs, Walking, Turn, StackWork, Stored, Sweeping, InOrder, DoneUpTo, Done, Kept, Acquisition.Valid,
           Acquisition.Current;
      SixteenLanes();
      outcome, blocked, released, missing, parts := Go, false, false, [], NothingFound(16);
      SweepingStart(filter, parts, nextLane, found);
      DoneNone(lanes, nextLane);
      var offset := 0;
      while offset < 16
        invariant Valid() && Current() && passActive && |missing| < max && 0 <= offset <= 16
        invariant Sweeping(filter, parts, nextLane, offset, missing, old(found), found) && nextLane == old(nextLane)
        invariant !blocked ==> DoneUpTo(lanes, nextLane, offset)
        invariant old(past) <= past && old(env.durable) <= env.durable
      {
        var i := LaneNo(nextLane, offset);
        ghost var items;
        var refused: bool, emptied: bool;
        ghost var before, found0, lanes0 := missing, found, lanes;
        outcome, refused, emptied, missing, items := VisitLane(i, filter, max, missing, probe);
        SweepingStep(filter, parts, nextLane, offset, before, old(found), found0, items);
        parts := parts[i := items];
        blocked, released := blocked || refused, released || emptied;
        if !outcome.Go? {
          SweepingEnd(filter, parts, nextLane, offset + 1, missing, old(found), found);
          StartNextAt(if outcome.Stop? && probe then i else if outcome.Fail? then nextLane else (i + 1) % 16);
          return;
        }
        if !blocked {
          DoneOne(lanes0, lanes, nextLane, offset);
        }
        offset := offset + 1;
      }
      outcome := Go;
      SweepingEnd(filter, parts, nextLane, 16, missing, old(found), found);
      if !blocked {
        DoneAll(lanes, nextLane);
      }
    }

    /** The start of scanBackedContext: the cases that need no walk, and otherwise a
        current cursor with a pass under way. */
    method Prepare() returns (early: Option<Status>)
      requires Valid()
      modifies `charged, `open, `binding, `proofCount, `nextLane, `passActive, `rootDurable, `lanes, `found, `base,
        `marks, `passStart
      ensures Valid()
      ensures early.None? ==> Current() && passActive && (old(KeepsBase()) <==> UnderWay())
      ensures early.None? ==> IsFan(rootHash)
      ensures early.None? ==> base == if old(KeepsBase()) then old(base) else None
      ensures early.None? && old(UnderWay()) ==> found == old(found) && passStart == old(passStart)
      ensures early.None? && !old(UnderWay()) ==> found == NothingFound(16) && passStart == |past|
      ensures early.Some? ==> !open && (early == Some(Complete) || (budgeted && early == Some(Memory)))
      ensures early == Some(Complete) ==> Closed(rootHash, env.durable)
    {
      hide LanesOk, Exact, Steady, HistoryOk, Sees, MarksOk, Seated, Admitted, Charge, Stored, Closed;
      early := Skippable();
      if early.Some? {
        ReleaseCursor();
        return;
      }
      var withBase := base;
      if !(open && binding == Binding(generation, rootHash, withBase)) {
        ReleaseCursor();
        var ok := NewCursor(withBase);
        if !ok {
          return Some(Memory);
        }
      }
      if !passActive {
        StartPass();
      }
    }

    /** An empty root, a root the base has, or a root with its mark needs no walk. */
    method Skippable() returns (early: Option<Status>)
      requires Valid()
      modifies `marks
      ensures Valid() && (early.None? || early == Some(Complete))
      ensures early == Some(Complete) ==> Closed(rootHash, env.durable)
      ensures early.None? ==> IsFan(rootHash)
    {
      hide LanesOk, Exact, Steady, HistoryOk, Sees, MarksOk, Seated, Admitted, Charge, Stored, EnvOk, Closed,
           TotalProofs, Idle;
      HistoryNow(past, rootHash);
      RootShape(env, rootHash);
      if forall i :: 0 <= i < 16 ==> !env.attached[[]].branches[i] {
        EmptyClosed(rootHash, env.durable);
        return Some(Complete);
      }
      if base == Some(rootHash) && !rootDirty {
        MarkIsClosed({base.value}, rootHash, env.durable);
        MarksJoin(marks, {base.value}, env.durable);
        marks := marks + {rootHash};
        return Some(Complete);
      }
      if rootHash in marks && !rootDirty {
        MarkIsClosed(marks, rootHash, env.durable);
        return Some(Complete);
      }
      early := None;
    }

    /** Every lane is done, so the pass is over; if the sources did not move during it,
        each lane has found exactly what is absent below its branch. */
    method EndPass()
      requires Valid() && Current() && passActive && forall b :: 0 <= b < 16 ==> Done(lanes[b])
      modifies `passActive, `nextLane
      ensures Valid() && Current() && !passActive && |found| == 16 && IsFan(rootHash)
      ensures Steady(past, passStart) ==> forall b :: 0 <= b < 16 ==>
        found[b] == Owed(env, rootHash, b) && (lanes[b].complete <==> found[b] == [])
    {
      hide LanesOk, Exact, Steady, HistoryOk, Sees, MarksOk, Seated, Admitted, Charge, Stored, Owed;
      DoneIsIdle(env, rootHash, lanes);
      if Steady(past, passStart) {
        forall b | 0 <= b < 16
          ensures found[b] == Owed(env, rootHash, b) && (lanes[b].complete <==> found[b] == [])
        {
          DoneIsOwed(env, rootHash, lanes, found, b);
        }
      }
      passActive := false;
      nextLane := if nextLane == 15 then 0 else nextLane + 1;
    }

    /** The end of scanBackedContext, once a pass is over. */
    method Conclude() returns (status: Option<Status>)
      requires Valid() && Current() && !passActive
      modifies `charged, `open, `lanes, `base, `marks
      ensures Valid() && |old(lanes)| == 16
      ensures status == Some(Complete) ==> Closed(rootHash, env.durable)
      ensures status == Some(Waiting) <==> exists i :: 0 <= i < 16 && !old(lanes)[i].complete
      ensures status == Some(Persistence) ==>
                rootDirty || rootHash !in env.durable || exists i :: 0 <= i < 16 && !old(lanes)[i].durable
    {
      hide LanesOk, Exact, Steady, HistoryOk, Sees, MarksOk, Seated, Admitted, Charge, Stored, Closed;
      var allComplete, allDurable := true, true;
      for i := 0 to 16
        invariant allComplete <==> forall j :: 0 <= j < i ==> lanes[j].complete
        invariant allDurable <==> forall j :: 0 <= j < i ==> lanes[j].durable
      {
        allComplete := allComplete && lanes[i].complete;
        allDurable := allDurable && lanes[i].durable;
      }
      if !allComplete {
        return Some(Waiting);
      }
      var cancelled: bool, exhausted: bool, failed: bool := *, *, *;
      if cancelled {
        return None;
      }
      if !allDurable || rootDirty {
        return Some(Persistence);
      }
      if exhausted {
        return Some(More);
      }
      if failed {
        return None;
      }
      if rootHash !in env.durable {
        return Some(Persistence);
      }
      AllStored(env, rootHash, lanes);
      Publish();
      ReleaseCursor();
      return Some(Complete);
    }

    /** The mark of a root that is completely in the durable store. */
    method Publish()
      requires Valid() && Closed(rootHash, env.durable) && IsFan(rootHash)
      modifies `marks
      ensures Valid() && marks == old(marks) + {rootHash}
    {
      hide LanesOk, Exact, Steady, HistoryOk, Sees, MarksOk, Seated, Admitted, Charge, Stored, Closed;
      MarkClosed(marks, rootHash, env.durable);
      marks := marks + {rootHash};
    }

    /** ScanMissingNodesContext on a backed map: one slice of the search. Unless the map is
        invalid, Complete means that every node the root refers to is in the durable
        store, in a record that decodes, whatever came before. A map marked invalid is
        called complete without a look. A slice goes on with the pass under way, if there
        is one, and otherwise begins a pass. The nodes returned are what the filter
        accepts of what the lanes found absent in this slice. A slice that ends its pass
        leaves in `found` exactly the absent nodes below each branch whose ancestors are
        all available, if the sources did not move during the pass, and then asks to wait
        exactly if there are any. */
    method Scan(state: MapState, filter: Hash -> bool, maxNodes: int, probe: bool)
      returns (status: Option<Status>, nodes: seq<MissingNode>, ghost slice: Slice, ghost cut: bool)
      requires Valid()
      modifies `env, `past, `charged, `open, `binding, `proofCount, `nextLane, `passActive, `rootDurable, `lanes,
        `found, `base, `marks, `passStart
      ensures Valid() && old(env.durable) <= env.durable && old(past) <= past
      ensures state != Invalid && status == Some(Complete) ==> Closed(rootHash, env.durable)
      ensures status == Some(Waiting) || status == Some(Persistence) ==> slice.over
      ensures state == Invalid ==> status == (if cut then None else Some(Complete)) && !slice.walked
      ensures |nodes| <= RESULT_LIMIT && (0 < maxNodes ==> |nodes| <= maxNodes)
      ensures |slice.parts| == 16 && nodes == Kept(filter, InOrder(slice.parts, slice.first, 16))
      ensures slice.walked ==> IsFan(rootHash) && slice.Extends(old(found), found) && slice.begins == !old(UnderWay())
      ensures slice.walked ==> passStart == if slice.begins then |old(past)| else old(passStart)
      ensures slice.walked && !slice.over ==> open && (old(KeepsBase()) <==> UnderWay())
      ensures slice.walked && !slice.over ==> base == if old(KeepsBase()) then old(base) else None
      ensures !slice.walked && !cut && state != Invalid ==>
        status == Some(Complete) || (budgeted && status == Some(Memory))
      ensures !slice.walked ==> nodes == [] && !slice.over && env == old(env)
      ensures !slice.walked && open ==>
        old(open) && UnderWay() == old(UnderWay()) && found == old(found) && passStart == old(passStart)
      ensures slice.over ==> !UnderWay()
      ensures slice.over && Steady(past, passStart) ==>
                |found| == 16 && IsFan(rootHash) && forall b :: 0 <= b < 16 ==> found[b] == Owed(env, rootHash, b)
      ensures slice.over && Steady(past, passStart) ==>
        (status == Some(Waiting) <==> exists b :: 0 <= b < 16 && found[b] != [])
    {
      hide LanesOk, Exact, Steady, HistoryOk, Sees, MarksOk, Seated, Admitted, Charge, Stored, Closed, InOrder, Owed,
           Kept, NothingFound, TotalProofs, Idle;
      var max: nat := if maxNodes <= 0 || maxNodes > RESULT_LIMIT then RESULT_LIMIT else maxNodes;
      slice := Slice(false, false, false, NothingFound(16), NothingFound(16), 0);
      NothingKept(filter);
      var cancelled: bool := *;
      cut := cancelled;
      if cancelled {
        return None, [], slice, true;
      }
      if state == Invalid {
        return Some(Complete), [], slice, false;
      }
      var early := Prepare();
      if early.Some? {
        return early, [], slice, false;
      }
      status, nodes, slice := WalkOn(filter, max, probe, !old(UnderWay()));
    }

    /** The part of scanBackedContext behind its early exits. */
    method WalkOn(filter: Hash -> bool, max: nat, probe: bool, ghost begins: bool)
      returns (status: Option<Status>, nodes: seq<MissingNode>, ghost slice: Slice)
      requires Valid() && Current() && passActive && 0 < max
      modifies `env, `past, `charged, `open, `proofCount, `nextLane, `passActive, `lanes, `found, `base, `marks
      ensures Valid() && old(env.durable) <= env.durable && old(past) <= past && |nodes| <= max
      ensures status == Some(Complete) ==> Closed(rootHash, env.durable)
      ensures status == Some(Waiting) || status == Some(Persistence) ==> slice.over
      ensures slice.walked && slice.begins == begins && |slice.parts| == |slice.was| == |found| == 16
        && slice.was == old(found)
      ensures nodes == Kept(filter, InOrder(slice.parts, slice.first, 16))
      ensures forall b :: 0 <= b < 16 ==> found[b] == slice.was[b] + slice.parts[b]
      ensures if slice.over then !passActive else passActive && open && base == old(base)
      ensures slice.over && Steady(past, passStart) ==>
                IsFan(rootHash) && forall b :: 0 <= b < 16 ==> found[b] == Owed(env, rootHash, b)
      ensures slice.over && Steady(past, passStart) ==>
        (status == Some(Waiting) <==> exists b :: 0 <= b < 16 && found[b] != [])
    {
      hide LanesOk, Exact, Steady, HistoryOk, Sees, MarksOk, Seated, Admitted, Charge, Stored, Closed, InOrder, Owed,
           Kept, NothingFound, TotalProofs, Idle;
      ghost var was, first := found, nextLane;
      var outcome, blocked, released;
      ghost var parts;
      outcome, blocked, released, nodes, parts := Sweep(filter, max, probe);
      slice := Slice(true, false, begins, was, parts, first);
      if !outcome.Go? {
        status := if outcome.Fail? then None else Some(More);
        return;
      }
      if blocked {
        status := if released then Some(More) else Some(Memory);
        return;
      }
      EndPass();
      slice := slice.(over := true);
      status := Conclude();
    }

    /** One lane's share of publishAcknowledgedScanHints. */
    method AcknowledgeLane(i: nat)
      requires Valid() && Current() && Persisted(env) && i < 16
      modifies `lanes, `marks
      ensures Valid() && Current() && lanes == old(lanes)[i := Acknowledged(old(lanes)[i])]
    {
      hide LanesOk, Exact, Steady, HistoryOk, Sees, MarksOk, Seated, Admitted, Charge, Stored, Closed, Persisted,
           EnvOk, LaneProofs, TotalProofs, Idle;
      HistoryNow(past, rootHash);
      var l := Acknowledged(lanes[i]);
      assert lanes[i].hint.None? ==> lanes[i := l] == lanes;
      if lanes[i].hint.None? {
        return;
      }
      AcknowledgedParts(sizes, env, rootHash, lanes, i);
      if passActive && Steady(past, passStart) {
        AcknowledgedExact(env, rootHash, lanes, found, i);
      }
      MarksAdd(marks, lanes[i].hint.value, env.durable);
      marks := marks + {lanes[i].hint.value};
      lanes := lanes[i := l];
    }

    /** publishAcknowledgedScanHints. */
    method PublishHints() returns (complete: bool)
      requires Valid() && Persisted(env)
      modifies `lanes, `marks
      ensures Valid() && (complete ==> Closed(rootHash, env.durable))
    {
      hide LanesOk, Exact, Steady, HistoryOk, Sees, MarksOk, Seated, Admitted, Charge, Stored, Closed, Persisted;
      if !(open && binding.generation == generation && binding.root == rootHash) {
        return false;
      }
      for i := 0 to 16
        invariant Valid() && Current()
      {
        AcknowledgeLane(i);
      }
      complete := true;
      for i := 0 to 16
        invariant complete ==> forall j :: 0 <= j < i ==> lanes[j].complete && lanes[j].durable
      {
        if !lanes[i].complete || !lanes[i].durable {
          complete := false;
        }
      }
      if !complete || !rootDurable {
        return false;
      }
      AllStored(env, rootHash, lanes);
      Publish();
    }

    /** The tree is clean now, its root included. */
    method MarkRootDurable()
      requires Valid() && Persisted(env)
      modifies `rootDirty, `rootDurable
      ensures Valid() && !rootDirty && (open ==> rootDurable)
    {
      hide LanesOk, Exact, Steady, HistoryOk, Sees, MarksOk, Seated, Admitted, Charge, Stored, Closed, Persisted,
           EnvOk, TotalProofs, Idle;
      HistoryNow(past, rootHash);
      RootPersisted(env, rootHash);
      rootDirty := false;
      if open {
        rootDurable := true;
      }
    }

    /** acknowledgePersistedContext, called once an ordering barrier has confirmed that
        every node handed to the store is there. */
    method Acknowledge() returns (ok: bool, complete: bool)
      requires Valid() && Persisted(env)
      modifies `rootDirty, `rootDurable, `lanes, `marks, `charged, `open, `base
      ensures Valid() && (ok ==> !rootDirty) && (complete ==> Closed(rootHash, env.durable) && !open && charged == 0)
      ensures !complete ==> open == old(open) && base == old(base)
      ensures !ok ==> !complete && rootDirty == old(rootDirty)
    {
      hide LanesOk, Exact, Steady, HistoryOk, Sees, MarksOk, Seated, Admitted, Charge, Stored, Closed, Persisted, EnvOk;
      var cancelled: bool := *;
      if cancelled {
        return false, false;
      }
      MarkRootDurable();
      ok := true;
      complete := IsComplete();
      if complete {
        ReleaseCursor();
      }
    }

    /** Whether the acknowledged map is complete: by its cursor, or by its mark. */
    method IsComplete() returns (complete: bool)
      requires Valid() && Persisted(env)
      modifies `lanes, `marks
      ensures Valid() && (complete ==> Closed(rootHash, env.durable))
    {
      hide LanesOk, Exact, Steady, HistoryOk, Sees, MarksOk, Seated, Admitted, Charge, Stored, Closed, Persisted, EnvOk;
      complete := PublishHints();
      if !complete && !open {
        complete := rootHash in marks;
        if complete {
          MarkIsClosed(marks, rootHash, env.durable);
        }
      }
    }

    /** SetVerifiedBaseContext. The caller vouches that the base is completely in the
        durable store. */
    method SetVerifiedBase(h: Hash) returns (ok: bool)
      requires Valid() && (IsFan(h) ==> Stored(h, env.durable))
      modifies `charged, `open, `lanes, `base
      ensures Valid() && ok == IsFan(h) && (ok ==> base == Some(h) && !open)
    {
      hide LanesOk, Exact, Steady, HistoryOk, Sees, MarksOk, Seated, Admitted, Charge, Stored, Closed, Persisted;
      ok := IsFan(h);
      if ok {
        OneMark(h, env.durable);
        ReleaseCursor();
        base := Some(h);
      }
    }

    /** A destructive change of the store: everything learned in the old generation is
        void. No base may be in use. */
    method BeginMutation(env': Env)
      requires Valid() && base.None? && EnvOk(env', rootHash)
      modifies `env, `nodes, `past, `passStart, `marks, `generation
      ensures Valid() && env == env' && nodes == env'.attached && generation == old(generation) + 1 && marks == {}
    {
      hide LanesOk, Exact, Steady, Seated, Charge, EnvOk, Sees;
      SeesItself(env', rootHash);
      env, nodes, past, passStart, marks, generation := env', env'.attached, [env'], 0, {}, generation + 1;
    }

    /** Without a cursor nothing depends on what could be loaded before: the map may let go
        of any nodes. */
    method Forget(env': Env)
      requires Valid() && !open && EnvOk(env', rootHash) && env.durable <= env'.durable
      modifies `env, `nodes, `past, `passStart
      ensures Valid() && env == env' && nodes == env'.attached
    {
      hide LanesOk, Exact, Steady, Seated, Charge, EnvOk, MarksOk, Sees, TotalProofs, Idle;
      MarksLater(marks, env.durable, env'.durable);
      if base.Some? {
        MarksLater({base.value}, env.durable, env'.durable);
      }
      SeesItself(env', rootHash);
      env, nodes, past, passStart := env', env'.attached, [env'], 0;
    }

    /** The tree gets another root, for instance because the first root node arrived. */
    method ReplaceRoot(root: Hash, env': Env, dirty: bool)
      requires Valid() && EnvOk(env', root) && env.durable <= env'.durable && (open ==> binding.root != root)
      modifies `env, `nodes, `past, `passStart, `rootHash, `rootDirty
      ensures Valid() && env == env' && nodes == env'.attached && rootHash == root && rootDirty == dirty
    {
      hide LanesOk, Exact, Steady, Seated, Charge, EnvOk, MarksOk, Sees, TotalProofs, Idle, HistoryOk;
      SeesItself(env', root);
      NewHistory(env', root);
      MarksLater(marks, env.durable, env'.durable);
      if base.Some? {
        MarksLater({base.value}, env.durable, env'.durable);
      }
      env, nodes, past, passStart, rootHash, rootDirty := env', env'.attached, [env'], 0, root, dirty;
    }
  }

  /** A lane after its hint was published: its subtree is now known to be durable. */
  function Acknowledged(l: Lane): Lane {
    if l.hint.Some? then l.(hint := None, durable := true) else l
  }

  lemma {:induction false} AcknowledgedOk(env: Env, root: Hash, l: Lane)
    requires LaneOk(env, root, l) && EnvOk(env, root) && Persisted(env) && l.hint.Some?
    ensures LaneOk(env, root, Acknowledged(l)) && Stored(l.hint.value, env.durable)
  {
    PresentIsClosed(env, root, l.root.path);
  }

  lemma {:induction false} AcknowledgedParts(z: ByteSizes, env: Env, root: Hash, lanes: seq<Lane>, i: nat)
    requires LanesOk(env, root, lanes) && Seated(lanes, 0) && i < |lanes|
    requires EnvOk(env, root) && Persisted(env) && lanes[i].hint.Some?
    ensures var next := lanes[i := Acknowledged(lanes[i])];
      && LanesOk(env, root, next) && Seated(next, 0) && TotalProofs(next) == TotalProofs(lanes)
      && (Idle(lanes) ==> Idle(next))
      && Charge(z, next, TotalProofs(lanes)) == Charge(z, lanes, TotalProofs(lanes))
    ensures Stored(lanes[i].hint.value, env.durable)
  {
    var l := Acknowledged(lanes[i]);
    LaneAt(env, root, lanes, i);
    SeatedAt(lanes, 0, i);
    AcknowledgedOk(env, root, lanes[i]);
    hide LaneOk, EnvOk, Persisted, LanesOk, Seated, Stored;
    LanesUpdate(env, root, lanes, i, l);
    SeatedUpdate(lanes, 0, i, l);
    TotalUpdate(lanes, i, l);
  }

  lemma {:induction false} AcknowledgedExact(env: Env, root: Hash, lanes: seq<Lane>, found: seq<seq<MissingNode>>,
                                             i: nat)
    requires LanesOk(env, root, lanes) && Exact(env, lanes, found) && i < |lanes|
    ensures Exact(env, lanes[i := Acknowledged(lanes[i])], found)
  {
    LaneAt(env, root, lanes, i);
    ExactAt(env, lanes, found, i);
    ExactLength(env, lanes, found);
    ExactWith(env, lanes, found, i, Acknowledged(lanes[i]), found[i]);
    assert found[i := found[i]] == found;
  }

  lemma {:induction false} RootPersisted(env: Env, root: Hash)
    requires EnvOk(env, root) && Persisted(env)
    ensures root.Zero? || root in env.durable
  {
    assert HashAt(root, []) == root;
  }

  /** What one slice did: whether it walked, ended its pass and began it, what the lanes had found
      before, what they found in it, and the lane it began with. */
  datatype Slice = Slice(walked: bool, over: bool, begins: bool, was: seq<seq<MissingNode>>,
    parts: seq<seq<MissingNode>>, first: nat) {
    /** The lanes' findings are those before the slice, or none if a pass began, and
        those of the slice. */
    ghost predicate Extends(before: seq<seq<MissingNode>>, found: seq<seq<MissingNode>>) {
      && |parts| == |was| == |found| == 16
      && was == (if begins then NothingFound(16) else before)
      && forall b :: 0 <= b < 16 ==> found[b] == was[b] + parts[b]
    }
  }

  lemma {:induction false} NothingInOrder(n: nat)
    ensures InOrder(NothingFound(16), 0, n) == []
  {
    if n > 0 {
      NothingInOrder(n - 1);
    }
  }

  lemma {:induction false} NothingKept(filter: Hash -> bool)
    ensures Kept(filter, InOrder(NothingFound(16), 0, 16)) == []
  {
    hide NothingFound, InOrder;
    NothingInOrder(16);
  }

  /** All branches of the root complete and durable, and the root durable. */
  lemma {:induction false} AllStored(env: Env, root: Hash, lanes: seq<Lane>)
    requires LanesOk(env, root, lanes) && Seated(lanes, 0) && |lanes| == 16 && IsFan(root) && root in env.durable
    requires forall i :: 0 <= i < 16 ==> lanes[i].complete && lanes[i].durable
    ensures Closed(root, env.durable)
  {
    forall i | 0 <= i < 16
      ensures Closed(root.pre.kids[i], env.durable)
    {
      LaneAt(env, root, lanes, i);
      SeatedAt(lanes, 0, i);
      assert lanes[i].root.path == [] + [i];
      HashAtChild(root, [], i);
    }
  }

  /** The absent nodes below one branch of the root. */
  ghost function Owed(env: Env, root: Hash, b: nat): seq<MissingNode>
    requires IsFan(root) && b < 16
  {
    if root.pre.kids[b].Zero? then [] else Absent(env, root.pre.kids[b], root, [b])
  }

  /** The lane has nothing left to do in this pass. */
  predicate Done(l: Lane) {
    l.complete || (l.started && l.stack == [] && l.incomplete)
  }

  /** A lane that is done has found what it owes. */
  lemma {:induction false} DoneIsOwed(env: Env, root: Hash, lanes: seq<Lane>, found: seq<seq<MissingNode>>, b: nat)
    requires LanesOk(env, root, lanes) && Seated(lanes, 0) && Exact(env, lanes, found) && |lanes| == |found| == 16
    requires b < 16 && Done(lanes[b]) && IsFan(root)
    ensures found[b] == Owed(env, root, b) && (lanes[b].complete <==> found[b] == [])
  {
    var l := lanes[b];
    LaneAt(env, root, lanes, b);
    SeatedAt(lanes, 0, b);
    ExactAt(env, lanes, found, b);
    assert l.root.path == [] + [b];
    HashAtChild(root, [], b);
    assert LaneRest(env, l) == [];
    if l.complete && !l.root.hash.Zero? {
      PresentIsNoneAbsent(env, l.root.hash, l.root.parentHash, l.root.path);
    }
  }

  lemma {:induction false} RootShape(env: Env, root: Hash)
    requires EnvOk(env, root)
    ensures [] in env.attached && |env.attached[[]].branches| == 16 && (root.Zero? || IsFan(root))
    ensures (forall i :: 0 <= i < 16 ==> !env.attached[[]].branches[i]) ==> root.Zero?
    ensures root.Zero? ==> forall i :: 0 <= i < 16 ==> !env.attached[[]].branches[i]
  {
    assert HashAt(root, []) == root;
  }

  lemma {:induction false} EmptyClosed(h: Hash, s: set<Hash>)
    requires h.Zero?
    ensures Closed(h, s)
  {
  }

  lemma {:induction false} MarkIsClosed(marks: set<Hash>, h: Hash, s: set<Hash>)
    requires MarksOk(marks, s) && h in marks
    ensures Closed(h, s)
  {
  }

  lemma {:induction false} MarksJoin(a: set<Hash>, b: set<Hash>, s: set<Hash>)
    requires MarksOk(a, s) && MarksOk(b, s)
    ensures MarksOk(a + b, s)
  {
  }

  lemma {:induction false} DoneIsIdle(env: Env, root: Hash, lanes: seq<Lane>)
    requires LanesOk(env, root, lanes) && forall b :: 0 <= b < |lanes| ==> Done(lanes[b])
    ensures Idle(lanes)
  {
    forall b | 0 <= b < |lanes|
      ensures lanes[b].stack == []
    {
      LaneAt(env, root, lanes, b);
    }
  }

  /** The lane visited at turn o of a sweep that starts at `start`. */
  function LaneNo(start: nat, o: nat): (i: nat)
    ensures i < 16
  {
    (start + o) % 16
  }

  lemma {:induction false} DistinctLanes(start: nat, o: nat, p: nat)
    requires o < p < 16
    ensures LaneNo(start, o) != LaneNo(start, p)
  {
  }

  ghost predicate DoneUpTo(lanes: seq<Lane>, start: nat, n: nat) {
    |lanes| == 16 && forall o :: 0 <= o < n ==> Done(lanes[LaneNo(start, o)])
  }

  lemma {:induction false} DoneNone(lanes: seq<Lane>, start: nat)
    requires |lanes| == 16
    ensures DoneUpTo(lanes, start, 0)
  {
  }

  lemma {:induction false} DoneOne(lanes: seq<Lane>, lanes': seq<Lane>, start: nat, n: nat)
    requires DoneUpTo(lanes, start, n) && n < 16 && |lanes'| == 16
    requires lanes' == lanes[LaneNo(start, n) := lanes'[LaneNo(start, n)]] && Done(lanes'[LaneNo(start, n)])
    ensures DoneUpTo(lanes', start, n + 1)
  {
    forall o | 0 <= o < n
      ensures lanes'[LaneNo(start, o)] == lanes[LaneNo(start, o)]
    {
      DistinctLanes(start, o, n);
    }
  }

  lemma {:induction false} DoneAll(lanes: seq<Lane>, start: nat)
    requires DoneUpTo(lanes, start, 16) && start < 16
    ensures forall b :: 0 <= b < 16 ==> Done(lanes[b])
  {
    forall b | 0 <= b < 16
      ensures Done(lanes[b])
    {
      assert LaneNo(start, if b >= start then b - start else b + 16 - start) == b;
    }
  }

  /** The lists of n lanes from `start` on, one after the other. */
  ghost function InOrder(parts: seq<seq<MissingNode>>, start: nat, n: nat): seq<MissingNode>
    requires |parts| == 16
  {
    if n == 0 then [] else InOrder(parts, start, n - 1) + parts[LaneNo(start, n - 1)]
  }

  /** A sweep after n lanes: each lane's findings, and the list made of them. */
  ghost predicate Sweeping(filter: Hash -> bool, parts: seq<seq<MissingNode>>, start: nat, n: nat,
                           missing: seq<MissingNode>,
                           was: seq<seq<MissingNode>>, found: seq<seq<MissingNode>>)
  {
    && |parts| == |was| == |found| == 16
    && (forall b :: 0 <= b < 16 ==> found[b] == was[b] + parts[b])
    && (forall o :: n <= o < 16 ==> parts[LaneNo(start, o)] == [])
    && missing == Kept(filter, InOrder(parts, start, n))
  }

  lemma {:induction false} SweepingStart(filter: Hash -> bool, parts: seq<seq<MissingNode>>, start: nat,
                                         found: seq<seq<MissingNode>>)
    requires |found| == |parts| == 16 && forall b :: 0 <= b < 16 ==> parts[b] == []
    ensures Sweeping(filter, parts, start, 0, [], found, found)
  {
  }

  lemma {:induction false} OrderSame(parts: seq<seq<MissingNode>>, parts': seq<seq<MissingNode>>, start: nat, n: nat)
    requires |parts| == |parts'| == 16
    requires forall o :: 0 <= o < n ==> parts[LaneNo(start, o)] == parts'[LaneNo(start, o)]
    ensures InOrder(parts, start, n) == InOrder(parts', start, n)
  {
    if n > 0 {
      OrderSame(parts, parts', start, n - 1);
    }
  }

  lemma {:induction false} SweepingStep(filter: Hash -> bool, parts: seq<seq<MissingNode>>, start: nat, n: nat,
                                        missing: seq<MissingNode>,
                                        was: seq<seq<MissingNode>>, found: seq<seq<MissingNode>>,
                                          items: seq<MissingNode>)
    requires Sweeping(filter, parts, start, n, missing, was, found) && n < 16
    ensures |parts| == |found| == 16
    ensures var i := LaneNo(start, n);
      Sweeping(filter, parts[i := items], start, n + 1, missing + Kept(filter, items), was,
        found[i := found[i] + items])
  {
    var i := LaneNo(start, n);
    forall o | 0 <= o < 16 && o != n
      ensures LaneNo(start, o) != i
    {
      if o < n {
        DistinctLanes(start, o, n);
      } else {
        DistinctLanes(start, n, o);
      }
    }
    assert parts[i] == [] && found[i] == was[i];
    OrderSame(parts, parts[i := items], start, n);
    KeptAppend(filter, InOrder(parts, start, n), items);
  }

  lemma {:induction false} OrderRest(parts: seq<seq<MissingNode>>, start: nat, n: nat)
    requires |parts| == 16 && n <= 16
    requires forall o :: n <= o < 16 ==> parts[LaneNo(start, o)] == []
    ensures InOrder(parts, start, 16) == InOrder(parts, start, n)
    decreases 16 - n
  {
    if n < 16 {
      OrderRest(parts, start, n + 1);
      assert InOrder(parts, start, n + 1) == InOrder(parts, start, n) + parts[LaneNo(start, n)];
    }
  }

  lemma {:induction false} SweepingEnd(filter: Hash -> bool, parts: seq<seq<MissingNode>>, start: nat, n: nat,
                                       missing: seq<MissingNode>,
                                       was: seq<seq<MissingNode>>, found: seq<seq<MissingNode>>)
    requires Sweeping(filter, parts, start, n, missing, was, found) && n <= 16
    ensures |parts| == |found| == |was| == 16
    ensures forall b :: 0 <= b < 16 ==> found[b] == was[b] + parts[b]
    ensures missing == Kept(filter, InOrder(parts, start, 16))
  {
    OrderRest(parts, start, n);
  }

  lemma {:induction false} StartParts(z: ByteSizes, env: Env, root: Hash, lanes: seq<Lane>, i: nat)
    requires LanesOk(env, root, lanes) && Seated(lanes, 0) && i < |lanes| && !lanes[i].complete && !lanes[i].started
    ensures lanes[i].stack == []
    ensures LanesOk(env, root, lanes[i := Start(lanes[i])]) && Seated(lanes[i := Start(lanes[i])], 0)
    ensures TotalProofs(lanes[i := Start(lanes[i])]) == TotalProofs(lanes)
    ensures Charge(z, lanes[i := Start(lanes[i])], TotalProofs(lanes))
            == Charge(z, lanes, TotalProofs(lanes)) + Bytes(z.frame, STACK_CAPACITY)
  {
    var l := Start(lanes[i]);
    LaneAt(env, root, lanes, i);
    SeatedAt(lanes, 0, i);
    StartOk(env, root, lanes[i]);
    hide LaneOk, LanesOk, Seated, Bytes, LaneProofs;
    LanesUpdate(env, root, lanes, i, l);
    SeatedUpdate(lanes, 0, i, l);
    StartProofs(lanes[i]);
    TotalUpdate(lanes, i, l);
    BytesSplit(z.frame, TotalCapacity(lanes), STACK_CAPACITY);
  }

  lemma {:induction false} StartExact(env: Env, root: Hash, lanes: seq<Lane>, found: seq<seq<MissingNode>>, i: nat)
    requires LanesOk(env, root, lanes) && Exact(env, lanes, found) && i < |lanes| && !lanes[i].complete
      && !lanes[i].started
    ensures Exact(env, lanes[i := Start(lanes[i])], found)
  {
    LaneAt(env, root, lanes, i);
    ExactAt(env, lanes, found, i);
    StartRest(env, lanes[i]);
    ExactLength(env, lanes, found);
    ExactWith(env, lanes, found, i, Start(lanes[i]), found[i]);
    assert found[i := found[i]] == found;
  }

  ghost function NothingFound(n: nat): (r: seq<seq<MissingNode>>)
    ensures |r| == n && forall i :: 0 <= i < n ==> r[i] == []
  {
    seq(n, i => [])
  }

  /** The lane newBackedScanCursor makes for a branch. */
  function NewLane(root: Hash, branches: seq<bool>, base: Option<Hash>, b: nat): Lane
    requires IsFan(root) && |branches| == 16 && b < 16
  {
    if !branches[b] then
      Lane(Item(Zero, Zero, root, [b]), None, [], 0, true, false, false, true, None)
    else
      var baseHash := if base.Some? && DecodedView(base.value).branches[b] then DecodedView(base.value).hashes[b]
        else Zero;
      Lane(Item(root.pre.kids[b], baseHash, root, [b]), None, [], 0, false, false, false, true, None)
  }

  function NewLanes(root: Hash, branches: seq<bool>, base: Option<Hash>, n: nat): (r: seq<Lane>)
    requires IsFan(root) && |branches| == 16 && n <= 16
    ensures |r| == n
  {
    if n == 0 then [] else NewLanes(root, branches, base, n - 1) + [NewLane(root, branches, base, n - 1)]
  }

  lemma {:induction false} RootAttached(env: Env, root: Hash)
    requires EnvOk(env, root) && IsFan(root)
    ensures [] in env.attached && |env.attached[[]].branches| == 16 && env.attached[[]].hash == root
    ensures forall i :: 0 <= i < 16 && !env.attached[[]].branches[i] ==> root.pre.kids[i] == Zero
  {
    assert HashAt(root, []) == root;
  }

  lemma {:induction false} NewLaneOk(env: Env, root: Hash, base: Option<Hash>, b: nat)
    requires EnvOk(env, root) && IsFan(root) && b < 16 && (base.Some? ==> MarksOk({base.value}, env.durable))
    requires [] in env.attached && |env.attached[[]].branches| == 16
    ensures LaneOk(env, root, NewLane(root, env.attached[[]].branches, base, b))
  {
    RootAttached(env, root);
    assert HashAt(root, []) == root;
    HashAtChild(root, [], b);
    assert [] + [b] == [b];
    if base.Some? && DecodedView(base.value).branches[b] {
      BaseViewOk(base.value, env.durable, b);
    }
  }

  lemma {:induction false} NewLanesOk(env: Env, root: Hash, base: Option<Hash>, n: nat)
    requires EnvOk(env, root) && IsFan(root) && n <= 16 && (base.Some? ==> MarksOk({base.value}, env.durable))
    requires [] in env.attached && |env.attached[[]].branches| == 16
    ensures LanesOk(env, root, NewLanes(root, env.attached[[]].branches, base, n))
  {
    if n > 0 {
      NewLanesOk(env, root, base, n - 1);
      NewLaneOk(env, root, base, n - 1);
      hide EnvOk, LaneOk;
      LanesAppend(env, root, NewLanes(root, env.attached[[]].branches, base, n - 1),
        NewLane(root, env.attached[[]].branches, base, n - 1));
    }
  }

  lemma {:induction false} LanesAppend(env: Env, root: Hash, lanes: seq<Lane>, l: Lane)
    requires LanesOk(env, root, lanes) && LaneOk(env, root, l)
    ensures LanesOk(env, root, lanes + [l])
    decreases |lanes|
  {
    if lanes == [] {
      assert (lanes + [l])[1..] == [];
    } else {
      assert (lanes + [l])[1..] == lanes[1..] + [l];
      LanesAppend(env, root, lanes[1..], l);
    }
  }

  /** A lane that holds nothing. */
  ghost predicate Bare(l: Lane) {
    l.proof.None? && l.stack == [] && l.capacity == 0
  }

  lemma {:induction false} BareLanes(lanes: seq<Lane>, b: nat)
    requires forall i :: 0 <= i < |lanes| ==>
      Bare(lanes[i]) && |lanes[i].root.path| == 1 && lanes[i].root.path[0] == b + i
    ensures Seated(lanes, b) && TotalProofs(lanes) == 0 && TotalCapacity(lanes) == 0
    decreases |lanes|
  {
    if lanes != [] {
      BareLanes(lanes[1..], b + 1);
    }
  }

  lemma {:induction false} NewLanesAt(root: Hash, branches: seq<bool>, base: Option<Hash>, n: nat, i: nat)
    requires IsFan(root) && |branches| == 16 && i < n <= 16
    ensures NewLanes(root, branches, base, n)[i] == NewLane(root, branches, base, i)
    decreases n
  {
    if i < n - 1 {
      NewLanesAt(root, branches, base, n - 1, i);
    }
  }

  lemma {:induction false} NewLanesCharge(z: ByteSizes, root: Hash, branches: seq<bool>, base: Option<Hash>)
    requires IsFan(root) && |branches| == 16
    ensures var newLanes := NewLanes(root, branches, base, 16);
      Seated(newLanes, 0) && TotalProofs(newLanes) == 0 && Charge(z, newLanes, 0) == z.cursor
  {
    var newLanes := NewLanes(root, branches, base, 16);
    forall i | 0 <= i < 16
      ensures Bare(newLanes[i]) && |newLanes[i].root.path| == 1 && newLanes[i].root.path[0] == i
    {
      NewLanesAt(root, branches, base, 16, i);
    }
    BareLanes(newLanes, 0);
  }

  lemma {:induction false} ChargeFirst(z: ByteSizes, lanes: seq<Lane>)
    requires lanes != []
    ensures Charge(z, lanes, TotalProofs(lanes)) == Charge(z, lanes[1..], TotalProofs(lanes[1..]))
              + Bytes(z.frame, lanes[0].capacity) + Bytes(z.proof, LaneProofs(lanes[0]))
  {
    BytesSplit(z.frame, TotalCapacity(lanes[1..]), lanes[0].capacity);
    BytesSplit(z.proof, TotalProofs(lanes[1..]), LaneProofs(lanes[0]));
  }

  lemma {:induction false} ChargeNone(z: ByteSizes, lanes: seq<Lane>)
    requires lanes == []
    ensures Charge(z, lanes, TotalProofs(lanes)) == z.cursor
  {
  }

  /** The first n lanes restarted. */
  function Restarted(lanes: seq<Lane>, n: nat): (r: seq<Lane>)
    requires n <= |lanes|
    ensures |r| == n && forall i :: 0 <= i < n ==> r[i] == Restart(lanes[i])
  {
    seq(n, i requires 0 <= i < n => Restart(lanes[i]))
  }

  lemma {:induction false} RestartedRest(lanes: seq<Lane>)
    requires lanes != []
    ensures Restarted(lanes, |lanes|)[0] == Restart(lanes[0])
    ensures Restarted(lanes, |lanes|)[1..] == Restarted(lanes[1..], |lanes[1..]|)
  {
  }

  lemma {:induction false} RestartedOk(env: Env, root: Hash, lanes: seq<Lane>)
    requires LanesOk(env, root, lanes) && Idle(lanes)
    ensures LanesOk(env, root, Restarted(lanes, |lanes|)) && Idle(Restarted(lanes, |lanes|))
    decreases |lanes|
  {
    if lanes != [] {
      RestartOk(env, root, lanes[0]);
      RestartedOk(env, root, lanes[1..]);
      RestartedRest(lanes);
    }
  }

  lemma {:induction false} RestartedSeats(lanes: seq<Lane>, b: nat)
    requires Seated(lanes, b) && Idle(lanes)
    ensures Seated(Restarted(lanes, |lanes|), b)
    ensures TotalProofs(Restarted(lanes, |lanes|)) == TotalProofs(lanes)
    ensures TotalCapacity(Restarted(lanes, |lanes|)) == TotalCapacity(lanes)
    decreases |lanes|
  {
    if lanes != [] {
      RestartedSeats(lanes[1..], b + 1);
      RestartedRest(lanes);
    }
  }

  lemma {:induction false} RestartedCharge(z: ByteSizes, lanes: seq<Lane>)
    requires Seated(lanes, 0) && Idle(lanes)
    ensures Seated(Restarted(lanes, |lanes|), 0)
    ensures TotalProofs(Restarted(lanes, |lanes|)) == TotalProofs(lanes)
    ensures Charge(z, Restarted(lanes, |lanes|), TotalProofs(lanes)) == Charge(z, lanes, TotalProofs(lanes))
  {
    RestartedSeats(lanes, 0);
  }

  /** At the start of a pass nothing is found and everything owed is left; a lane that
      completed earlier owes nothing. */
  lemma {:induction false} RestartExact(env: Env, root: Hash, l: Lane)
    requires LaneOk(env, root, l) && l.stack == []
    ensures LaneExact(env, Restart(l), [])
  {
    if l.complete && !l.root.hash.Zero? {
      PresentIsNoneAbsent(env, l.root.hash, l.root.parentHash, l.root.path);
    }
  }

  lemma {:induction false} RestartedExact(env: Env, root: Hash, lanes: seq<Lane>)
    requires LanesOk(env, root, lanes) && Idle(lanes)
    ensures Exact(env, Restarted(lanes, |lanes|), NothingFound(|lanes|))
    decreases |lanes|
  {
    if lanes != [] {
      RestartExact(env, root, lanes[0]);
      RestartedExact(env, root, lanes[1..]);
      RestartedRest(lanes);
      assert NothingFound(|lanes|)[1..] == NothingFound(|lanes[1..]|);
    }
  }

  lemma {:induction false} SettleParts(env: Env, root: Hash, lanes: seq<Lane>, i: nat)
    requires LanesOk(env, root, lanes) && Seated(lanes, 0) && i < |lanes|
    requires lanes[i].stack == [] && lanes[i].started && !lanes[i].complete
    ensures LanesOk(env, root, lanes[i := Settle(lanes[i])]) && Seated(lanes[i := Settle(lanes[i])], 0)
    ensures LaneProofs(Settle(lanes[i])) == LaneProofs(lanes[i])
  {
    LaneAt(env, root, lanes, i);
    SeatedAt(lanes, 0, i);
    SettleOk(env, root, lanes[i]);
    LanesUpdate(env, root, lanes, i, Settle(lanes[i]));
    SeatedUpdate(lanes, 0, i, Settle(lanes[i]));
  }

  lemma {:induction false} SettleExact(env: Env, lanes: seq<Lane>, found: seq<seq<MissingNode>>, i: nat)
    requires Exact(env, lanes, found) && i < |lanes|
    requires lanes[i].stack == [] && lanes[i].started && !lanes[i].complete
    ensures Exact(env, lanes[i := Settle(lanes[i])], found)
  {
    ExactAt(env, lanes, found, i);
    ExactLength(env, lanes, found);
    ExactWith(env, lanes, found, i, Settle(lanes[i]), found[i]);
    assert found[i := found[i]] == found;
  }

  lemma {:induction false} ShapedTop(l: Lane)
    requires AllShaped(l.stack) && l.stack != []
    ensures Shaped(Top(l))
  {
  }

  lemma {:induction false} MarkAlone(marks: set<Hash>, h: Hash, s: set<Hash>)
    requires MarksOk(marks, s) && h in marks
    ensures MarksOk({h}, s)
  {
  }

  /** A frame whose base hash is its own hash stands for a stored subtree. */
  lemma {:induction false} BaseMark(env: Env, root: Hash, lanes: seq<Lane>, i: nat)
    requires LanesOk(env, root, lanes) && i < |lanes| && lanes[i].stack != []
    requires Top(lanes[i]).item.baseHash != Zero && Top(lanes[i]).item.baseHash == Top(lanes[i]).item.hash
    ensures MarksOk({Top(lanes[i]).item.hash}, env.durable)
  {
    LaneAt(env, root, lanes, i);
    assert FrameOk(env, root, Top(lanes[i]), false);
  }

  lemma {:induction false} MarksAdd(marks: set<Hash>, h: Hash, s: set<Hash>)
    requires MarksOk(marks, s) && Stored(h, s)
    ensures MarksOk(marks + {h}, s)
  {
  }

  lemma {:induction false} LinkedParts(l: Lane)
    requires |l.stack| > 1 ==> Linked(l.stack[|l.stack| - 2], Top(l))
    ensures |l.stack| > 1 ==>
      var p := l.stack[|l.stack| - 2];
      1 <= p.next <= 16 && |p.complete| == 16 && (p.proof.Some? ==> |p.proof.value.children| == 16)
  {
  }

  lemma {:induction false} ShapedAt(env: Env, root: Hash, lanes: seq<Lane>, i: nat)
    requires LanesOk(env, root, lanes) && i < |lanes|
    ensures AllShaped(lanes[i].stack)
  {
    LaneAt(env, root, lanes, i);
  }

  lemma {:induction false} RetainParts(env: Env, root: Hash, lanes: seq<Lane>, i: nat, j: nat)
    requires LanesOk(env, root, lanes) && Seated(lanes, 0) && i < |lanes| && lanes[i].stack != []
    requires j < |lanes[i].stack| - 1 && lanes[i].stack[j].proof.None?
    requires j > 0 ==> lanes[i].stack[j - 1].proof.Some?
    ensures LanesOk(env, root, lanes[i := Retain(lanes[i], j)]) && Seated(lanes[i := Retain(lanes[i], j)], 0)
    ensures AllShaped(lanes[i].stack) && AllShaped(Retain(lanes[i], j).stack)
    ensures StackRest(env, Retain(lanes[i], j).stack) == StackRest(env, lanes[i].stack)
    ensures StackWork(Retain(lanes[i], j).stack) == StackWork(lanes[i].stack)
  {
    LaneWalks(env, root, lanes, i);
    RetainTurn(env, root, lanes[i], j);
    hide LanesOk, StackRest, StackWork, AllShaped, LaneProofs, Walking, LaneOk;
    WalkingParts(env, root, Retain(lanes[i], j));
    LanesUpdate(env, root, lanes, i, Retain(lanes[i], j));
    SeatedUpdate(lanes, 0, i, Retain(lanes[i], j));
  }

  lemma {:induction false} WalkingParts(env: Env, root: Hash, l: Lane)
    requires Walking(env, root, l)
    ensures LaneOk(env, root, l) && Admitted(l)
  {
  }

  lemma {:induction false} RetainCharge(z: ByteSizes, lanes: seq<Lane>, i: nat, j: nat)
    requires i < |lanes| && j < |lanes[i].stack| && lanes[i].stack[j].proof.None?
    ensures TotalProofs(lanes[i := Retain(lanes[i], j)]) == TotalProofs(lanes) + 1
    ensures Charge(z, lanes[i := Retain(lanes[i], j)], TotalProofs(lanes) + 1)
      == Charge(z, lanes, TotalProofs(lanes)) + z.proof
  {
    RetainProofs(lanes[i], j);
    TotalUpdate(lanes, i, Retain(lanes[i], j));
  }

  lemma {:induction false} ExactLength(env: Env, lanes: seq<Lane>, found: seq<seq<MissingNode>>)
    requires Exact(env, lanes, found)
    ensures |lanes| == |found|
  {
  }

  lemma {:induction false} RetainExact(env: Env, lanes: seq<Lane>, found: seq<seq<MissingNode>>, i: nat, l: Lane)
    requires Exact(env, lanes, found) && i < |lanes| && lanes[i].started && !lanes[i].complete
    requires l.started && !l.complete && l.root == lanes[i].root && AllShaped(lanes[i].stack) && AllShaped(l.stack)
    requires StackRest(env, l.stack) == StackRest(env, lanes[i].stack) && l.incomplete == lanes[i].incomplete
    ensures Exact(env, lanes[i := l], found)
  {
    hide Exact, Steady, StackRest, AllShaped;
    assert StackRest(env, lanes[i].stack) == [] + StackRest(env, l.stack);
    ExactUpdate(env, lanes, found, i, l, []);
    ExactLength(env, lanes, found);
    assert found[i] + [] == found[i];
    assert found[i := found[i] + []] == found;
  }

  /** New records, and staged records that become durable, are moves the scanner allows
      for. */
  lemma {:induction false} ArrivalIsLater(env: Env, root: Hash, durable: set<Hash>, staged: set<Hash>)
    requires EnvOk(env, root) && env.durable <= durable && env.staged <= durable + staged
    ensures Later(env, env.(durable := durable, staged := staged), root)
  {
    var env' := env.(durable := durable, staged := staged);
    forall p: seq<Nibble> | ViewAt(env, p, HashAt(root, p)).Some?
      ensures ViewAt(env', p, HashAt(root, p)).Some?
      ensures forall b: nat :: Shown(ViewAt(env', p, HashAt(root, p)).value, b) ==>
        Shown(ViewAt(env, p, HashAt(root, p)).value, b)
    {
      ViewShows(env, root, p, HashAt(root, p));
    }
  }

  /** Letting go of attached nodes, once those with a record are durable, is a move the
      scanner allows for if and only if all of them have a record. An inner node without
      branches has none; a peer can have one attached where a hash is zero. */
  lemma {:induction false} ReleaseIsLater(env: Env, root: Hash, kept: set<seq<Nibble>>)
    requires EnvOk(env, root) && [] in kept
    requires forall p :: p in env.attached && p !in kept ==>
      env.attached[p].hash.Zero? || env.attached[p].hash in env.durable
    ensures Later(env, env.(attached := Only(env.attached, kept)), root) <==>
      forall p :: p in env.attached && p !in kept ==> !env.attached[p].hash.Zero?
  {
    hide HashAt;
    var env' := env.(attached := Only(env.attached, kept));
    if forall p :: p in env.attached && p !in kept ==> !env.attached[p].hash.Zero? {
      forall p: seq<Nibble> | ViewAt(env, p, HashAt(root, p)).Some?
        ensures ViewAt(env', p, HashAt(root, p)) == ViewAt(env, p, HashAt(root, p))
      {
      }
    } else {
      var p :| p in env.attached && p !in kept && env.attached[p].hash.Zero?;
      assert ViewAt(env, p, HashAt(root, p)).Some? && ViewAt(env', p, HashAt(root, p)).None?;
    }
  }

  function Only(attached: map<seq<Nibble>, Attached>, kept: set<seq<Nibble>>): map<seq<Nibble>, Attached> {
    map p | p in attached && p in kept :: attached[p]
  }
}
