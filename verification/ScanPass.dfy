/** What the slices of one pass report together. However a pass is sliced, and wherever
    each slice starts among the lanes, the nodes returned are those the filter accepts of
    what the lanes found, each once. */
module ScanPass {
  import opened KeyPath
  import opened Trie
  import opened Hashing
  import opened ScanModel
  import opened ScanSound
  import opened ScanExact
  import opened Scanner

  /** The filter applied lane by lane. */
  ghost function KeptLanes(filter: Hash -> bool, parts: seq<seq<MissingNode>>): (r: seq<seq<MissingNode>>)
    ensures |r| == |parts| && forall b :: 0 <= b < |parts| ==> r[b] == Kept(filter, parts[b])
  {
    seq(|parts|, b requires 0 <= b < |parts| => Kept(filter, parts[b]))
  }

  lemma {:induction false} KeptInOrder(filter: Hash -> bool, parts: seq<seq<MissingNode>>, start: nat, n: nat)
    requires |parts| == 16
    ensures Kept(filter, InOrder(parts, start, n)) == InOrder(KeptLanes(filter, parts), start, n)
  {
    if n > 0 {
      KeptInOrder(filter, parts, start, n - 1);
      KeptAppend(filter, InOrder(parts, start, n - 1), parts[LaneNo(start, n - 1)]);
    }
  }

  /** Everything the lanes hold, in no order. */
  ghost function Bag(parts: seq<seq<MissingNode>>): multiset<MissingNode>
    requires |parts| == 16
  {
    multiset(InOrder(parts, 0, 16))
  }

  lemma {:induction false} FirstLane(parts: seq<seq<MissingNode>>, start: nat, n: nat)
    requires |parts| == 16
    ensures InOrder(parts, start, n + 1) == parts[LaneNo(start, 0)] + InOrder(parts, start + 1, n)
    decreases n
  {
    if n > 0 {
      FirstLane(parts, start, n - 1);
      assert LaneNo(start, n) == LaneNo(start + 1, n - 1);
      var a, b, c := parts[LaneNo(start, 0)], InOrder(parts, start + 1, n - 1), parts[LaneNo(start, n)];
      assert (a + b) + c == a + (b + c);
    } else {
      assert InOrder(parts, start, 1) == InOrder(parts, start, 0) + parts[LaneNo(start, 0)];
    }
  }

  /** The starting lane does not matter for what is reported. */
  lemma {:induction false} AnyStart(parts: seq<seq<MissingNode>>, start: nat)
    requires |parts| == 16
    ensures multiset(InOrder(parts, start, 16)) == Bag(parts)
    decreases start
  {
    if start > 0 {
      AnyStart(parts, start - 1);
      FirstLane(parts, start - 1, 16);
      assert LaneNo(start - 1, 16) == LaneNo(start - 1, 0);
      Turned(InOrder(parts, start - 1, 16), parts[LaneNo(start - 1, 0)], InOrder(parts, start, 16));
    }
  }

  lemma {:induction false} Turned(a: seq<MissingNode>, x: seq<MissingNode>, b: seq<MissingNode>)
    requires a + x == x + b
    ensures multiset(a) == multiset(b)
  {
    assert multiset(a + x) == multiset(a) + multiset(x);
    assert multiset(x + b) == multiset(x) + multiset(b);
    assert multiset(a) + multiset(x) - multiset(x) == multiset(a);
    assert multiset(b) + multiset(x) - multiset(x) == multiset(b);
  }

  /** Lanes that each hold two lists one after the other. */
  lemma {:induction false} BagJoins(was: seq<seq<MissingNode>>, parts: seq<seq<MissingNode>>,
                                    both: seq<seq<MissingNode>>, n: nat)
    requires |was| == |parts| == |both| == 16 && n <= 16
    requires forall b :: 0 <= b < 16 ==> both[b] == was[b] + parts[b]
    ensures multiset(InOrder(both, 0, n)) == multiset(InOrder(was, 0, n)) + multiset(InOrder(parts, 0, n))
  {
    if n > 0 {
      BagJoins(was, parts, both, n - 1);
      assert both[LaneNo(0, n - 1)] == was[LaneNo(0, n - 1)] + parts[LaneNo(0, n - 1)];
    }
  }

  /** Slices of one pass: the first begins with nothing found, each goes on where the one
      before stopped, and the last leaves `found`. */
  ghost predicate OnePass(slices: seq<Slice>, found: seq<seq<MissingNode>>)
    decreases |slices|
  {
    && slices != []
    && var last := slices[|slices| - 1];
       && |last.was| == |last.parts| == |found| == 16
       && (forall b :: 0 <= b < 16 ==> found[b] == last.was[b] + last.parts[b])
       && (if |slices| == 1 then last.was == NothingFound(16) else OnePass(slices[..|slices| - 1], last.was))
  }

  /** What the slices return, one after the other. */
  ghost function Returned(filter: Hash -> bool, slices: seq<Slice>): seq<MissingNode>
    requires forall i :: 0 <= i < |slices| ==> |slices[i].parts| == 16
    decreases |slices|
  {
    if slices == [] then []
    else
      var last := slices[|slices| - 1];
      Returned(filter, slices[..|slices| - 1]) + Kept(filter, InOrder(last.parts, last.first, 16))
  }

  lemma {:induction false} NothingInBag()
    ensures Bag(NothingFound(16)) == multiset{}
  {
    NothingInOrder(16);
  }

  lemma {:induction false} KeptJoins(filter: Hash -> bool, was: seq<seq<MissingNode>>, parts: seq<seq<MissingNode>>,
                                     both: seq<seq<MissingNode>>)
    requires |was| == |parts| == |both| == 16 && forall b :: 0 <= b < 16 ==> both[b] == was[b] + parts[b]
    ensures Bag(KeptLanes(filter, both)) == Bag(KeptLanes(filter, was)) + Bag(KeptLanes(filter, parts))
  {
    forall b | 0 <= b < 16
      ensures KeptLanes(filter, both)[b] == KeptLanes(filter, was)[b] + KeptLanes(filter, parts)[b]
    {
      KeptAppend(filter, was[b], parts[b]);
    }
    BagJoins(KeptLanes(filter, was), KeptLanes(filter, parts), KeptLanes(filter, both), 16);
  }

  lemma {:induction false} SliceReports(filter: Hash -> bool, s: Slice)
    requires |s.parts| == 16
    ensures multiset(Kept(filter, InOrder(s.parts, s.first, 16))) == Bag(KeptLanes(filter, s.parts))
  {
    KeptInOrder(filter, s.parts, s.first, 16);
    AnyStart(KeptLanes(filter, s.parts), s.first);
  }

  /** All slices of a pass together return exactly what the filter accepts of what the
      lanes found in the pass. */
  lemma {:induction false} PassReports(filter: Hash -> bool, slices: seq<Slice>, found: seq<seq<MissingNode>>)
    requires OnePass(slices, found) && forall i :: 0 <= i < |slices| ==> |slices[i].parts| == 16
    ensures |found| == 16 && multiset(Returned(filter, slices)) == Bag(KeptLanes(filter, found))
    decreases |slices|
  {
    hide Bag, InOrder, Kept;
    var last := slices[|slices| - 1];
    var before := slices[..|slices| - 1];
    KeptJoins(filter, last.was, last.parts, found);
    SliceReports(filter, last);
    if |slices| == 1 {
      assert before == [];
      KeptNothing(filter);
    } else {
      PassReports(filter, before, last.was);
    }
  }

  lemma {:induction false} KeptNothing(filter: Hash -> bool)
    ensures Bag(KeptLanes(filter, NothingFound(16))) == multiset{}
  {
    assert KeptLanes(filter, NothingFound(16)) == NothingFound(16);
    NothingInBag();
  }

  /** What a whole pass over unmoving sources must find: below each branch the absent nodes
      all of whose ancestors are available. */
  ghost function AllOwed(env: Env, root: Hash): (r: seq<seq<MissingNode>>)
    requires IsFan(root)
    ensures |r| == 16 && forall b :: 0 <= b < 16 ==> r[b] == Owed(env, root, b)
  {
    seq(16, b requires 0 <= b < 16 => Owed(env, root, b))
  }

  /** Exactness of a pass: over sources that did not move, its slices together return the
      absent nodes with available ancestors that the filter accepts, each once. */
  lemma {:induction false} PassIsExact(env: Env, root: Hash, filter: Hash -> bool, slices: seq<Slice>,
                                       found: seq<seq<MissingNode>>)
    requires IsFan(root) && OnePass(slices, found) && forall i :: 0 <= i < |slices| ==> |slices[i].parts| == 16
    requires forall b :: 0 <= b < 16 ==> found[b] == Owed(env, root, b)
    ensures multiset(Returned(filter, slices)) == Bag(KeptLanes(filter, AllOwed(env, root)))
  {
    PassReports(filter, slices, found);
    assert found == AllOwed(env, root);
  }

  /** A position owed below a branch, and what is reported of it. */
  lemma {:induction false} OwedIsFrontier(env: Env, root: Hash, b: Nibble, m: MissingNode)
    requires IsFan(root)
    ensures m in Owed(env, root, b) <==> !root.pre.kids[b].Zero? && Frontier(env, root.pre.kids[b], root, [b], m)
    ensures m in Owed(env, root, b) ==> [b] <= m.path && m.depth == |m.path| && m.branch == BranchOf(m.path)
    ensures m in Owed(env, root, b) ==>
      m.hash == HashAt(root, m.path) && m.parentHash == HashAt(root, m.path[..|m.path| - 1])
    ensures m in Owed(env, root, b) ==> ViewAt(env, m.path, m.hash).None?
    ensures Distinct(Owed(env, root, b))
  {
    AbsentIsFrontier(env, root.pre.kids[b], root, [b], m);
    AbsentOnce(env, root.pre.kids[b], root, [b]);
    assert HashAt(root, []) == root && [] + [b] == [b];
    HashAtChild(root, [], b);
    if m in Owed(env, root, b) {
      AbsentFields(env, root, [b], root, m);
      assert m.path == [b] ==> m.path[..|m.path| - 1] == [];
    }
  }

  // --------------------------------------------------------------- whole passes

  ghost predicate Sixteen(slices: seq<Slice>) {
    forall i :: 0 <= i < |slices| ==> |slices[i].parts| == 16
  }

  /** One more slice of the pass. */
  lemma {:induction false} PassGrows(filter: Hash -> bool, slices: seq<Slice>, s: Slice, was: seq<seq<MissingNode>>,
                                     found: seq<seq<MissingNode>>)
    requires Sixteen(slices) && s.Extends(was, found) && s.begins == (slices == [])
    requires slices != [] ==> OnePass(slices, was)
    ensures Sixteen(slices + [s]) && OnePass(slices + [s], found)
    ensures Returned(filter, slices + [s]) == Returned(filter, slices) + Kept(filter, InOrder(s.parts, s.first, 16))
  {
    assert (slices + [s])[..|slices + [s]| - 1] == slices;
  }

  /** What callers do between two slices: nothing, let time pass, or acknowledge what has
      been persisted. Either the pass is still under way, as it was, or the cursor is
      gone. */
  method Between(a: Acquisition)
    requires a.Valid() && a.UnderWay()
    modifies a
    ensures a.Valid() && a.found == old(a.found) && a.rootHash == old(a.rootHash)
    ensures a.UnderWay() || !a.open
  {
    hide Acquisition.Valid, Persisted;
    var wait: bool, barrier: bool := *, *;
    if wait {
      a.Drift();
    }
    if barrier && Persisted(a.env) {
      var ok, complete := a.Acknowledge();
    }
  }

  /** A whole pass, sliced as the limits given say, with moves of the sources and
      acknowledgements in between. If the pass comes to its end and the sources have not
      changed in it, what the slices returned together is exactly what the filter accepts
      of the absent nodes whose ancestors are all available, each once. */
  method RunPass(a: Acquisition, state: MapState, filter: Hash -> bool, limits: seq<int>)
    returns (status: Option<Status>, nodes: seq<MissingNode>, ghost over: bool)
    requires a.Valid() && !a.UnderWay()
    modifies a
    ensures a.Valid() && a.rootHash == old(a.rootHash)
    ensures status == Some(Waiting) || status == Some(Persistence) ==> over
    ensures over && Steady(a.past, a.passStart) ==>
      IsFan(a.rootHash) && multiset(nodes) == Bag(KeptLanes(filter, AllOwed(a.env, a.rootHash)))
  {
    hide Bag, InOrder, Kept, OnePass, Steady, Owed;
    status, nodes, over := None, [], false;
    ghost var slices: seq<Slice> := [];
    var i, going := 0, true;
    while going && i < |limits|
      invariant a.Valid() && a.rootHash == old(a.rootHash)
      invariant Sixteen(slices) && nodes == Returned(filter, slices)
      invariant slices != [] && (going || over) ==> OnePass(slices, a.found)
      invariant going ==> !over && (a.UnderWay() <==> slices != [])
      invariant over ==> slices != []
      invariant status == Some(Waiting) || status == Some(Persistence) ==> over
      invariant over && Steady(a.past, a.passStart) ==>
        |a.found| == 16 && IsFan(a.rootHash) && forall b :: 0 <= b < 16 ==> a.found[b] == Owed(a.env, a.rootHash, b)
      decreases |limits| - i
    {
      ghost var was := a.found;
      var more;
      ghost var slice, cut;
      status, more, slice, cut := a.Scan(state, filter, limits[i], false);
      if slice.walked {
        PassGrows(filter, slices, slice, was, a.found);
        slices := slices + [slice];
      } else {
        assert nodes + more == nodes;
      }
      nodes, over := nodes + more, slice.over;
      going := a.UnderWay();
      if going {
        Between(a);
        going := a.open;
      }
      i := i + 1;
    }
    if over && Steady(a.past, a.passStart) {
      PassIsExact(a.env, a.rootHash, filter, slices, a.found);
    }
  }

  /** A root is attached, and its only child is nowhere. */
  lemma {:induction false} RootAlone(leaf: Hash)
    requires leaf.Digest?
    ensures var root := Digest(InnerPre(NO_HASHES[0 := leaf]));
      var env := Env({}, {}, map[[] := Attached(root, NO_BITS[0 := true])]);
      EnvOk(env, root) && IsFan(root) && !Closed(root, env.durable) && ViewAt(env, [0], leaf).None?
        && HashAt(root, [0]) == leaf
  {
    var root := Digest(InnerPre(NO_HASHES[0 := leaf]));
    var env := Env({}, {}, map[[] := Attached(root, NO_BITS[0 := true])]);
    assert env.attached[[]].branches[0] && HashAt(root, []) == root;
    HashAtChild(root, [], 0);
    assert [] + [0] == [0];
  }

  /** A map marked invalid is reported complete although its root, and all below it, is
      absent from the store. */
  method InvalidLooksComplete(leaf: Hash) returns (a: Acquisition, status: Option<Status>, ghost cut: bool)
    requires leaf.Digest?
    ensures fresh(a) && a.Valid() && IsFan(a.rootHash) && !Closed(a.rootHash, a.env.durable)
    ensures ViewAt(a.env, [0], leaf).None? && HashAt(a.rootHash, [0]) == leaf
    ensures !cut ==> status == Some(Complete)
  {
    var root := Digest(InnerPre(NO_HASHES[0 := leaf]));
    var env := Env({}, {}, map[[] := Attached(root, NO_BITS[0 := true])]);
    RootAlone(leaf);
    hide EnvOk, Closed, HashAt, ViewAt, Acquisition.Valid;
    a := new Acquisition(env, root, false, 0, ByteSizes(0, 0, 0));
    var nodes;
    ghost var slice;
    status, nodes, slice, cut := a.Scan(Invalid, h => true, 1, false);
  }

  /** Two slices in a row: what the first leaves unfinished, the second goes on with if and
      only if no base was lost with a stale cursor; otherwise it begins again with
      nothing. */
  method TwoSlices(a: Acquisition, state: MapState, filter: Hash -> bool, maxNodes: int, probe: bool)
    returns (ghost first: Slice, ghost second: Slice)
    requires a.Valid()
    modifies a
    ensures a.Valid() && a.rootHash == old(a.rootHash)
    ensures first.walked && !first.over && second.walked ==>
      && (second.begins <==> !old(a.KeepsBase()))
      && (second.begins ==> second.was == NothingFound(16))
  {
    hide Acquisition.Valid, InOrder, Owed, Kept, Steady, NothingFound, Closed;
    var status, nodes;
    ghost var cut;
    status, nodes, first, cut := a.Scan(state, filter, maxNodes, probe);
    status, nodes, second, cut := a.Scan(state, filter, maxNodes, probe);
  }

  /** A pass is lost, for any base and any two roots: a cursor made for the old root gives
      way to one for the new root and takes the base along, so the new cursor is not the
      one the next slice wants. Whatever its pass has found is thrown away with it. */
  method LosesPass(base: Hash, env: Env, root: Hash, next: map<seq<Nibble>, Attached>, root': Hash)
    returns (a: Acquisition, ghost first: Slice, ghost second: Slice, ghost third: Slice)
    requires IsFan(base) && Stored(base, env.durable) && root != root'
    requires EnvOk(env, root) && EnvOk(Env({}, {}, next), root')
    ensures fresh(a) && a.Valid()
    ensures first.walked && !first.over && second.walked && !second.over && third.walked ==>
      third.begins && third.was == NothingFound(16)
  {
    hide EnvOk, Closed, HashAt, ViewAt, Stored, Acquisition.Valid, InOrder, Owed, Kept, Steady, NothingFound;
    a := new Acquisition(env, root, false, 0, ByteSizes(0, 0, 0));
    var ok := a.SetVerifiedBase(base);
    var status, nodes;
    ghost var cut;
    status, nodes, first, cut := a.Scan(Syncing, h => true, 1, false);
    second, third := first, first;
    if !a.UnderWay() {
      return;
    }
    AnyStores(next, root', a.env.durable);
    a.ReplaceRoot(root', Env(a.env.durable, {}, next), true);
    second, third := TwoSlices(a, Syncing, h => true, 1, false);
  }

  lemma {:induction false} AnyStores(attached: map<seq<Nibble>, Attached>, root: Hash, durable: set<Hash>)
    requires EnvOk(Env({}, {}, attached), root)
    ensures EnvOk(Env(durable, {}, attached), root)
  {
  }
}
