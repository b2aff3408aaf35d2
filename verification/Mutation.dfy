/** Put and Delete of shamap/mutation.go as functions on trees: insertion with its
    split chain, removal with its consolidation, and whole histories of both. */
module Mutation {
  import opened KeyPath
  import opened Trie

  /** The chain of inner nodes that separates two leaves sharing a position. */
  function Split(k: Key, v: Data, k2: Key, v2: Data, d: nat): Tree
    requires d < 64
    decreases 64 - d
  {
    if k[d] == k2[d] && d < 63 then Inner(NO_KIDS[k[d] := Split(k, v, k2, v2, d + 1)])
    else Inner(NO_KIDS[k[d] := Leaf(k, v)][k2[d] := Leaf(k2, v2)])
  }

  function Insert(t: Tree, k: Key, v: Data, d: nat): Tree
    decreases t
  {
    match t
    case Empty => Leaf(k, v)
    case Leaf(k2, v2) =>
      if k == k2 || d >= 64 then Leaf(k, v) else Split(k, v, k2, v2, d)
    case Inner(kids) =>
      if d < 64 && |kids| == 16 then Inner(kids[k[d] := Insert(kids[k[d]], k, v, d + 1)]) else t
  }

  /** Branch i is the only one set. */
  predicate Lone(kids: seq<Tree>, i: int) {
    && 0 <= i < |kids| && kids[i] != Empty
    && forall j :: 0 <= j < |kids| && j != i ==> kids[j] == Empty
  }

  ghost predicate HasLone(kids: seq<Tree>) {
    exists i :: Lone(kids, i)
  }

  ghost function LoneIndex(kids: seq<Tree>): (i: nat)
    requires HasLone(kids)
    ensures Lone(kids, i)
  {
    var i :| Lone(kids, i);
    i
  }

  predicate AllEmpty(kids: seq<Tree>) {
    forall j :: 0 <= j < |kids| ==> kids[j] == Empty
  }

  /** onlyBelow: follow single branches down to a leaf, if they lead to one. */
  ghost function OnlyBelow(t: Tree): (r: Option<Tree>)
    ensures r.Some? ==> r.value.Leaf?
    decreases t
  {
    match t
    case Empty => None
    case Leaf(_, _) => Some(t)
    case Inner(kids) =>
      if HasLone(kids) then OnlyBelow(kids[LoneIndex(kids)]) else None
  }

  /** What becomes of a non-root inner node once one of its branches changed. */
  ghost function Collapse(kids: seq<Tree>): Tree {
    if AllEmpty(kids) then Empty
    else
      match OnlyBelow(Inner(kids))
      case Some(leaf) => leaf
      case None => Inner(kids)
  }

  /** The root is always retained. */
  ghost function Consolidated(kids: seq<Tree>, d: nat): Tree {
    if d == 0 then Inner(kids) else Collapse(kids)
  }

  ghost function Remove(t: Tree, k: Key, d: nat): Tree
    decreases t
  {
    match t
    case Empty => Empty
    case Leaf(k2, _) => if k == k2 then Empty else t
    case Inner(kids) =>
      if d < 64 && |kids| == 16 then
        Consolidated(kids[k[d] := Remove(kids[k[d]], k, d + 1)], d)
      else t
  }

  // --------------------------------------------------------------- membership

  /** Changing the kid on a key's branch changes the keys of the node by exactly
      the change of that kid. */
  lemma {:induction false} KeysOfUpdate(kids: seq<Tree>, i: Nibble, kid: Tree, x: Key)
    requires |kids| == 16
    ensures x in Keys(Inner(kids[i := kid])) <==>
              x in Keys(kid) || exists j :: 0 <= j < 16 && j != i && x in Keys(kids[j])
  {
    var upd := kids[i := kid];
    if x in Keys(kid) {
      assert x in Keys(upd[i]);
    }
    if j :| 0 <= j < 16 && j != i && x in Keys(kids[j]) {
      assert x in Keys(upd[j]);
    }
    if x in Keys(Inner(upd)) {
      var j :| 0 <= j < 16 && x in Keys(upd[j]);
      assert j != i ==> x in Keys(kids[j]);
    }
  }

  // ------------------------------------------------------------------- insert

  lemma {:induction false} NoKids(path: seq<Nibble>)
    requires |path| < 64
    ensures forall i :: 0 <= i < 16 ==> Canonical(NO_KIDS[i], path + [i]) && Keys(NO_KIDS[i]) == {}
  {
  }

  lemma {:induction false} DistinctKeysPart(k: Key, k2: Key, path: seq<Nibble>)
    requires path <= k && path <= k2 && k != k2
    ensures |path| < 64 && (|path| == 63 ==> k[63] != k2[63])
  {
    assert k == path + k[|path|..] && k2 == path + k2[|path|..];
  }

  lemma {:induction false} SplitIsCanonical(k: Key, v: Data, k2: Key, v2: Data, path: seq<Nibble>)
    requires k != k2 && path <= k && path <= k2 && |path| < 64
    ensures Canonical(Split(k, v, k2, v2, |path|), path)
    ensures k in Keys(Split(k, v, k2, v2, |path|)) && k2 in Keys(Split(k, v, k2, v2, |path|))
    decreases 64 - |path|
  {
    var d := |path|;
    NoKids(path);
    assert path + [k[d]] <= k && path + [k2[d]] <= k2;
    if k[d] == k2[d] {
      DistinctKeysPart(k, k2, path);
      var sub := Split(k, v, k2, v2, d + 1);
      SplitIsCanonical(k, v, k2, v2, path + [k[d]]);
      KeysOfUpdate(NO_KIDS, k[d], sub, k);
      KeysOfUpdate(NO_KIDS, k[d], sub, k2);
    } else {
      var kids := NO_KIDS[k[d] := Leaf(k, v)];
      KeysOfUpdate(kids, k2[d], Leaf(k2, v2), k2);
      KeysOfUpdate(kids, k2[d], Leaf(k2, v2), k);
      assert k in Keys(kids[k[d]]);
    }
  }

  lemma {:induction false} SplitLookup(k: Key, v: Data, k2: Key, v2: Data, path: seq<Nibble>, x: Key)
    requires k != k2 && path <= k && path <= k2 && |path| < 64
    ensures path <= x ==>
      Lookup(Split(k, v, k2, v2, |path|), x, |path|) == if x == k then Some(v) else if x == k2 then Some(v2) else None
    decreases 64 - |path|
  {
    var d := |path|;
    if k[d] == k2[d] {
      DistinctKeysPart(k, k2, path);
      SplitLookup(k, v, k2, v2, path + [k[d]], x);
      if path <= x && x[d] == k[d] {
        assert path + [k[d]] <= x;
      }
    }
  }

  lemma {:induction false} InsertKeepsKeys(t: Tree, k: Key, v: Data, path: seq<Nibble>, x: Key)
    requires Canonical(t, path) && path <= k
    requires x == k || x in Keys(t)
    ensures x in Keys(Insert(t, k, v, |path|))
    decreases t
  {
    var d := |path|;
    match t
    case Empty =>
    case Leaf(k2, v2) =>
      if k != k2 {
        DistinctKeysPart(k, k2, path);
        SplitIsCanonical(k, v, k2, v2, path);
      }
    case Inner(kids) =>
      var i := k[d];
      assert path + [i] <= k;
      KeysOfUpdate(kids, i, Insert(kids[i], k, v, d + 1), x);
      if x == k || x in Keys(kids[i]) {
        InsertKeepsKeys(kids[i], k, v, path + [i], x);
      }
  }

  /** Put keeps the canonical shape. */
  lemma {:induction false} InsertIsCanonical(t: Tree, k: Key, v: Data, path: seq<Nibble>)
    requires Canonical(t, path) && path <= k
    ensures Canonical(Insert(t, k, v, |path|), path)
    decreases t
  {
    var d := |path|;
    match t
    case Empty =>
    case Leaf(k2, v2) =>
      if k != k2 {
        DistinctKeysPart(k, k2, path);
        SplitIsCanonical(k, v, k2, v2, path);
      }
    case Inner(kids) =>
      var i := k[d];
      assert path + [i] <= k;
      InsertIsCanonical(kids[i], k, v, path + [i]);
      if path != [] {
        var a, b :| a in Keys(t) && b in Keys(t) && a != b;
        InsertKeepsKeys(t, k, v, path, a);
        InsertKeepsKeys(t, k, v, path, b);
      }
  }

  /** Put is map update: the key now reads back the data, every other key reads as
      before. */
  lemma {:induction false} InsertLookup(t: Tree, k: Key, v: Data, path: seq<Nibble>, x: Key)
    requires Canonical(t, path) && path <= k && path <= x
    ensures Lookup(Insert(t, k, v, |path|), x, |path|) == if x == k then Some(v) else Lookup(t, x, |path|)
    decreases t
  {
    var d := |path|;
    match t
    case Empty =>
    case Leaf(k2, v2) =>
      if k != k2 {
        DistinctKeysPart(k, k2, path);
        SplitLookup(k, v, k2, v2, path, x);
      }
    case Inner(kids) =>
      if x[d] == k[d] {
        assert path + [k[d]] <= k && path + [k[d]] <= x;
        InsertLookup(kids[k[d]], k, v, path + [k[d]], x);
      }
  }

  // ------------------------------------------------------------------- remove

  lemma {:induction false} LoneKeys(kids: seq<Tree>, i: int, x: Key)
    requires Lone(kids, i)
    ensures x in Keys(Inner(kids)) <==> x in Keys(kids[i])
  {
  }

  lemma {:induction false} LoneUnique(kids: seq<Tree>, i: int, j: int)
    requires Lone(kids, i) && Lone(kids, j)
    ensures i == j
  {
  }

  lemma {:induction false} OnlyBelowOfLone(kids: seq<Tree>, i: int)
    requires Lone(kids, i)
    ensures OnlyBelow(Inner(kids)) == OnlyBelow(kids[i])
  {
    LoneUnique(kids, i, LoneIndex(kids));
  }

  /** A leaf found by following lone branches is the only leaf there is. */
  lemma {:induction false} OnlyBelowIsOnly(t: Tree)
    requires OnlyBelow(t).Some?
    ensures Keys(t) == {OnlyBelow(t).value.key}
    decreases t
  {
    if t.Inner? {
      var i :| Lone(t.kids, i);
      OnlyBelowOfLone(t.kids, i);
      OnlyBelowIsOnly(t.kids[i]);
      forall x: Key
        ensures x in Keys(t) <==> x in Keys(t.kids[i])
      {
        LoneKeys(t.kids, i, x);
      }
    }
  }

  lemma {:induction false} OnlyBelowLookup(t: Tree, path: seq<Nibble>, x: Key)
    requires Placed(t, path) && path <= x && OnlyBelow(t).Some?
    ensures Lookup(OnlyBelow(t).value, x, |path|) == Lookup(t, x, |path|)
    decreases t
  {
    if t.Inner? {
      var i :| Lone(t.kids, i);
      OnlyBelowOfLone(t.kids, i);
      OnlyBelowIsOnly(t.kids[i]);
      var k := OnlyBelow(t).value.key;
      KeysOnPath(t.kids[i], path + [i], k);
      assert (path + [i])[|path|] == i;
      if x[|path|] == i {
        assert path + [i] <= x;
        OnlyBelowLookup(t.kids[i], path + [i], x);
        OnlyBelowAnyDepth(t, x, |path|, |path| + 1);
      }
    }
  }

  lemma {:induction false} OnlyBelowAnyDepth(t: Tree, x: Key, d: nat, e: nat)
    requires OnlyBelow(t).Some?
    ensures Lookup(OnlyBelow(t).value, x, d) == Lookup(OnlyBelow(t).value, x, e)
  {
  }

  /** A canonical non-empty subtree holds a key. */
  lemma {:induction false} NonEmptyHasKey(t: Tree, path: seq<Nibble>)
    requires Canonical(t, path) && path != [] && t != Empty
    ensures exists k :: k in Keys(t)
  {
    if t.Leaf? {
      assert t.key in Keys(t);
    }
  }

  /** When no branch is alone, at least two are set. */
  lemma {:induction false} TwoSet(kids: seq<Tree>)
    requires !AllEmpty(kids) && forall i :: !Lone(kids, i)
    ensures exists i, j :: 0 <= i < j < |kids| && kids[i] != Empty && kids[j] != Empty
  {
    var i :| 0 <= i < |kids| && kids[i] != Empty;
    assert !Lone(kids, i);
    var j :| 0 <= j < |kids| && j != i && kids[j] != Empty;
    if j < i {
      assert 0 <= j < i < |kids|;
    }
  }

  /** Branches two canonical kids deep: a fan that consolidation leaves standing
      carries two keys. */
  lemma {:induction false} StandingFanHasTwo(kids: seq<Tree>, path: seq<Nibble>)
    requires |path| < 64 && |kids| == 16
    requires forall i :: 0 <= i < 16 ==> Canonical(kids[i], path + [i])
    requires !AllEmpty(kids) && OnlyBelow(Inner(kids)) == None
    ensures TwoKeys(Inner(kids))
  {
    if i :| Lone(kids, i) {
      OnlyBelowOfLone(kids, i);
      assert Canonical(kids[i], path + [i]);
      assert kids[i].Inner?;
      var a, b :| a in Keys(kids[i]) && b in Keys(kids[i]) && a != b;
      LoneKeys(kids, i, a);
      LoneKeys(kids, i, b);
    } else {
      TwoSet(kids);
      var i, j :| 0 <= i < j < 16 && kids[i] != Empty && kids[j] != Empty;
      NonEmptyHasKey(kids[i], path + [i]);
      NonEmptyHasKey(kids[j], path + [j]);
      var a :| a in Keys(kids[i]);
      var b :| b in Keys(kids[j]);
      TwoBranchesTwoKeys(kids, path, i, j, a, b);
    }
  }

  lemma {:induction false} TwoBranchesTwoKeys(kids: seq<Tree>, path: seq<Nibble>, i: Nibble, j: Nibble, a: Key, b: Key)
    requires |path| < 64 && |kids| == 16 && i != j
    requires Canonical(kids[i], path + [i]) && Canonical(kids[j], path + [j])
    requires a in Keys(kids[i]) && b in Keys(kids[j])
    ensures a != b && a in Keys(Inner(kids)) && b in Keys(Inner(kids))
  {
    CanonicalPlaced(kids[i], path + [i]);
    CanonicalPlaced(kids[j], path + [j]);
    KeysOnPath(kids[i], path + [i], a);
    KeysOnPath(kids[j], path + [j], b);
    assert a[|path|] == (path + [i])[|path|] && b[|path|] == (path + [j])[|path|];
  }

  lemma {:induction false} CollapseIsCanonical(kids: seq<Tree>, path: seq<Nibble>)
    requires |path| < 64 && |kids| == 16
    requires forall i :: 0 <= i < 16 ==> Canonical(kids[i], path + [i])
    ensures Canonical(Collapse(kids), path)
  {
    if !AllEmpty(kids) {
      if OnlyBelow(Inner(kids)).Some? {
        OnlyBelowIsOnly(Inner(kids));
        var k := OnlyBelow(Inner(kids)).value.key;
        assert k in Keys(Inner(kids));
        var i :| 0 <= i < 16 && k in Keys(kids[i]);
        CanonicalPlaced(kids[i], path + [i]);
        KeysOnPath(kids[i], path + [i], k);
        assert path <= path + [i];
      } else {
        StandingFanHasTwo(kids, path);
      }
    }
  }

  lemma {:induction false} FanPlaced(kids: seq<Tree>, path: seq<Nibble>)
    requires |path| < 64 && |kids| == 16
    requires forall i :: 0 <= i < 16 ==> Canonical(kids[i], path + [i])
    ensures Placed(Inner(kids), path)
  {
    forall i | 0 <= i < 16
      ensures Placed(kids[i], path + [i])
    {
      CanonicalPlaced(kids[i], path + [i]);
    }
  }

  lemma {:induction false} CollapseLookup(kids: seq<Tree>, path: seq<Nibble>, x: Key)
    requires |path| < 64 && |kids| == 16 && path <= x
    requires forall i :: 0 <= i < 16 ==> Canonical(kids[i], path + [i])
    ensures Lookup(Collapse(kids), x, |path|) == Lookup(Inner(kids), x, |path|)
  {
    if !AllEmpty(kids) && OnlyBelow(Inner(kids)).Some? {
      FanPlaced(kids, path);
      OnlyBelowLookup(Inner(kids), path, x);
    }
  }

  /** Delete keeps the canonical shape. */
  lemma {:induction false} RemoveIsCanonical(t: Tree, k: Key, path: seq<Nibble>)
    requires Canonical(t, path) && path <= k
    ensures Canonical(Remove(t, k, |path|), path)
    decreases t
  {
    if t.Inner? {
      var i := k[|path|];
      assert path + [i] <= k;
      RemoveIsCanonical(t.kids[i], k, path + [i]);
      CollapseIsCanonical(t.kids[i := Remove(t.kids[i], k, |path| + 1)], path);
    }
  }

  /** Delete is map removal: the key reads as absent, every other key as before. */
  lemma {:induction false} RemoveLookup(t: Tree, k: Key, path: seq<Nibble>, x: Key)
    requires Canonical(t, path) && path <= k && path <= x
    ensures Lookup(Remove(t, k, |path|), x, |path|) == if x == k then None else Lookup(t, x, |path|)
    decreases t
  {
    if t.Inner? {
      var i := k[|path|];
      assert path + [i] <= k;
      RemoveIsCanonical(t.kids[i], k, path + [i]);
      CollapseLookup(t.kids[i := Remove(t.kids[i], k, |path| + 1)], path, x);
      if x[|path|] == i {
        assert path + [i] <= x;
        RemoveLookup(t.kids[i], k, path + [i], x);
      }
    }
  }

  // -------------------------------------------------------------- item sizes

  /** newLeafNode refuses items of less than twelve bytes. */
  ghost predicate Weighty(t: Tree)
    decreases t
  {
    match t
    case Empty => true
    case Leaf(_, v) => |v| >= 12
    case Inner(kids) => forall i :: 0 <= i < |kids| ==> Weighty(kids[i])
  }

  lemma {:induction false} SplitWeighty(k: Key, v: Data, k2: Key, v2: Data, d: nat)
    requires d < 64 && |v| >= 12 && |v2| >= 12
    ensures Weighty(Split(k, v, k2, v2, d))
    decreases 64 - d
  {
    if k[d] == k2[d] && d < 63 {
      SplitWeighty(k, v, k2, v2, d + 1);
    }
  }

  lemma {:induction false} InsertWeighty(t: Tree, k: Key, v: Data, d: nat)
    requires Weighty(t) && |v| >= 12
    ensures Weighty(Insert(t, k, v, d))
    decreases t
  {
    if t.Inner? && d < 64 && |t.kids| == 16 {
      InsertWeighty(t.kids[k[d]], k, v, d + 1);
    } else if t.Leaf? && d < 64 {
      SplitWeighty(k, v, t.key, t.data, d);
    }
  }

  lemma {:induction false} OnlyBelowWeighty(t: Tree)
    requires Weighty(t) && OnlyBelow(t).Some?
    ensures Weighty(OnlyBelow(t).value)
    decreases t
  {
    if t.Inner? {
      OnlyBelowWeighty(t.kids[LoneIndex(t.kids)]);
    }
  }

  lemma {:induction false} RemoveWeighty(t: Tree, k: Key, d: nat)
    requires Weighty(t)
    ensures Weighty(Remove(t, k, d))
    decreases t
  {
    if t.Inner? && d < 64 && |t.kids| == 16 {
      RemoveWeighty(t.kids[k[d]], k, d + 1);
      var fan := Inner(t.kids[k[d] := Remove(t.kids[k[d]], k, d + 1)]);
      assert Weighty(fan);
      if OnlyBelow(fan).Some? {
        OnlyBelowWeighty(fan);
      }
    }
  }

  // ------------------------------------------------------------ whole histories

  datatype Op = Put(key: Key, data: Data) | Delete(key: Key)

  /** One call on a state map; calls the source refuses leave the map alone. */
  ghost function Apply(t: Tree, op: Op): Tree {
    match op
    case Put(k, v) => if |v| < 12 then t else Insert(t, k, v, 0)
    case Delete(k) => if Lookup(t, k, 0).None? then t else Remove(t, k, 0)
  }

  ghost function ApplyAll(t: Tree, ops: seq<Op>): Tree {
    if ops == [] then t else Apply(ApplyAll(t, ops[..|ops| - 1]), ops[|ops| - 1])
  }

  ghost function MapAfter(m: map<Key, Data>, op: Op): map<Key, Data> {
    match op
    case Put(k, v) => if |v| < 12 then m else m[k := v]
    case Delete(k) => m - {k}
  }

  ghost function MapAfterAll(m: map<Key, Data>, ops: seq<Op>): map<Key, Data> {
    if ops == [] then m else MapAfter(MapAfterAll(m, ops[..|ops| - 1]), ops[|ops| - 1])
  }

  /** Put refines finite-map update on the whole map. */
  lemma {:induction false} PutRefines(t: Tree, k: Key, v: Data)
    requires CanonicalRoot(t)
    ensures CanonicalRoot(Insert(t, k, v, 0))
    ensures Content(Insert(t, k, v, 0), 0) == Content(t, 0)[k := v]
  {
    InsertIsCanonical(t, k, v, []);
    CanonicalPlaced(t, []);
    CanonicalPlaced(Insert(t, k, v, 0), []);
    forall x: Key
      ensures x in Content(Insert(t, k, v, 0), 0) <==> x in Content(t, 0)[k := v]
      ensures x in Content(t, 0)[k := v] ==> Content(Insert(t, k, v, 0), 0)[x] == Content(t, 0)[k := v][x]
    {
      InsertLookup(t, k, v, [], x);
      ContentIsLookup(t, [], x);
      ContentIsLookup(Insert(t, k, v, 0), [], x);
    }
  }

  /** Delete refines finite-map removal on the whole map. */
  lemma {:induction false} DeleteRefines(t: Tree, k: Key)
    requires CanonicalRoot(t)
    ensures CanonicalRoot(Remove(t, k, 0))
    ensures Content(Remove(t, k, 0), 0) == Content(t, 0) - {k}
  {
    RemoveIsCanonical(t, k, []);
    CanonicalPlaced(t, []);
    CanonicalPlaced(Remove(t, k, 0), []);
    forall x: Key
      ensures x in Content(Remove(t, k, 0), 0) <==> x in Content(t, 0) - {k}
      ensures x in Content(t, 0) - {k} ==> Content(Remove(t, k, 0), 0)[x] == Content(t, 0)[x]
    {
      RemoveLookup(t, k, [], x);
      ContentIsLookup(t, [], x);
      ContentIsLookup(Remove(t, k, 0), [], x);
    }
  }

  /** Over any history of calls the tree stays canonical and its content is the
      finite map the same calls produce. */
  lemma {:induction false} HistoryRefines(t: Tree, ops: seq<Op>)
    requires CanonicalRoot(t)
    ensures CanonicalRoot(ApplyAll(t, ops))
    ensures Content(ApplyAll(t, ops), 0) == MapAfterAll(Content(t, 0), ops)
    decreases |ops|
  {
    if ops != [] {
      var before := ApplyAll(t, ops[..|ops| - 1]);
      HistoryRefines(t, ops[..|ops| - 1]);
      match ops[|ops| - 1]
      case Put(k, v) => PutRefines(before, k, v);
      case Delete(k) =>
        DeleteRefines(before, k);
        CanonicalPlaced(before, []);
        ContentIsLookup(before, [], k);
        assert Lookup(before, k, 0).None? ==> Content(before, 0) - {k} == Content(before, 0);
    }
  }

  /** History independence: histories that end in the same finite map end in the
      same tree, whatever calls and whatever order led there. */
  lemma {:induction false} HistoryIndependence(t: Tree, u: Tree, ops1: seq<Op>, ops2: seq<Op>)
    requires CanonicalRoot(t) && CanonicalRoot(u)
    requires MapAfterAll(Content(t, 0), ops1) == MapAfterAll(Content(u, 0), ops2)
    ensures ApplyAll(t, ops1) == ApplyAll(u, ops2)
  {
    HistoryRefines(t, ops1);
    HistoryRefines(u, ops2);
    ContentDeterminesTree(ApplyAll(t, ops1), ApplyAll(u, ops2));
  }

  lemma {:induction false} EmptyMapIsCanonical()
    ensures CanonicalRoot(Inner(NO_KIDS)) && Content(Inner(NO_KIDS), 0) == map[]
  {
    NoKids([]);
    forall k: Key
      ensures k !in Keys(Inner(NO_KIDS))
    {
    }
  }
}
