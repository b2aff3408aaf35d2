/** Structural comparison of two maps, shamap/compare.go.

    The methods follow the source: explicit stacks, early exit on equal hashes and
    an emit callback that may ask to stop. The functions beside them say which list
    of differences the walk goes through; the lemmas say that this list is the
    pointwise difference of the two finite maps. */
module Compare {
  import opened KeyPath
  import opened Trie
  import opened Hashing

  datatype Diff =
    | Added(key: Key, second: Data)
    | Removed(key: Key, first: Data)
    | Modified(key: Key, first: Data, second: Data)

  /** The difference of two maps at one key. */
  function Delta(k: Key, a: Option<Data>, b: Option<Data>): Option<Diff> {
    match (a, b)
    case (None, None) => None
    case (None, Some(v)) => Some(Added(k, v))
    case (Some(v), None) => Some(Removed(k, v))
    case (Some(v), Some(w)) => if v == w then None else Some(Modified(k, v, w))
  }

  function DiffAt(a: Tree, b: Tree, d: nat, k: Key): Option<Diff> {
    Delta(k, Lookup(a, k, d), Lookup(b, k, d))
  }

  /** Within a region of keys the list holds every difference, no other, and no key
      twice. */
  ghost predicate ExactOn(list: seq<Diff>, a: Tree, b: Tree, d: nat, region: iset<Key>) {
    && (forall i :: 0 <= i < |list| ==>
          list[i].key in region && DiffAt(a, b, d, list[i].key) == Some(list[i]))
    && (forall k :: k in region && DiffAt(a, b, d, k).Some? ==> exists i :: 0 <= i < |list| && list[i].key == k)
    && (forall i, j :: 0 <= i < j < |list| ==> list[i].key != list[j].key)
  }

  ghost predicate OnPath(path: seq<Nibble>, k: Key) {
    path <= k
  }

  ghost function Region(path: seq<Nibble>): iset<Key> {
    iset k: Key | OnPath(path, k)
  }

  lemma {:induction false} ExactUnion(l1: seq<Diff>, l2: seq<Diff>, a: Tree, b: Tree, d: nat, r1: iset<Key>,
                                      r2: iset<Key>)
    requires ExactOn(l1, a, b, d, r1) && ExactOn(l2, a, b, d, r2) && r1 !! r2
    ensures ExactOn(l1 + l2, a, b, d, r1 + r2)
  {
    var l := l1 + l2;
    forall k | k in r1 + r2 && DiffAt(a, b, d, k).Some?
      ensures exists i :: 0 <= i < |l| && l[i].key == k
    {
      if k in r1 {
        var i :| 0 <= i < |l1| && l1[i].key == k;
        assert l[i].key == k;
      } else {
        var i :| 0 <= i < |l2| && l2[i].key == k;
        assert l[|l1| + i].key == k;
      }
    }
  }

  lemma {:induction false} ExactNothing(a: Tree, b: Tree, d: nat, r: iset<Key>)
    requires forall k :: k in r ==> DiffAt(a, b, d, k) == None
    ensures ExactOn([], a, b, d, r)
  {
  }

  // ------------------------------------------------------------------- leaves

  /** The leaves in the order a last-in first-out walk meets them. */
  ghost function LeavesDesc(t: Tree): seq<(Key, Data)>
    decreases t, 0
  {
    match t
    case Empty => []
    case Leaf(k, v) => [(k, v)]
    case Inner(kids) => LeavesUpTo(t, |kids|)
  }

  ghost function LeavesUpTo(t: Tree, n: nat): seq<(Key, Data)>
    requires t.Inner? && n <= |t.kids|
    decreases t, 0, n
  {
    if n == 0 then [] else LeavesDesc(t.kids[n - 1]) + LeavesUpTo(t, n - 1)
  }

  ghost function Flat(stack: seq<Tree>): seq<(Key, Data)> {
    if stack == [] then [] else LeavesDesc(stack[|stack| - 1]) + Flat(stack[..|stack| - 1])
  }

  /** An enumeration of the items whose keys lie in a region. */
  ghost predicate Enumerates(items: seq<(Key, Data)>, t: Tree, d: nat, region: iset<Key>) {
    && (forall i :: 0 <= i < |items| ==> items[i].0 in region && Lookup(t, items[i].0, d) == Some(items[i].1))
    && (forall k :: k in region && Lookup(t, k, d).Some? ==> exists i :: 0 <= i < |items| && items[i].0 == k)
    && (forall i, j :: 0 <= i < j < |items| ==> items[i].0 != items[j].0)
  }

  lemma {:induction false} EnumeratesUnion(l1: seq<(Key, Data)>, l2: seq<(Key, Data)>, t: Tree, d: nat,
                                           r1: iset<Key>, r2: iset<Key>)
    requires Enumerates(l1, t, d, r1) && Enumerates(l2, t, d, r2) && r1 !! r2
    ensures Enumerates(l1 + l2, t, d, r1 + r2)
  {
    var l := l1 + l2;
    forall k | k in r1 + r2 && Lookup(t, k, d).Some?
      ensures exists i :: 0 <= i < |l| && l[i].0 == k
    {
      if k in r1 {
        var i :| 0 <= i < |l1| && l1[i].0 == k;
        assert l[i].0 == k;
      } else {
        var i :| 0 <= i < |l2| && l2[i].0 == k;
        assert l[|l1| + i].0 == k;
      }
    }
  }

  ghost function UpToBranch(path: seq<Nibble>, n: int): iset<Key>
    requires |path| < 64
  {
    iset k: Key | OnPath(path, k) && k[|path|] < n
  }

  lemma {:induction false} LeavesEnumerate(t: Tree, path: seq<Nibble>)
    requires Placed(t, path)
    ensures Enumerates(LeavesDesc(t), t, |path|, Region(path))
    decreases t, 0
  {
    if t.Inner? {
      LeavesUpToEnumerate(t, path, 16);
      assert Region(path) == UpToBranch(path, 16);
    } else if t.Leaf? {
      assert LeavesDesc(t)[0].0 == t.key;
    }
  }

  lemma {:induction false} LeavesUpToEnumerate(t: Tree, path: seq<Nibble>, n: nat)
    requires t.Inner? && Placed(t, path) && n <= 16
    ensures Enumerates(LeavesUpTo(t, n), t, |path|, UpToBranch(path, n))
    decreases t, 0, n
  {
    if n > 0 {
      LeavesUpToEnumerate(t, path, n - 1);
      LeavesEnumerate(t.kids[n - 1], path + [n - 1]);
      KidEnumerates(LeavesDesc(t.kids[n - 1]), t, path, n - 1);
      EnumeratesUnion(LeavesDesc(t.kids[n - 1]), LeavesUpTo(t, n - 1), t, |path|, Region(path + [n - 1]),
        UpToBranch(path, n - 1));
      BelowStep(path, n);
    }
  }

  lemma {:induction false} BelowStep(path: seq<Nibble>, n: nat)
    requires |path| < 64 && 1 <= n <= 16
    ensures UpToBranch(path, n) == Region(path + [n - 1]) + UpToBranch(path, n - 1)
    ensures Region(path + [n - 1]) !! UpToBranch(path, n - 1)
  {
    forall k: Key
      ensures path + [n - 1] <= k <==> path <= k && k[|path|] == n - 1
    {
      BranchRegion(path, n - 1, k);
    }
  }

  lemma {:induction false} BranchRegion(path: seq<Nibble>, i: Nibble, k: Key)
    requires |path| < 64
    ensures path + [i] <= k <==> path <= k && k[|path|] == i
  {
    if path + [i] <= k {
      assert (path + [i])[|path|] == i;
      assert path <= path + [i];
    }
  }

  lemma {:induction false} KidEnumerates(items: seq<(Key, Data)>, t: Tree, path: seq<Nibble>, i: Nibble)
    requires t.Inner? && Placed(t, path)
    requires Enumerates(items, t.kids[i], |path| + 1, Region(path + [i]))
    ensures Enumerates(items, t, |path|, Region(path + [i]))
  {
    forall k | k in Region(path + [i])
      ensures Lookup(t, k, |path|) == Lookup(t.kids[i], k, |path| + 1)
    {
      BranchRegion(path, i, k);
    }
  }

  // -------------------------------------------------------------- walkBranch

  /** The difference a leaf on one side makes when the other side lacks its key. */
  function Unmatched(item: (Key, Data), isFirst: bool): Diff {
    if isFirst then Removed(item.0, item.1) else Added(item.0, item.1)
  }

  function Matched(item: (Key, Data), other: (Key, Data), isFirst: bool): seq<Diff> {
    if item.1 == other.1 then []
    else if isFirst then [Modified(item.0, item.1, other.1)]
    else [Modified(item.0, other.1, item.1)]
  }

  /** What walkBranch emits for the leaves still ahead; `spent` is its emptyBranch. */
  ghost function WalkItems(items: seq<(Key, Data)>, other: Option<(Key, Data)>, isFirst: bool, spent: bool): seq<Diff>
    requires spent || other.Some?
    decreases |items|
  {
    if items == [] then
      if spent then [] else [Unmatched(other.value, !isFirst)]
    else if spent || items[0].0 != other.value.0 then
      [Unmatched(items[0], isFirst)] + WalkItems(items[1..], other, isFirst, spent)
    else
      Matched(items[0], other.value, isFirst) + WalkItems(items[1..], other, isFirst, true)
  }

  ghost function Side(t: Tree, other: Option<(Key, Data)>, isFirst: bool, first: bool): Tree {
    if isFirst == first then t else if other.Some? then Leaf(other.value.0, other.value.1) else Empty
  }

  ghost function ItemKeys(items: seq<(Key, Data)>): iset<Key> {
    iset i | 0 <= i < |items| :: items[i].0
  }

  /** The walk's list is exact on the keys it still has to deal with. */
  lemma {:induction false} WalkItemsExact(items: seq<(Key, Data)>, t: Tree, d: nat, other: Option<(Key, Data)>,
                                          isFirst: bool, spent: bool)
    requires spent || other.Some?
    requires forall i :: 0 <= i < |items| ==> Lookup(t, items[i].0, d) == Some(items[i].1)
    requires forall i, j :: 0 <= i < j < |items| ==> items[i].0 != items[j].0
    requires spent && other.Some? ==> other.value.0 !in ItemKeys(items)
    requires !spent && Lookup(t, other.value.0, d).Some? ==> other.value.0 in ItemKeys(items)
    ensures ExactOn(WalkItems(items, other, isFirst, spent), Side(t, other, isFirst, true),
      Side(t, other, isFirst, false), d,
                    ItemKeys(items) + if spent then iset{} else iset{other.value.0})
    decreases |items|
  {
    var a, b := Side(t, other, isFirst, true), Side(t, other, isFirst, false);
    if items == [] {
      assert ItemKeys(items) == iset{};
      assert !spent ==> WalkItems(items, other, isFirst, spent)[0].key == other.value.0;
    } else {
      hide ExactOn, ItemKeys, Side, Matched, Unmatched;
      var x, rest := items[0], items[1..];
      KeysCons(items);
      var matched := !spent && x.0 == other.value.0;
      WalkItemsExact(rest, t, d, other, isFirst, spent || matched);
      PieceExact(x, t, d, other, isFirst, spent);
      var restKeys := ItemKeys(rest) + if spent || matched then iset{} else iset{other.value.0};
      ExactUnion(Piece(x, other, isFirst, spent), WalkItems(rest, other, isFirst, spent || matched), a, b, d,
        iset{x.0}, restKeys);
      assert iset{x.0} + restKeys == ItemKeys(items) + if spent then iset{} else iset{other.value.0};
    }
  }

  /** What the walk emits for its next leaf. */
  ghost function Piece(x: (Key, Data), other: Option<(Key, Data)>, isFirst: bool, spent: bool): seq<Diff>
    requires spent || other.Some?
  {
    if spent || x.0 != other.value.0 then [Unmatched(x, isFirst)] else Matched(x, other.value, isFirst)
  }

  lemma {:induction false} PieceExact(x: (Key, Data), t: Tree, d: nat, other: Option<(Key, Data)>, isFirst: bool,
                                      spent: bool)
    requires (spent || other.Some?) && Lookup(t, x.0, d) == Some(x.1)
    requires spent && other.Some? ==> other.value.0 != x.0
    ensures ExactOn(Piece(x, other, isFirst, spent), Side(t, other, isFirst, true), Side(t, other, isFirst, false),
      d, iset{x.0})
  {
    var piece := Piece(x, other, isFirst, spent);
    assert piece != [] ==> piece[0].key == x.0;
  }

  lemma {:induction false} KeysCons(items: seq<(Key, Data)>)
    requires items != []
    ensures ItemKeys(items) == iset{items[0].0} + ItemKeys(items[1..])
    ensures (forall i, j :: 0 <= i < j < |items| ==> items[i].0 != items[j].0) ==> items[0].0 !in ItemKeys(items[1..])
  {
    var rest := items[1..];
    forall k: Key
      ensures k in ItemKeys(items) <==> k == items[0].0 || k in ItemKeys(rest)
    {
      if k in ItemKeys(items) {
        var i :| 0 <= i < |items| && items[i].0 == k;
        assert i > 0 ==> rest[i - 1].0 == k;
      }
      if k in ItemKeys(rest) {
        var i :| 0 <= i < |rest| && rest[i].0 == k;
        assert items[i + 1].0 == k;
      }
    }
  }

  /** walkBranch against an empty branch or a single item of the other map is the
      exact difference below that position. */
  lemma {:induction false} WalkExact(t: Tree, path: seq<Nibble>, other: Option<(Key, Data)>, isFirst: bool)
    requires Placed(t, path) && (other.Some? ==> path <= other.value.0)
    ensures ExactOn(WalkItems(LeavesDesc(t), other, isFirst, other.None?),
                    Side(t, other, isFirst, true), Side(t, other, isFirst, false), |path|, Region(path))
  {
    var items := LeavesDesc(t);
    var a, b := Side(t, other, isFirst, true), Side(t, other, isFirst, false);
    LeavesEnumerate(t, path);
    if other.Some? && Lookup(t, other.value.0, |path|).Some? {
      assert other.value.0 in Region(path);
      var i :| 0 <= i < |items| && items[i].0 == other.value.0;
      assert items[i].0 in ItemKeys(items);
    }
    WalkItemsExact(items, t, |path|, other, isFirst, other.None?);
    var met := ItemKeys(items) + if other.None? then iset{} else iset{other.value.0};
    forall k | k in Region(path) - met
      ensures DiffAt(a, b, |path|, k) == None
    {
      assert Lookup(t, k, |path|).None?;
    }
    ExactNothing(a, b, |path|, Region(path) - met);
    assert met <= Region(path);
    ExactUnion(WalkItems(items, other, isFirst, other.None?), [], a, b, |path|, met, Region(path) - met);
    assert met + (Region(path) - met) == Region(path);
    assert WalkItems(items, other, isFirst, other.None?) + [] == WalkItems(items, other, isFirst, other.None?);
  }

  // ----------------------------------------------------------- the whole walk

  /** Branches both sides have, with different hashes: they need a deeper look. */
  function Paired(kind: LeafKind, a: Tree, b: Tree): bool {
    a != Empty && b != Empty && HashOf(kind, a) != HashOf(kind, b)
  }

  /** What one branch adds to the on-the-spot list. */
  ghost function OnTheSpot(x: Tree, y: Tree): seq<Diff> {
    if x == Empty && y != Empty then WalkItems(LeavesDesc(y), None, false, true)
    else if x != Empty && y == Empty then WalkItems(LeavesDesc(x), None, true, true)
    else []
  }

  /** What diffInner emits on the spot for the first n branches. */
  ghost function OneSided(ka: seq<Tree>, kb: seq<Tree>, n: nat): seq<Diff>
    requires n <= |ka| && n <= |kb|
  {
    if n == 0 then []
    else OneSided(ka, kb, n - 1) + OnTheSpot(ka[n - 1], kb[n - 1])
  }

  ghost function LeafDiff(a: Tree, b: Tree): seq<Diff>
    requires a.Leaf? && b.Leaf?
  {
    if a.key == b.key then
      if a.data == b.data then [] else [Modified(a.key, a.data, b.data)]
    else [Removed(a.key, a.data), Added(b.key, b.data)]
  }

  /** The complete list for two nodes at one position. */
  ghost function DiffList(kind: LeafKind, a: Tree, b: Tree): seq<Diff>
    requires a != Empty && b != Empty
    decreases a, b, 1
  {
    match (a, b)
    case (Leaf(_, _), Leaf(_, _)) => LeafDiff(a, b)
    case (Inner(_), Leaf(k, v)) => WalkItems(LeavesDesc(a), Some((k, v)), true, false)
    case (Leaf(k, v), Inner(_)) => WalkItems(LeavesDesc(b), Some((k, v)), false, false)
    case (Inner(ka), Inner(kb)) =>
      if |ka| == |kb| == 16 then OneSided(ka, kb, 16) + PairsDiff(kind, a, b, 16) else []
  }

  /** The pairs pushed for the first n branches, popped from the last. */
  ghost function PairsDiff(kind: LeafKind, a: Tree, b: Tree, n: nat): seq<Diff>
    requires a.Inner? && b.Inner? && n <= |a.kids| && n <= |b.kids|
    decreases a, b, 0, n
  {
    if n == 0 then []
    else (if Paired(kind, a.kids[n - 1], b.kids[n - 1]) then DiffList(kind, a.kids[n - 1], b.kids[n - 1]) else []) +
         PairsDiff(kind, a, b, n - 1)
  }

  /** Keys under the first n branches that the on-the-spot pass deals with, and those
      it leaves to the stack. */
  ghost function Spot(kind: LeafKind, a: Tree, b: Tree, path: seq<Nibble>, n: int, paired: bool): iset<Key>
    requires a.Inner? && b.Inner? && |a.kids| == |b.kids| == 16 && |path| < 64
  {
    iset k: Key | OnPath(path, k) && k[|path|] < n && Paired(kind, a.kids[k[|path|]], b.kids[k[|path|]]) == paired
  }

  lemma {:induction false} SpotStep(kind: LeafKind, a: Tree, b: Tree, path: seq<Nibble>, n: nat, paired: bool)
    requires a.Inner? && b.Inner? && |a.kids| == |b.kids| == 16 && |path| < 64 && 1 <= n <= 16
    ensures Spot(kind, a, b, path, n, paired) == Spot(kind, a, b, path, n - 1, paired) +
              if Paired(kind, a.kids[n - 1], b.kids[n - 1]) == paired then Region(path + [n - 1]) else iset{}
    ensures Spot(kind, a, b, path, n - 1, paired) !! Region(path + [n - 1])
  {
    forall k: Key
      ensures OnPath(path + [n - 1], k) <==> OnPath(path, k) && k[|path|] == n - 1
    {
      BranchRegion(path, n - 1, k);
    }
  }

  /** Exactness for a kid is exactness for its parent on that branch. */
  lemma {:induction false} KidExact(list: seq<Diff>, a: Tree, b: Tree, path: seq<Nibble>, i: Nibble)
    requires a.Inner? && b.Inner? && |a.kids| == |b.kids| == 16 && |path| < 64
    requires ExactOn(list, a.kids[i], b.kids[i], |path| + 1, Region(path + [i]))
    ensures ExactOn(list, a, b, |path|, Region(path + [i]))
  {
    forall k | k in Region(path + [i])
      ensures DiffAt(a, b, |path|, k) == DiffAt(a.kids[i], b.kids[i], |path| + 1, k)
    {
      BranchRegion(path, i, k);
    }
  }

  /** Down both trees, equal hashes at one position mean equal subtrees. */
  ghost predicate Told(kind: LeafKind, a: Tree, b: Tree)
    decreases a
  {
    && (HashOf(kind, a) == HashOf(kind, b) ==> a == b)
    && (a.Inner? && b.Inner? && |a.kids| == |b.kids| ==>
          forall i :: 0 <= i < |a.kids| ==> Told(kind, a.kids[i], b.kids[i]))
  }

  /** One branch of the on-the-spot pass. Equal hashes mean equal subtrees. */
  lemma {:induction false} BranchOnTheSpot(kind: LeafKind, x: Tree, y: Tree, path: seq<Nibble>)
    requires Told(kind, x, y) && Canonical(x, path) && Canonical(y, path) && !Paired(kind, x, y)
    ensures ExactOn(OnTheSpot(x, y), x, y, |path|, Region(path))
  {
    hide ExactOn, Region, Canonical, LeavesDesc, WalkItems, Placed;
    CanonicalPlaced(x, path);
    CanonicalPlaced(y, path);
    if x == Empty && y != Empty {
      WalkExact(y, path, None, false);
    } else if x != Empty && y == Empty {
      WalkExact(x, path, None, true);
    } else {
      ExactNothing(x, y, |path|, Region(path));
    }
  }

  lemma {:induction false} BranchExact(kind: LeafKind, a: Tree, b: Tree, path: seq<Nibble>, i: Nibble)
    requires Told(kind, a, b) && a.Inner? && b.Inner? && Canonical(a, path) && Canonical(b, path)
    requires !Paired(kind, a.kids[i], b.kids[i])
    ensures ExactOn(OnTheSpot(a.kids[i], b.kids[i]), a, b, |path|, Region(path + [i]))
  {
    hide ExactOn, Region, OnTheSpot, HashOf;
    BranchOnTheSpot(kind, a.kids[i], b.kids[i], path + [i]);
    KidExact(OnTheSpot(a.kids[i], b.kids[i]), a, b, path, i);
  }

  lemma {:induction false} OneSidedExact(kind: LeafKind, a: Tree, b: Tree, path: seq<Nibble>, n: nat)
    requires Told(kind, a, b) && a.Inner? && b.Inner? && Canonical(a, path) && Canonical(b, path) && n <= 16
    ensures ExactOn(OneSided(a.kids, b.kids, n), a, b, |path|, Spot(kind, a, b, path, n, false))
    decreases n
  {
    hide ExactOn, Spot, Region, OnTheSpot, HashOf;
    if n == 0 {
      NoneExact(kind, a, b, path, false);
    } else {
      OneSidedExact(kind, a, b, path, n - 1);
      if !Paired(kind, a.kids[n - 1], b.kids[n - 1]) {
        BranchExact(kind, a, b, path, n - 1);
      }
      OneSidedStep(kind, a, b, path, n);
    }
  }

  lemma {:induction false} OneSidedStep(kind: LeafKind, a: Tree, b: Tree, path: seq<Nibble>, n: nat)
    requires a.Inner? && b.Inner? && |a.kids| == |b.kids| == 16 && |path| < 64 && 1 <= n <= 16
    requires ExactOn(OneSided(a.kids, b.kids, n - 1), a, b, |path|, Spot(kind, a, b, path, n - 1, false))
    requires !Paired(kind, a.kids[n - 1], b.kids[n - 1]) ==>
               ExactOn(OnTheSpot(a.kids[n - 1], b.kids[n - 1]), a, b, |path|, Region(path + [n - 1]))
    ensures ExactOn(OneSided(a.kids, b.kids, n), a, b, |path|, Spot(kind, a, b, path, n, false))
  {
    hide ExactOn, Spot, Region, OnTheSpot, HashOf;
    SpotStep(kind, a, b, path, n, false);
    var before := OneSided(a.kids, b.kids, n - 1);
    if Paired(kind, a.kids[n - 1], b.kids[n - 1]) {
      PairedIsLater(kind, a.kids[n - 1], b.kids[n - 1]);
      assert before + [] == before;
      assert Spot(kind, a, b, path, n - 1, false) + iset{} == Spot(kind, a, b, path, n - 1, false);
    } else {
      ExactUnion(before, OnTheSpot(a.kids[n - 1], b.kids[n - 1]), a, b, |path|, Spot(kind, a, b, path, n - 1, false),
        Region(path + [n - 1]));
    }
  }

  lemma {:induction false} PairedIsLater(kind: LeafKind, x: Tree, y: Tree)
    ensures Paired(kind, x, y) ==> OnTheSpot(x, y) == []
  {
  }

  lemma {:induction false} PairsExact(kind: LeafKind, a: Tree, b: Tree, path: seq<Nibble>, n: nat)
    requires Told(kind, a, b) && a.Inner? && b.Inner? && Canonical(a, path) && Canonical(b, path) && n <= 16
    ensures ExactOn(PairsDiff(kind, a, b, n), a, b, |path|, Spot(kind, a, b, path, n, true))
    decreases a, b, 0, n
  {
    hide ExactOn, Spot, DiffList, Region, HashOf;
    if n == 0 {
      NoneExact(kind, a, b, path, true);
    } else {
      PairsExact(kind, a, b, path, n - 1);
      if Paired(kind, a.kids[n - 1], b.kids[n - 1]) {
        PairExact(kind, a, b, path, n - 1);
      }
      PairsStep(kind, a, b, path, n);
    }
  }

  lemma {:induction false} NoneExact(kind: LeafKind, a: Tree, b: Tree, path: seq<Nibble>, paired: bool)
    requires a.Inner? && b.Inner? && |a.kids| == |b.kids| == 16 && |path| < 64
    ensures ExactOn([], a, b, |path|, Spot(kind, a, b, path, 0, paired))
  {
    ExactNothing(a, b, |path|, Spot(kind, a, b, path, 0, paired));
  }

  lemma {:induction false} PairsStep(kind: LeafKind, a: Tree, b: Tree, path: seq<Nibble>, n: nat)
    requires a.Inner? && b.Inner? && |a.kids| == |b.kids| == 16 && |path| < 64 && 1 <= n <= 16
    requires ExactOn(PairsDiff(kind, a, b, n - 1), a, b, |path|, Spot(kind, a, b, path, n - 1, true))
    requires Paired(kind, a.kids[n - 1], b.kids[n - 1]) ==>
               ExactOn(DiffList(kind, a.kids[n - 1], b.kids[n - 1]), a, b, |path|, Region(path + [n - 1]))
    ensures ExactOn(PairsDiff(kind, a, b, n), a, b, |path|, Spot(kind, a, b, path, n, true))
  {
    hide ExactOn, Spot, DiffList, Region, HashOf;
    SpotStep(kind, a, b, path, n, true);
    var rest := PairsDiff(kind, a, b, n - 1);
    if Paired(kind, a.kids[n - 1], b.kids[n - 1]) {
      var piece := DiffList(kind, a.kids[n - 1], b.kids[n - 1]);
      ExactUnion(piece, rest, a, b, |path|, Region(path + [n - 1]), Spot(kind, a, b, path, n - 1, true));
      assert Region(path + [n - 1]) + Spot(kind, a, b, path, n - 1, true) == Spot(kind, a, b, path, n, true);
    } else {
      assert [] + rest == rest;
      assert Spot(kind, a, b, path, n - 1, true) + iset{} == Spot(kind, a, b, path, n - 1, true);
    }
  }

  lemma {:induction false} PairExact(kind: LeafKind, a: Tree, b: Tree, path: seq<Nibble>, i: Nibble)
    requires Told(kind, a, b) && a.Inner? && b.Inner? && Canonical(a, path) && Canonical(b, path)
    requires Paired(kind, a.kids[i], b.kids[i])
    ensures ExactOn(DiffList(kind, a.kids[i], b.kids[i]), a, b, |path|, Region(path + [i]))
    decreases a, b, 0, 0
  {
    hide ExactOn, Region, DiffList, HashOf;
    DiffListExact(kind, a.kids[i], b.kids[i], path + [i]);
    KidExact(DiffList(kind, a.kids[i], b.kids[i]), a, b, path, i);
  }

  /** The list of the whole walk is the pointwise difference, each key once. */
  lemma {:induction false} DiffListExact(kind: LeafKind, a: Tree, b: Tree, path: seq<Nibble>)
    requires Told(kind, a, b) && a != Empty && b != Empty && Canonical(a, path) && Canonical(b, path)
    ensures ExactOn(DiffList(kind, a, b), a, b, |path|, Region(path))
    decreases a, b, 1
  {
    CanonicalPlaced(a, path);
    CanonicalPlaced(b, path);
    match (a, b)
    case (Leaf(_, _), Leaf(_, _)) =>
      LeafDiffExact(a, b, path);
    case (Inner(_), Leaf(k, v)) =>
      WalkExact(a, path, Some((k, v)), true);
    case (Leaf(k, v), Inner(_)) =>
      WalkExact(b, path, Some((k, v)), false);
    case (Inner(ka), Inner(kb)) =>
      OneSidedExact(kind, a, b, path, 16);
      PairsExact(kind, a, b, path, 16);
      ExactUnion(OneSided(ka, kb, 16), PairsDiff(kind, a, b, 16), a, b, |path|,
                 Spot(kind, a, b, path, 16, false), Spot(kind, a, b, path, 16, true));
      assert Spot(kind, a, b, path, 16, false) + Spot(kind, a, b, path, 16, true) == Region(path);
  }

  lemma {:induction false} LeafDiffExact(a: Tree, b: Tree, path: seq<Nibble>)
    requires a.Leaf? && b.Leaf? && path <= a.key && path <= b.key
    ensures ExactOn(LeafDiff(a, b), a, b, |path|, Region(path))
  {
    var l := LeafDiff(a, b);
    if a.key != b.key {
      assert l[0].key == a.key && l[1].key == b.key;
    } else if a.data != b.data {
      assert l[0].key == a.key;
    }
  }

  // ------------------------------------------------------------------ methods

  /** Work left on a stack of nodes. */
  ghost function Size(t: Tree): nat
    decreases t, 0
  {
    1 + if t.Inner? then SizeUpTo(t, |t.kids|) else 0
  }

  ghost function SizeUpTo(t: Tree, n: nat): nat
    requires t.Inner? && n <= |t.kids|
    decreases t, 0, n
  {
    if n == 0 then 0 else Size(t.kids[n - 1]) + SizeUpTo(t, n - 1)
  }

  ghost function StackSize(stack: seq<Tree>): nat {
    if stack == [] then 0 else Size(stack[|stack| - 1]) + StackSize(stack[..|stack| - 1])
  }

  /** The emit callback of CompareContext: append, and ask to stop at the limit. */
  function WantsMore(out: seq<Diff>, maxCount: int): bool {
    maxCount <= 0 || |out| < maxCount
  }

  /** The inner loop of walkBranch: push the children, first branch first. */
  method PushKids(stack: seq<Tree>, inner: Tree) returns (r: seq<Tree>)
    requires inner.Inner? && |inner.kids| == 16
    ensures Flat(r) == LeavesDesc(inner) + Flat(stack)
    ensures StackSize(r) < Size(inner) + StackSize(stack)
    ensures forall j :: 0 <= j < |r| ==> r[j] in stack || (r[j] in inner.kids && r[j] != Empty)
  {
    hide Flat, LeavesUpTo, LeavesDesc, SizeUpTo, StackSize, Size;
    r := stack;
    PushNone(stack, inner);
    for i := 0 to 16
      invariant Flat(r) == LeavesUpTo(inner, i) + Flat(stack)
      invariant StackSize(r) <= SizeUpTo(inner, i) + StackSize(stack)
      invariant forall j :: 0 <= j < |r| ==> r[j] in stack || (r[j] in inner.kids && r[j] != Empty)
    {
      PushStep(r, stack, inner, i);
      if inner.kids[i] != Empty {
        r := r + [inner.kids[i]];
      }
    }
    PushAll(inner);
  }

  lemma {:induction false} PushNone(stack: seq<Tree>, inner: Tree)
    requires inner.Inner? && |inner.kids| == 16
    ensures LeavesUpTo(inner, 0) + Flat(stack) == Flat(stack) && SizeUpTo(inner, 0) == 0
  {
  }

  lemma {:induction false} PushAll(inner: Tree)
    requires inner.Inner? && |inner.kids| == 16
    ensures LeavesUpTo(inner, 16) == LeavesDesc(inner) && SizeUpTo(inner, 16) < Size(inner)
  {
  }

  lemma {:induction false} PushStep(r: seq<Tree>, stack: seq<Tree>, inner: Tree, i: nat)
    requires inner.Inner? && |inner.kids| == 16 && i < 16
    requires Flat(r) == LeavesUpTo(inner, i) + Flat(stack) && StackSize(r) <= SizeUpTo(inner, i) + StackSize(stack)
    ensures var r' := if inner.kids[i] != Empty then r + [inner.kids[i]] else r;
      && Flat(r') == LeavesUpTo(inner, i + 1) + Flat(stack)
      && StackSize(r') <= SizeUpTo(inner, i + 1) + StackSize(stack)
  {
    FlatPush(r, inner.kids[i]);
  }

  lemma {:induction false} FlatPush(stack: seq<Tree>, t: Tree)
    ensures Flat(stack + [t]) == LeavesDesc(t) + Flat(stack)
    ensures StackSize(stack + [t]) == Size(t) + StackSize(stack)
  {
    assert (stack + [t])[..|stack + [t]| - 1] == stack;
  }

  ghost predicate Fans(t: Tree)
    decreases t
  {
    t.Inner? ==> |t.kids| == 16 && forall i :: 0 <= i < 16 ==> Fans(t.kids[i])
  }

  /** The leaf case of walkBranch. */
  method EmitItem(item: (Key, Data), other: Option<(Key, Data)>, isFirst: bool, spent0: bool, out0: seq<Diff>,
                  maxCount: int, ghost ahead: seq<(Key, Data)>)
    returns (out: seq<Diff>, spent: bool, cont: bool)
    requires (spent0 || other.Some?) && WantsMore(out0, maxCount)
    ensures spent || other.Some?
    ensures out + WalkItems(ahead, other, isFirst, spent) ==
              out0 + WalkItems([item] + ahead, other, isFirst, spent0)
    ensures cont <==> WantsMore(out, maxCount)
    ensures !cont ==> 0 < maxCount == |out|
  {
    assert ([item] + ahead)[1..] == ahead;
    spent, out := spent0, out0;
    if spent0 || item.0 != other.value.0 {
      out := out + [Unmatched(item, isFirst)];
    } else {
      if item.1 != other.value.1 {
        out := out + Matched(item, other.value, isFirst);
      }
      spent := true;
    }
    cont := WantsMore(out, maxCount);
  }

  ghost predicate Ready(stack: seq<Tree>) {
    forall j :: 0 <= j < |stack| ==> Fans(stack[j]) && stack[j] != Empty
  }

  /** One turn of walkBranch's loop. */
  method WalkTurn(stack0: seq<Tree>, other: Option<(Key, Data)>, isFirst: bool, spent0: bool, out0: seq<Diff>,
                  maxCount: int)
    returns (stack: seq<Tree>, out: seq<Diff>, spent: bool, cont: bool)
    requires stack0 != [] && Ready(stack0) && (spent0 || other.Some?) && WantsMore(out0, maxCount)
    ensures spent || other.Some?
    ensures Ready(stack) && StackSize(stack) < StackSize(stack0)
    ensures out + WalkItems(Flat(stack), other, isFirst, spent)
      == out0 + WalkItems(Flat(stack0), other, isFirst, spent0)
    ensures cont <==> WantsMore(out, maxCount)
    ensures !cont ==> 0 < maxCount == |out|
  {
    var current := stack0[|stack0| - 1];
    stack := stack0[..|stack0| - 1];
    if current.Inner? {
      stack := PushKids(stack, current);
      out, spent, cont := out0, spent0, true;
    } else {
      out, spent, cont := EmitItem((current.key, current.data), other, isFirst, spent0, out0, maxCount, Flat(stack));
    }
  }

  /** walkBranch. Unless asked to stop, it emits the walk's list to the end; asked to
      stop, it has emitted the part of it that fits. */
  method WalkBranch(node: Tree, other: Option<(Key, Data)>, isFirst: bool, out0: seq<Diff>, maxCount: int)
    returns (out: seq<Diff>, cont: bool)
    requires Fans(node) && node != Empty && WantsMore(out0, maxCount)
    ensures cont ==> out == out0 + WalkItems(LeavesDesc(node), other, isFirst, other.None?)
    ensures cont ==> WantsMore(out, maxCount)
    ensures !cont ==> out <= out0 + WalkItems(LeavesDesc(node), other, isFirst, other.None?) && 0 < maxCount == |out|
  {
    ghost var goal := out0 + WalkItems(LeavesDesc(node), other, isFirst, other.None?);
    var stack := [node];
    var spent := other.None?;
    out := out0;
    FlatPush([], node);
    assert [] + [node] == [node] && LeavesDesc(node) + Flat([]) == LeavesDesc(node);
    while stack != []
      invariant (spent || other.Some?) && WantsMore(out, maxCount) && Ready(stack)
      invariant goal == out + WalkItems(Flat(stack), other, isFirst, spent)
      decreases StackSize(stack)
    {
      stack, out, spent, cont := WalkTurn(stack, other, isFirst, spent, out, maxCount);
      if !cont {
        return;
      }
    }
    cont := true;
    if !spent {
      out := out + [Unmatched(other.value, !isFirst)];
      cont := WantsMore(out, maxCount);
    }
  }

  // the comparison proper

  datatype Pair = Pair(ours: Tree, theirs: Tree)

  ghost function FlatPairs(kind: LeafKind, stack: seq<Pair>): seq<Diff>
    requires ReadyPairs(stack)
  {
    if stack == [] then []
    else DiffList(kind, stack[|stack| - 1].ours, stack[|stack| - 1].theirs) + FlatPairs(kind, stack[..|stack| - 1])
  }

  ghost predicate ReadyPairs(stack: seq<Pair>) {
    forall j :: 0 <= j < |stack| ==> ReadyPair(stack[j])
  }

  ghost predicate ReadyPair(p: Pair) {
    p.ours != Empty && p.theirs != Empty && Fans(p.ours) && Fans(p.theirs)
  }

  ghost function PairsSize(stack: seq<Pair>): nat {
    if stack == [] then 0 else Size(stack[|stack| - 1].ours) + PairsSize(stack[..|stack| - 1])
  }

  lemma {:induction false} PairsPush(kind: LeafKind, stack: seq<Pair>, p: Pair)
    requires ReadyPairs(stack) && ReadyPair(p)
    ensures ReadyPairs(stack + [p])
    ensures FlatPairs(kind, stack + [p]) == DiffList(kind, p.ours, p.theirs) + FlatPairs(kind, stack)
    ensures PairsSize(stack + [p]) == Size(p.ours) + PairsSize(stack)
  {
    assert (stack + [p])[..|stack + [p]| - 1] == stack;
  }

  /** One branch of diffInner. */
  method DiffBranch(kind: LeafKind, a: Tree, b: Tree, i: nat, out0: seq<Diff>, maxCount: int)
    returns (out: seq<Diff>, cont: bool, deeper: bool)
    requires ReadyPair(Pair(a, b)) && a.Inner? && b.Inner? && i < 16 && WantsMore(out0, maxCount)
    ensures cont ==> out == out0 + OneSided(a.kids, b.kids, i + 1)[|OneSided(a.kids, b.kids, i)|..]
    ensures !cont ==>
      && out <= out0 + OneSided(a.kids, b.kids, i + 1)[|OneSided(a.kids, b.kids, i)|..]
      && 0 < maxCount == |out|
    ensures cont ==> WantsMore(out, maxCount)
    ensures cont ==> deeper == Paired(kind, a.kids[i], b.kids[i])
  {
    var x, y := a.kids[i], b.kids[i];
    out, cont, deeper := out0, true, false;
    assert OneSided(a.kids, b.kids, i + 1)[..|OneSided(a.kids, b.kids, i)|] == OneSided(a.kids, b.kids, i);
    if x == Empty && y == Empty {
      return;
    }
    if x != Empty && y != Empty {
      deeper := HashOf(kind, x) != HashOf(kind, y);
    } else if x == Empty {
      out, cont := WalkBranch(y, None, false, out0, maxCount);
    } else {
      out, cont := WalkBranch(x, None, true, out0, maxCount);
    }
  }

  lemma {:induction false} OneSidedGrows(ka: seq<Tree>, kb: seq<Tree>, i: nat, n: nat)
    requires i <= n <= |ka| && n <= |kb|
    ensures OneSided(ka, kb, i) <= OneSided(ka, kb, n)
    decreases n - i
  {
    if i < n {
      OneSidedGrows(ka, kb, i, n - 1);
    }
  }

  lemma {:induction false} CutThere(x: seq<Diff>, y: seq<Diff>, z: seq<Diff>, out0: seq<Diff>, out: seq<Diff>)
    requires x <= y <= z && out <= out0 + x + y[|x|..]
    ensures out <= out0 + z
  {
    assert out0 + x + y[|x|..] == out0 + y;
    assert out0 + y <= out0 + z;
  }

  /** Where diffInner stands after its first n branches. */
  ghost predicate Progress(kind: LeafKind, a: Tree, b: Tree, n: nat, stack0: seq<Pair>, out0: seq<Diff>,
                           stack: seq<Pair>, out: seq<Diff>)
    requires a.Inner? && b.Inner? && n <= |a.kids| && n <= |b.kids| && ReadyPairs(stack0)
  {
    && ReadyPairs(stack)
    && out == out0 + OneSided(a.kids, b.kids, n)
    && FlatPairs(kind, stack) == PairsDiff(kind, a, b, n) + FlatPairs(kind, stack0)
    && PairsSize(stack) <= SizeUpTo(a, n) + PairsSize(stack0)
  }

  /** diffInner, with the new entries already on the stack. */
  method DiffInner(kind: LeafKind, a: Tree, b: Tree, stack0: seq<Pair>, out0: seq<Diff>, maxCount: int)
    returns (stack: seq<Pair>, out: seq<Diff>, cont: bool)
    requires ReadyPair(Pair(a, b)) && a.Inner? && b.Inner? && ReadyPairs(stack0) && WantsMore(out0, maxCount)
    ensures cont ==> WantsMore(out, maxCount) && Progress(kind, a, b, 16, stack0, out0, stack, out)
    ensures !cont ==> out <= out0 + OneSided(a.kids, b.kids, 16) && 0 < maxCount == |out|
  {
    stack, out := stack0, out0;
    var i := 0;
    while i < 16
      invariant 0 <= i <= 16 && WantsMore(out, maxCount)
      invariant Progress(kind, a, b, i, stack0, out0, stack, out)
    {
      stack, out, cont := DiffInnerTurn(kind, a, b, i, stack, out, maxCount, stack0, out0);
      if !cont {
        return;
      }
      i := i + 1;
    }
    cont := true;
  }

  method DiffInnerTurn(kind: LeafKind, a: Tree, b: Tree, i: nat, stack1: seq<Pair>, out1: seq<Diff>, maxCount: int,
                       ghost stack0: seq<Pair>, ghost out0: seq<Diff>)
    returns (stack: seq<Pair>, out: seq<Diff>, cont: bool)
    requires ReadyPair(Pair(a, b)) && a.Inner? && b.Inner? && ReadyPairs(stack0) && WantsMore(out1, maxCount) && i < 16
    requires Progress(kind, a, b, i, stack0, out0, stack1, out1)
    ensures cont ==> WantsMore(out, maxCount) && Progress(kind, a, b, i + 1, stack0, out0, stack, out)
    ensures !cont ==> out <= out0 + OneSided(a.kids, b.kids, 16) && 0 < maxCount == |out|
  {
    var deeper;
    out, cont, deeper := DiffBranch(kind, a, b, i, out1, maxCount);
    stack := stack1;
    if !cont {
      OneSidedGrows(a.kids, b.kids, i, i + 1);
      OneSidedGrows(a.kids, b.kids, i + 1, 16);
      CutThere(OneSided(a.kids, b.kids, i), OneSided(a.kids, b.kids, i + 1), OneSided(a.kids, b.kids, 16), out0, out);
      return;
    }
    if deeper {
      stack := stack1 + [Pair(a.kids[i], b.kids[i])];
    }
    OutStep(a.kids, b.kids, i, out0, out1, out);
    PairStep(kind, a, b, i, stack0, stack1, stack);
  }

  lemma {:induction false} OutStep(ka: seq<Tree>, kb: seq<Tree>, i: nat, out0: seq<Diff>, out1: seq<Diff>,
                                   out: seq<Diff>)
    requires i < |ka| && i < |kb| && out1 == out0 + OneSided(ka, kb, i)
    requires out == out1 + OneSided(ka, kb, i + 1)[|OneSided(ka, kb, i)|..]
    ensures out == out0 + OneSided(ka, kb, i + 1)
  {
    OneSidedGrows(ka, kb, i, i + 1);
    hide OneSided;
    Extend(OneSided(ka, kb, i), OneSided(ka, kb, i + 1), out0, out1, out);
  }

  lemma {:induction false} Extend(x: seq<Diff>, y: seq<Diff>, out0: seq<Diff>, out1: seq<Diff>, out: seq<Diff>)
    requires x <= y && out1 == out0 + x && out == out1 + y[|x|..]
    ensures out == out0 + y
  {
    assert y == x + y[|x|..];
  }

  lemma {:induction false} PairStep(kind: LeafKind, a: Tree, b: Tree, i: nat, stack0: seq<Pair>, stack1: seq<Pair>,
                                    stack: seq<Pair>)
    requires ReadyPair(Pair(a, b)) && a.Inner? && b.Inner? && i < 16 && ReadyPairs(stack0) && ReadyPairs(stack1)
    requires FlatPairs(kind, stack1) == PairsDiff(kind, a, b, i) + FlatPairs(kind, stack0)
    requires PairsSize(stack1) <= SizeUpTo(a, i) + PairsSize(stack0)
    requires stack == if Paired(kind, a.kids[i], b.kids[i]) then stack1 + [Pair(a.kids[i], b.kids[i])] else stack1
    ensures ReadyPairs(stack)
    ensures FlatPairs(kind, stack) == PairsDiff(kind, a, b, i + 1) + FlatPairs(kind, stack0)
    ensures PairsSize(stack) <= SizeUpTo(a, i + 1) + PairsSize(stack0)
  {
    if Paired(kind, a.kids[i], b.kids[i]) {
      var x := DiffList(kind, a.kids[i], b.kids[i]);
      PairsUnfold(kind, a, b, i, x);
      PairsPush(kind, stack1, Pair(a.kids[i], b.kids[i]));
      Shuffle(FlatPairs(kind, stack), FlatPairs(kind, stack1), x, PairsDiff(kind, a, b, i),
              PairsDiff(kind, a, b, i + 1), FlatPairs(kind, stack0));
    } else {
      PairsUnfold(kind, a, b, i, []);
      Shuffle(FlatPairs(kind, stack), FlatPairs(kind, stack1), [], PairsDiff(kind, a, b, i),
              PairsDiff(kind, a, b, i + 1), FlatPairs(kind, stack0));
    }
  }

  lemma {:induction false} Shuffle(s: seq<Diff>, s1: seq<Diff>, x: seq<Diff>, p: seq<Diff>, q: seq<Diff>, f: seq<Diff>)
    requires s == x + s1 && s1 == p + f && q == x + p
    ensures s == q + f
  {
  }

  lemma {:induction false} PairsUnfold(kind: LeafKind, a: Tree, b: Tree, i: nat, x: seq<Diff>)
    requires a.Inner? && b.Inner? && i < |a.kids| && i < |b.kids|
    requires x == if Paired(kind, a.kids[i], b.kids[i]) then DiffList(kind, a.kids[i], b.kids[i]) else []
    ensures PairsDiff(kind, a, b, i + 1) == x + PairsDiff(kind, a, b, i)
  {
  }

  /** The leaf case of diffUnsafe, emitLeafDiff. */
  method EmitLeafDiff(a: Tree, b: Tree, out0: seq<Diff>, maxCount: int) returns (out: seq<Diff>, cont: bool)
    requires a.Leaf? && b.Leaf? && WantsMore(out0, maxCount)
    ensures cont ==> out == out0 + LeafDiff(a, b) && WantsMore(out, maxCount)
    ensures !cont ==> out <= out0 + LeafDiff(a, b) && 0 < maxCount == |out|
  {
    if a.key == b.key {
      if a.data == b.data {
        return out0, true;
      }
      out := out0 + [Modified(a.key, a.data, b.data)];
      return out, WantsMore(out, maxCount);
    }
    out := out0 + [Removed(a.key, a.data)];
    if !WantsMore(out, maxCount) {
      return out, false;
    }
    out := out + [Added(b.key, b.data)];
    cont := WantsMore(out, maxCount);
  }

  /** The cases of diffUnsafe where at least one node is a leaf. */
  method DiffLeaf(kind: LeafKind, a: Tree, b: Tree, out0: seq<Diff>, maxCount: int) returns (out: seq<Diff>, cont: bool)
    requires ReadyPair(Pair(a, b)) && (a.Leaf? || b.Leaf?) && WantsMore(out0, maxCount)
    ensures cont ==> out == out0 + DiffList(kind, a, b) && WantsMore(out, maxCount)
    ensures !cont ==> out <= out0 + DiffList(kind, a, b) && 0 < maxCount == |out|
  {
    if a.Leaf? && b.Leaf? {
      out, cont := EmitLeafDiff(a, b, out0, maxCount);
    } else if b.Leaf? {
      out, cont := WalkBranch(a, Some((b.key, b.data)), true, out0, maxCount);
    } else {
      out, cont := WalkBranch(b, Some((a.key, a.data)), false, out0, maxCount);
    }
  }

  lemma {:induction false} Extends(out: seq<Diff>, x: seq<Diff>, y: seq<Diff>)
    requires out <= x
    ensures out <= x + y
  {
  }

  /** One turn of diffUnsafe's loop. */
  method DiffTurn(kind: LeafKind, stack0: seq<Pair>, out0: seq<Diff>, maxCount: int)
    returns (stack: seq<Pair>, out: seq<Diff>, cont: bool)
    requires stack0 != [] && ReadyPairs(stack0) && WantsMore(out0, maxCount)
    ensures cont ==> ReadyPairs(stack) && WantsMore(out, maxCount)
    ensures cont ==> out + FlatPairs(kind, stack) == out0 + FlatPairs(kind, stack0)
    ensures cont ==> PairsSize(stack) < PairsSize(stack0)
    ensures !cont ==> out <= out0 + FlatPairs(kind, stack0) && 0 < maxCount == |out|
  {
    hide FlatPairs, PairsSize, DiffList, Size;
    var p := stack0[|stack0| - 1];
    var below := stack0[..|stack0| - 1];
    assert ReadyPair(p);
    assert ReadyPair(Pair(p.ours, p.theirs)) && below + [p] == stack0;
    PairsPush(kind, below, p);
    stack, out, cont := DiffPair(kind, p.ours, p.theirs, below, out0, maxCount);
    ghost var rest, list := FlatPairs(kind, below), DiffList(kind, p.ours, p.theirs);
    assert out0 + FlatPairs(kind, stack0) == (out0 + list) + rest;
    if !cont {
      Extends(out, out0 + list, rest);
    }
  }

  method DiffPair(kind: LeafKind, a: Tree, b: Tree, below: seq<Pair>, out0: seq<Diff>, maxCount: int)
    returns (stack: seq<Pair>, out: seq<Diff>, cont: bool)
    requires ReadyPair(Pair(a, b)) && ReadyPairs(below) && WantsMore(out0, maxCount)
    ensures cont ==> ReadyPairs(stack) && WantsMore(out, maxCount)
    ensures cont ==> out + FlatPairs(kind, stack) == (out0 + DiffList(kind, a, b)) + FlatPairs(kind, below)
    ensures cont ==> PairsSize(stack) < Size(a) + PairsSize(below)
    ensures !cont ==> out <= out0 + DiffList(kind, a, b) && 0 < maxCount == |out|
  {
    if a.Leaf? || b.Leaf? {
      stack := below;
      out, cont := DiffLeaf(kind, a, b, out0, maxCount);
      return;
    }
    stack, out, cont := DiffInner(kind, a, b, below, out0, maxCount);
    ghost var spot, pairs := OneSided(a.kids, b.kids, 16), PairsDiff(kind, a, b, 16);
    Regroup(out0, spot, pairs, FlatPairs(kind, below));
    if !cont {
      Extends(out, out0 + spot, pairs);
    }
  }

  lemma {:induction false} Regroup(w: seq<Diff>, x: seq<Diff>, y: seq<Diff>, z: seq<Diff>)
    ensures (w + x) + (y + z) == (w + (x + y)) + z
    ensures w + (x + y) == (w + x) + y
  {
  }

  /** CompareContext on two maps of one kind. With a limit it returns that many
      differences or all of them, and calls the report complete exactly if the
      differences are fewer than the limit. */
  method CompareMaps(kind: LeafKind, ours: Tree, theirs: Tree, maxCount: int) returns (out: seq<Diff>, complete: bool)
    requires CanonicalRoot(ours) && CanonicalRoot(theirs)
    ensures out <= FullDiff(kind, ours, theirs)
    ensures complete ==> out == FullDiff(kind, ours, theirs)
    ensures !complete ==> |out| == maxCount
    ensures complete <==> maxCount <= 0 || |FullDiff(kind, ours, theirs)| < maxCount
  {
    out := [];
    if HashOf(kind, ours) == HashOf(kind, theirs) {
      return out, true;
    }
    CanonicalFans(ours, []);
    CanonicalFans(theirs, []);
    var stack := [Pair(ours, theirs)];
    PairsPush(kind, [], Pair(ours, theirs));
    ghost var goal := FullDiff(kind, ours, theirs);
    assert [] + [Pair(ours, theirs)] == stack && goal + FlatPairs(kind, []) == goal;
    while stack != []
      invariant ReadyPairs(stack) && WantsMore(out, maxCount)
      invariant goal == out + FlatPairs(kind, stack)
      decreases PairsSize(stack)
    {
      var cont;
      stack, out, cont := DiffTurn(kind, stack, out, maxCount);
      if !cont {
        return out, false;
      }
    }
    complete := true;
  }

  lemma {:induction false} CanonicalFans(t: Tree, path: seq<Nibble>)
    requires Canonical(t, path)
    ensures Fans(t)
    decreases t
  {
    if t.Inner? {
      forall i | 0 <= i < 16
        ensures Fans(t.kids[i])
      {
        CanonicalFans(t.kids[i], path + [i]);
      }
    }
  }

  /** Everything an unlimited comparison reports. */
  ghost function FullDiff(kind: LeafKind, ours: Tree, theirs: Tree): seq<Diff>
    requires ours != Empty && theirs != Empty
  {
    if HashOf(kind, ours) == HashOf(kind, theirs) then [] else DiffList(kind, ours, theirs)
  }

  ghost function At(m: map<Key, Data>, k: Key): Option<Data> {
    if k in m then Some(m[k]) else None
  }

  /** A report of the difference of two finite maps: each differing key once, with the
      right kind and both values, and no other key. */
  ghost predicate Reports(out: seq<Diff>, m1: map<Key, Data>, m2: map<Key, Data>) {
    && (forall i :: 0 <= i < |out| ==> Delta(out[i].key, At(m1, out[i].key), At(m2, out[i].key)) == Some(out[i]))
    && (forall k: Key :: Delta(k, At(m1, k), At(m2, k)).Some? ==> exists i :: 0 <= i < |out| && out[i].key == k)
    && (forall i, j :: 0 <= i < j < |out| ==> out[i].key != out[j].key)
  }

  /** For leaves that carry their key, the unlimited report is the pointwise difference
      of the two finite maps. */
  lemma {:induction false} FullDiffIsExact(kind: LeafKind, ours: Tree, theirs: Tree)
    requires KeyOnWire(kind) && CanonicalRoot(ours) && CanonicalRoot(theirs)
    ensures Reports(FullDiff(kind, ours, theirs), Content(ours, 0), Content(theirs, 0))
  {
    hide Reports, Told;
    RootHashCommits(kind, ours);
    RootHashCommits(kind, theirs);
    TellsAll(kind, ours, theirs, []);
    ToldIsExact(kind, ours, theirs);
  }

  /** Leaves without a key hash their data only, and then two subtrees with different
      keys can look equal. Over the maps that can be made of a stock of items the report
      is exact if and only if no data is stocked under two keys on one first branch. */
  lemma {:induction false} KeylessDiffExactly(stock: iset<(Key, Data)>)
    ensures DiffsExact(stock) <==> Separated(stock)
  {
    hide Reports;
    if Separated(stock) {
      KeylessHashExactly(stock);
      forall t, u | CanonicalRoot(t) && CanonicalRoot(u) && Drawn(t, stock) && Drawn(u, stock)
        ensures Reports(FullDiff(Transaction, t, u), Content(t, 0), Content(u, 0))
      {
        TellsDrawn(t, u, [], stock);
        ToldIsExact(Transaction, t, u);
      }
    } else {
      var k1: Key, k2: Key, v: Data :|
        (k1, v) in stock && (k2, v) in stock && k1[0] == k2[0] && k1 != k2;
      OneItemMap(k1, v);
      OneItemMap(k2, v);
      SameDataNoReport(k1, k2, v);
      OneItemDrawn(k1, v, stock);
      OneItemDrawn(k2, v, stock);
    }
  }

  ghost predicate DiffsExact(stock: iset<(Key, Data)>) {
    forall t, u :: CanonicalRoot(t) && CanonicalRoot(u) && Drawn(t, stock) && Drawn(u, stock) ==>
      Reports(FullDiff(Transaction, t, u), Content(t, 0), Content(u, 0))
  }

  /** The same transaction under two keys on one branch: the maps differ, and the
      comparison reports nothing. */
  lemma {:induction false} SameDataNoReport(k1: Key, k2: Key, v: Data)
    requires k1[0] == k2[0] && k1 != k2
    ensures FullDiff(Transaction, OneItem(k1, v), OneItem(k2, v)) == []
    ensures !Reports([], Content(OneItem(k1, v), 0), Content(OneItem(k2, v), 0))
  {
    var t, u := OneItem(k1, v), OneItem(k2, v);
    SameDataSameHash(k1, k2, v);
    OneItemMap(k1, v);
    OneItemMap(k2, v);
    CanonicalPlaced(t, []);
    CanonicalPlaced(u, []);
    ContentIsLookup(t, [], k1);
    ContentIsLookup(u, [], k1);
    assert Lookup(t, k1, 0) == Lookup(t.kids[k1[0]], k1, 1) == Some(v);
    assert Lookup(u, k1, 0) == Lookup(u.kids[k1[0]], k1, 1) == None;
    assert Delta(k1, At(Content(t, 0), k1), At(Content(u, 0), k1)).Some?;
  }

  lemma {:induction false} TellsAll(kind: LeafKind, t: Tree, u: Tree, path: seq<Nibble>)
    requires KeyOnWire(kind) && Canonical(t, path) && Canonical(u, path)
    requires path == [] && HashOf(kind, t) == HashOf(kind, u) ==> t == u
    ensures Told(kind, t, u)
    decreases t
  {
    if path != [] && HashOf(kind, t) == HashOf(kind, u) {
      HashCommits(kind, t, path);
      HashCommits(kind, u, path);
    }
    if t.Inner? && u.Inner? {
      forall i | 0 <= i < 16
        ensures Told(kind, t.kids[i], u.kids[i])
      {
        TellsAll(kind, t.kids[i], u.kids[i], path + [i]);
      }
    }
  }

  lemma {:induction false} TellsDrawn(t: Tree, u: Tree, path: seq<Nibble>, stock: iset<(Key, Data)>)
    requires Canonical(t, path) && Canonical(u, path) && Drawn(t, stock) && Drawn(u, stock) && Separated(stock)
    requires path == [] && HashOf(Transaction, t) == HashOf(Transaction, u) ==> t == u
    ensures Told(Transaction, t, u)
    decreases t
  {
    if path != [] && HashOf(Transaction, t) == HashOf(Transaction, u) {
      KeylessInjective(t, u, path, stock);
    }
    if t.Inner? && u.Inner? {
      forall i | 0 <= i < 16
        ensures Told(Transaction, t.kids[i], u.kids[i])
      {
        TellsDrawn(t.kids[i], u.kids[i], path + [i], stock);
      }
    }
  }

  lemma {:induction false} ToldIsExact(kind: LeafKind, ours: Tree, theirs: Tree)
    requires Told(kind, ours, theirs) && CanonicalRoot(ours) && CanonicalRoot(theirs)
    ensures Reports(FullDiff(kind, ours, theirs), Content(ours, 0), Content(theirs, 0))
  {
    if HashOf(kind, ours) != HashOf(kind, theirs) {
      DiffListExact(kind, ours, theirs, []);
      forall k: Key
        ensures Delta(k, At(Content(ours, 0), k), At(Content(theirs, 0), k)) == DiffAt(ours, theirs, 0, k)
        ensures k in Region([])
      {
        CanonicalPlaced(ours, []);
        CanonicalPlaced(theirs, []);
        ContentIsLookup(ours, [], k);
        ContentIsLookup(theirs, [], k);
      }
    }
  }
}
