/** The value of a SHAMap: a 16-way radix tree over 64-nibble keys, what it means
    as a finite map, and the one canonical tree each finite map has.

    `Empty` stands for an unset branch. A map's root is always an `Inner`. */
module Trie {
  import opened KeyPath

  datatype Option<+T> = None | Some(value: T)

  type Data = seq<Byte>

  /** The states of a map, shamap/shamap.go. */
  datatype MapState = Modifying | Immutable | Syncing | Invalid

  datatype Tree =
    | Empty
    | Leaf(key: Key, data: Data)
    | Inner(kids: seq<Tree>)

  const NO_KIDS: seq<Tree> := [Empty, Empty, Empty, Empty, Empty, Empty, Empty, Empty,
                              Empty, Empty, Empty, Empty, Empty, Empty, Empty, Empty]

  /** Every leaf lies on the path of its own key, and inner nodes have 16 slots. */
  ghost predicate Placed(t: Tree, path: seq<Nibble>)
    decreases t
  {
    match t
    case Empty => |path| <= 64
    case Leaf(k, _) => path <= k
    case Inner(kids) =>
      && |path| < 64
      && |kids| == 16
      && forall i :: 0 <= i < 16 ==> Placed(kids[i], path + [i])
  }

  ghost function Keys(t: Tree): set<Key>
    decreases t
  {
    match t
    case Empty => {}
    case Leaf(k, _) => {k}
    case Inner(kids) => set i, k | 0 <= i < |kids| && k in Keys(kids[i]) :: k
  }

  /** The walk of walkToKey and findItem. */
  function Lookup(t: Tree, k: Key, d: nat): Option<Data>
    decreases t
  {
    match t
    case Empty => None
    case Leaf(k', v) => if k == k' then Some(v) else None
    case Inner(kids) =>
      if d < 64 && |kids| == 16 then Lookup(kids[k[d]], k, d + 1) else None
  }

  /** The finite map a tree at depth d stands for. */
  ghost function Content(t: Tree, d: nat): map<Key, Data> {
    map k | k in Keys(t) && Lookup(t, k, d).Some? :: Lookup(t, k, d).value
  }

  ghost predicate TwoKeys(t: Tree) {
    exists a, b :: a in Keys(t) && b in Keys(t) && a != b
  }

  /** The shape the source keeps: leaves on their paths, and below the root an
      inner node only where at least two leaves need it. */
  ghost predicate Canonical(t: Tree, path: seq<Nibble>)
    decreases t
  {
    match t
    case Empty => |path| <= 64
    case Leaf(k, _) => path <= k
    case Inner(kids) =>
      && |path| < 64
      && |kids| == 16
      && (path != [] ==> TwoKeys(t))
      && forall i :: 0 <= i < 16 ==> Canonical(kids[i], path + [i])
  }

  ghost predicate CanonicalRoot(t: Tree) {
    t.Inner? && Canonical(t, [])
  }

  // ------------------------------------------------------- the reference tree

  ghost function Slice(m: map<Key, Data>, d: nat, i: Nibble): map<Key, Data>
    requires d < 64
  {
    map k | k in m && k[d] == i :: m[k]
  }

  /** The tree of a finite map, built top down from the content alone: nothing,
      one leaf, or a fan-out on the next nibble. */
  ghost function Build(m: map<Key, Data>, d: nat): Tree
    decreases 64 - d, 1
  {
    if m == map[] then Empty
    else if |m| == 1 then var k :| k in m; Leaf(k, m[k])
    else if d >= 64 then Empty
    else Inner(Fan(m, d))
  }

  ghost function Fan(m: map<Key, Data>, d: nat): (r: seq<Tree>)
    requires d < 64
    ensures |r| == 16
    ensures forall i :: 0 <= i < 16 ==> r[i] == Build(Slice(m, d, i), d + 1)
    decreases 64 - d, 0
  {
    seq(16, i requires 0 <= i < 16 => Build(Slice(m, d, i), d + 1))
  }

  ghost function BuildRoot(m: map<Key, Data>): Tree {
    Inner(Fan(m, 0))
  }

  // ------------------------------------------------------------------- lemmas

  lemma {:induction false} CanonicalPlaced(t: Tree, path: seq<Nibble>)
    requires Canonical(t, path)
    ensures Placed(t, path)
    decreases t
  {
    if t.Inner? {
      forall i | 0 <= i < 16
        ensures Placed(t.kids[i], path + [i])
      {
        CanonicalPlaced(t.kids[i], path + [i]);
      }
    }
  }

  lemma {:induction false} KeysOnPath(t: Tree, path: seq<Nibble>, k: Key)
    requires Placed(t, path) && k in Keys(t)
    ensures path <= k
    decreases t
  {
    if t.Inner? {
      var i :| 0 <= i < 16 && k in Keys(t.kids[i]);
      KeysOnPath(t.kids[i], path + [i], k);
    }
  }

  /** A key below an inner node sits under the branch its next nibble names. */
  lemma {:induction false} KeyInKid(kids: seq<Tree>, path: seq<Nibble>, k: Key)
    requires Placed(Inner(kids), path)
    ensures path <= k ==> (k in Keys(Inner(kids)) <==> k in Keys(kids[k[|path|]]))
  {
    forall i | 0 <= i < 16 && k in Keys(kids[i])
      ensures k[|path|] == i
    {
      KeysOnPath(kids[i], path + [i], k);
      assert (path + [i])[|path|] == i;
    }
  }

  lemma {:induction false} LookupIsMembership(t: Tree, path: seq<Nibble>, k: Key)
    requires Placed(t, path) && path <= k
    ensures Lookup(t, k, |path|).Some? <==> k in Keys(t)
    decreases t
  {
    if t.Inner? {
      KeyInKid(t.kids, path, k);
      var i := k[|path|];
      assert path + [i] <= k;
      LookupIsMembership(t.kids[i], path + [i], k);
    }
  }

  /** Walking to a key answers exactly the finite map's question. */
  lemma {:induction false} ContentIsLookup(t: Tree, path: seq<Nibble>, k: Key)
    requires Placed(t, path) && path <= k
    ensures k in Content(t, |path|) <==> Lookup(t, k, |path|).Some?
    ensures k in Content(t, |path|) ==> Content(t, |path|)[k] == Lookup(t, k, |path|).value
  {
    LookupIsMembership(t, path, k);
  }

  lemma {:induction false} ContentKeys(t: Tree, path: seq<Nibble>)
    requires Placed(t, path)
    ensures Content(t, |path|).Keys == Keys(t)
    ensures forall k :: k in Content(t, |path|) ==> path <= k
  {
    forall k | k in Keys(t)
      ensures path <= k && k in Content(t, |path|)
    {
      KeysOnPath(t, path, k);
      LookupIsMembership(t, path, k);
    }
  }

  lemma {:induction false} KidContentAt(kids: seq<Tree>, path: seq<Nibble>, i: Nibble, k: Key)
    requires Placed(Inner(kids), path) && Placed(kids[i], path + [i])
    ensures k in Content(kids[i], |path| + 1) <==> k in Content(Inner(kids), |path|) && k[|path|] == i
    ensures k in Content(kids[i], |path| + 1) ==> Content(kids[i], |path| + 1)[k] == Content(Inner(kids), |path|)[k]
  {
    if k in Keys(kids[i]) {
      KeysOnPath(kids[i], path + [i], k);
      assert (path + [i])[|path|] == i;
      assert path <= path + [i];
    }
    if k in Keys(Inner(kids)) {
      KeysOnPath(Inner(kids), path, k);
    }
    if path <= k {
      ContentIsLookup(Inner(kids), path, k);
      if k[|path|] == i {
        assert path + [i] <= k;
        ContentIsLookup(kids[i], path + [i], k);
      }
    }
  }

  lemma {:induction false} KidContent(kids: seq<Tree>, path: seq<Nibble>, i: Nibble)
    requires Placed(Inner(kids), path)
    ensures Content(kids[i], |path| + 1) == Slice(Content(Inner(kids), |path|), |path|, i)
  {
    forall k: Key
      ensures k in Content(kids[i], |path| + 1) <==> k in Content(Inner(kids), |path|) && k[|path|] == i
      ensures k in Content(kids[i], |path| + 1) ==> Content(kids[i], |path| + 1)[k] == Content(Inner(kids), |path|)[k]
    {
      KidContentAt(kids, path, i, k);
    }
  }

  lemma {:induction false} SingletonMap(m: map<Key, Data>, k: Key)
    requires k in m && forall j :: j in m ==> j == k
    ensures |m| == 1 && m == map[k := m[k]]
  {
    assert m.Keys == {k};
  }

  lemma {:induction false} OnlyKeyOf(m: map<Key, Data>, a: Key, b: Key)
    requires a in m && b in m && a != b
    ensures |m| != 1
  {
    assert m.Keys == {a} + (m.Keys - {a});
    assert b in m.Keys - {a};
  }

  /** A canonical tree is the reference tree of its content: the shape carries no
      trace of the order in which the content came about. */
  lemma {:induction false} CanonicalIsBuild(t: Tree, path: seq<Nibble>)
    requires Canonical(t, path) && path != []
    ensures t == Build(Content(t, |path|), |path|)
    decreases t
  {
    CanonicalPlaced(t, path);
    ContentKeys(t, path);
    var m := Content(t, |path|);
    match t
    case Empty =>
    case Leaf(k, v) =>
      SingletonMap(m, k);
    case Inner(kids) =>
      var a, b :| a in Keys(t) && b in Keys(t) && a != b;
      OnlyKeyOf(m, a, b);
      KidsAreBuilt(t, path);
  }

  lemma {:induction false} KidsAreBuilt(t: Tree, path: seq<Nibble>)
    requires t.Inner? && Canonical(t, path)
    ensures t.kids == Fan(Content(t, |path|), |path|)
    decreases t, 0
  {
    CanonicalPlaced(t, path);
    hide Content, Slice, Build, Lookup, Keys, Placed, TwoKeys;
    forall i | 0 <= i < 16
      ensures t.kids[i] == Build(Slice(Content(t, |path|), |path|, i), |path| + 1)
    {
      KidContent(t.kids, path, i);
      CanonicalIsBuild(t.kids[i], path + [i]);
    }
  }

  lemma {:induction false} CanonicalRootIsBuild(t: Tree)
    requires CanonicalRoot(t)
    ensures t == BuildRoot(Content(t, 0))
  {
    KidsAreBuilt(t, []);
  }

  ghost predicate Under(m: map<Key, Data>, path: seq<Nibble>) {
    |path| <= 64 && forall k :: k in m ==> path <= k
  }

  lemma {:induction false} SliceUnder(m: map<Key, Data>, path: seq<Nibble>, i: Nibble)
    requires Under(m, path) && |path| < 64
    ensures Under(Slice(m, |path|, i), path + [i])
  {
  }

  lemma {:induction false} FullPathSingle(m: map<Key, Data>, path: seq<Nibble>)
    requires Under(m, path) && |path| == 64 && m != map[]
    ensures |m| == 1
  {
    var k :| k in m;
    SingletonMap(m, k);
  }

  /** Conversely the reference tree has the canonical shape and exactly the given
      content, so every finite map has one canonical tree. */
  lemma {:induction false} BuildIsCanonical(m: map<Key, Data>, path: seq<Nibble>)
    requires Under(m, path) && path != []
    ensures Canonical(Build(m, |path|), path)
    ensures Content(Build(m, |path|), |path|) == m
    decreases 64 - |path|
  {
    var t := Build(m, |path|);
    if m == map[] {
    } else if |m| == 1 {
      var k :| k in m && t == Leaf(k, m[k]);
      forall j | j in m
        ensures j == k
      {
        if j != k {
          OnlyKeyOf(m, j, k);
        }
      }
      SingletonMap(m, k);
    } else {
      if |path| == 64 {
        FullPathSingle(m, path);
      }
      FanIsCanonical(m, path);
    }
  }

  /** The fan-out step shared by the root and the nodes below it. */
  lemma {:induction false} FanIsCanonical(m: map<Key, Data>, path: seq<Nibble>)
    requires Under(m, path) && |path| < 64
    requires path != [] ==> |m| > 1
    ensures Canonical(Inner(Fan(m, |path|)), path) && Content(Inner(Fan(m, |path|)), |path|) == m
    decreases 64 - |path|, 0
  {
    var kids := Fan(m, |path|);
    forall i | 0 <= i < 16
      ensures Canonical(kids[i], path + [i]) && Placed(kids[i], path + [i])
      ensures Content(kids[i], |path| + 1) == Slice(m, |path|, i)
    {
      SliceUnder(m, path, i);
      BuildIsCanonical(Slice(m, |path|, i), path + [i]);
      CanonicalPlaced(kids[i], path + [i]);
    }
    SlicesMakeContent(kids, m, path);
    if path != [] {
      MoreThanOne(m);
      ContentKeys(Inner(kids), path);
    }
  }

  lemma {:induction false} SlicesMakeContent(kids: seq<Tree>, m: map<Key, Data>, path: seq<Nibble>)
    requires Placed(Inner(kids), path) && Under(m, path)
    requires forall i :: 0 <= i < 16 ==> Content(kids[i], |path| + 1) == Slice(m, |path|, i)
    ensures Content(Inner(kids), |path|) == m
  {
    ContentKeys(Inner(kids), path);
    forall k: Key
      ensures k in m <==> k in Content(Inner(kids), |path|)
      ensures k in m ==> m[k] == Content(Inner(kids), |path|)[k]
    {
      if path <= k {
        KidContentAt(kids, path, k[|path|], k);
        assert k in m <==> k in Slice(m, |path|, k[|path|]);
      }
    }
  }

  lemma {:induction false} MoreThanOne(m: map<Key, Data>)
    requires |m| > 1
    ensures exists a, b :: a in m && b in m && a != b
  {
    assert m.Keys != {};
    var a :| a in m;
    assert m.Keys != {a};
  }

  lemma {:induction false} BuildRootIsCanonical(m: map<Key, Data>)
    ensures CanonicalRoot(BuildRoot(m))
    ensures Content(BuildRoot(m), 0) == m
  {
    FanIsCanonical(m, []);
  }

  /** Determinism: two canonical roots with the same content are the same tree. */
  lemma {:induction false} ContentDeterminesTree(t: Tree, u: Tree)
    requires CanonicalRoot(t) && CanonicalRoot(u)
    ensures t == u <==> Content(t, 0) == Content(u, 0)
  {
    CanonicalRootIsBuild(t);
    CanonicalRootIsBuild(u);
  }
}
