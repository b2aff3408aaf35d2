/** Ordered access: bounds and iterators of shamap/iterator.go, and the leaf walks of
    shamap/traverse.go.

    UpperBound and LowerBound are mirror images in the source. Both are written once
    here, over a direction: ascending looks for the least key above the argument,
    descending for the greatest key below it. */
module Iteration {
  import opened KeyPath
  import opened Trie

  type Item = (Key, Data)

  /** b lies strictly beyond a in the given direction. */
  ghost predicate Beyond(a: Key, b: Key, asc: bool) {
    if asc then Below(a, b) else Below(b, a)
  }

  predicate BranchBeyond(i: int, j: int, asc: bool) {
    if asc then i < j else j < i
  }

  lemma {:induction false} BelowIrreflexive(a: Key)
    ensures !Below(a, a)
  {
  }

  ghost function FirstDifference(a: Key, b: Key, i: nat): (r: nat)
    requires i < 64 && a[..i] == b[..i] && a != b
    ensures i <= r < 64 && a[r] != b[r] && a[..r] == b[..r]
    decreases 64 - i
  {
    assert a[..i + 1] == a[..i] + [a[i]] && b[..i + 1] == b[..i] + [b[i]];
    if a[i] != b[i] || i == 63 then
      assert i == 63 ==> a == a[..i + 1] && b == b[..i + 1];
      i
    else FirstDifference(a, b, i + 1)
  }

  lemma {:induction false} BelowTransitive(a: Key, b: Key, c: Key)
    requires Below(a, b) && Below(b, c)
    ensures Below(a, c)
  {
    var i :| 0 <= i < 64 && a[i] < b[i] && a[..i] == b[..i];
    var j :| 0 <= j < 64 && b[j] < c[j] && b[..j] == c[..j];
    var m := if i < j then i else j;
    assert a[..m] == a[..i][..m] && b[..m] == b[..i][..m] && c[..m] == c[..j][..m] && b[..m] == b[..j][..m];
    if i < j {
      assert b[..j][i] == c[..j][i];
    } else if j < i {
      assert a[..i][j] == b[..i][j];
    }
    assert a[m] < c[m] && a[..m] == c[..m];
  }

  lemma {:induction false} BeyondTransitive(a: Key, b: Key, c: Key, asc: bool)
    requires Beyond(a, b, asc) && Beyond(b, c, asc)
    ensures Beyond(a, c, asc)
  {
    if asc {
      BelowTransitive(a, b, c);
    } else {
      BelowTransitive(c, b, a);
    }
  }

  lemma {:induction false} BeyondIrreflexive(a: Key, asc: bool)
    ensures !Beyond(a, a, asc)
  {
    BelowIrreflexive(a);
  }

  /** Keys that part at a branch are ordered by that branch. */
  lemma {:induction false} BranchOrders(path: seq<Nibble>, a: Key, b: Key, asc: bool)
    requires |path| < 64 && path <= a && path <= b && BranchBeyond(a[|path|], b[|path|], asc)
    ensures Beyond(a, b, asc)
  {
    assert a[..|path|] == path && b[..|path|] == path;
  }

  // -------------------------------------------------------------- extreme leaf

  /** The result is the first item of the tree in the given direction. */
  ghost predicate IsFirst(t: Tree, d: nat, r: Option<Item>, asc: bool) {
    && (r.None? ==> Keys(t) == {})
    && (r.Some? ==> r.value.0 in Keys(t) && Lookup(t, r.value.0, d) == Some(r.value.1))
    && (r.Some? ==> forall k :: k in Keys(t) && k != r.value.0 ==> Beyond(r.value.0, k, asc))
  }

  /** boundBelowCtx: descend into the first child that yields a leaf. */
  method BoundBelow(t: Tree, asc: bool, ghost path: seq<Nibble>) returns (r: Option<Item>)
    requires Placed(t, path)
    ensures IsFirst(t, |path|, r, asc)
    decreases t
  {
    if t.Empty? {
      return None;
    }
    if t.Leaf? {
      return Some((t.key, t.data));
    }
    var n := 0;
    while n < 16
      invariant 0 <= n <= 16
      invariant forall m :: 0 <= m < n ==> Keys(t.kids[Turn(m, asc)]) == {}
    {
      var i := Turn(n, asc);
      r := BoundBelow(t.kids[i], asc, path + [i]);
      if r.Some? {
        FirstOfKid(t, path, n, r, asc);
        return;
      }
      n := n + 1;
    }
    AllKidsEmpty(t, asc);
    r := None;
  }

  /** The n-th branch to look at: 0, 1, 2, ... ascending and 15, 14, 13, ... descending. */
  function Turn(n: nat, asc: bool): (i: Nibble)
    requires n < 16
    ensures i == if asc then n else 15 - n
  {
    if asc then n else 15 - n
  }

  function FirstTurnPast(branch: int, asc: bool): (n: nat)
    requires 0 <= branch < 16
    ensures n == if asc then branch + 1 else 16 - branch
  {
    if asc then branch + 1 else 16 - branch
  }

  lemma {:induction false} AllKidsEmpty(t: Tree, asc: bool)
    requires t.Inner? && |t.kids| == 16
    requires forall m :: 0 <= m < 16 ==> Keys(t.kids[Turn(m, asc)]) == {}
    ensures Keys(t) == {}
  {
    forall i | 0 <= i < 16
      ensures Keys(t.kids[i]) == {}
    {
      var m := if asc then i else 15 - i;
      assert Turn(m, asc) == i;
    }
  }

  lemma {:induction false} FirstOfKid(t: Tree, path: seq<Nibble>, n: nat, r: Option<Item>, asc: bool)
    requires t.Inner? && Placed(t, path) && n < 16 && r.Some?
    requires forall m :: 0 <= m < n ==> Keys(t.kids[Turn(m, asc)]) == {}
    requires IsFirst(t.kids[Turn(n, asc)], |path| + 1, r, asc)
    ensures IsFirst(t, |path|, r, asc)
  {
    var i := Turn(n, asc);
    var k0 := r.value.0;
    KeyUnder(t, path, i, k0);
    forall k | k in Keys(t) && k != k0
      ensures Beyond(k0, k, asc)
    {
      var j :| 0 <= j < 16 && k in Keys(t.kids[j]);
      KeyUnder(t, path, j, k);
      if j != i {
        var m := if asc then j else 15 - j;
        assert Turn(m, asc) == j;
        BranchOrders(path, k0, k, asc);
      }
    }
  }

  lemma {:induction false} KeyUnder(t: Tree, path: seq<Nibble>, i: Nibble, k: Key)
    requires t.Inner? && Placed(t, path) && k in Keys(t.kids[i])
    ensures path <= k && k[|path|] == i && k in Keys(t)
    ensures Lookup(t, k, |path|) == Lookup(t.kids[i], k, |path| + 1)
  {
    KeysOnPath(t.kids[i], path + [i], k);
    assert (path + [i])[|path|] == i;
    assert path <= path + [i];
  }

  // -------------------------------------------------------------------- bounds

  /** The result is the nearest item of the tree strictly beyond id. */
  ghost predicate IsBound(t: Tree, d: nat, id: Key, r: Option<Item>, asc: bool) {
    && (r.None? ==> forall k :: k in Keys(t) ==> !Beyond(id, k, asc))
    && (r.Some? ==> r.value.0 in Keys(t) && Lookup(t, r.value.0, d) == Some(r.value.1) && Beyond(id, r.value.0, asc))
    && (r.Some? ==> forall k :: k in Keys(t) && Beyond(id, k, asc) && k != r.value.0 ==> Beyond(r.value.0, k, asc))
  }

  /** As IsBound, counting only the branches past the one leading to id. */
  ghost predicate IsAside(t: Tree, d: nat, id: Key, item: Item, asc: bool)
    requires d < 64
  {
    && item.0 in Keys(t) && Lookup(t, item.0, d) == Some(item.1) && BranchBeyond(id[d], item.0[d], asc)
    && forall k :: k in Keys(t) && BranchBeyond(id[d], k[d], asc) && k != item.0 ==> Beyond(item.0, k, asc)
  }

  /** The search in one inner node for the branches after the one leading to id. */
  method AfterBranch(t: Tree, id: Key, d: nat, asc: bool) returns (r: Option<Item>)
    requires d < 64 && t.Inner? && Placed(t, id[..d])
    ensures r.None? ==> forall i :: 0 <= i < 16 && BranchBeyond(id[d], i, asc) ==> Keys(t.kids[i]) == {}
    ensures r.Some? ==> IsAside(t, d, id, r.value, asc)
  {
    var start := FirstTurnPast(id[d], asc);
    var n := start;
    while n < 16
      invariant start <= n <= 16
      invariant forall m :: start <= m < n ==> Keys(t.kids[Turn(m, asc)]) == {}
    {
      var i := Turn(n, asc);
      r := BoundBelow(t.kids[i], asc, id[..d] + [i]);
      if r.Some? {
        FirstAside(t, d, id, start, n, r, asc);
        return;
      }
      n := n + 1;
    }
    forall i | 0 <= i < 16 && BranchBeyond(id[d], i, asc)
      ensures Keys(t.kids[i]) == {}
    {
      var m := if asc then i else 15 - i;
      assert Turn(m, asc) == i;
    }
    r := None;
  }

  lemma {:induction false} FirstAside(t: Tree, d: nat, id: Key, start: nat, n: nat, r: Option<Item>, asc: bool)
    requires d < 64 && t.Inner? && Placed(t, id[..d]) && r.Some?
    requires start == FirstTurnPast(id[d], asc) && start <= n < 16
    requires forall m :: start <= m < n ==> Keys(t.kids[Turn(m, asc)]) == {}
    requires IsFirst(t.kids[Turn(n, asc)], d + 1, r, asc)
    ensures IsAside(t, d, id, r.value, asc)
  {
    var i := Turn(n, asc);
    var k0 := r.value.0;
    KeyUnder(t, id[..d], i, k0);
    forall k | k in Keys(t) && BranchBeyond(id[d], k[d], asc) && k != k0
      ensures Beyond(k0, k, asc)
    {
      var j :| 0 <= j < 16 && k in Keys(t.kids[j]);
      KeyUnder(t, id[..d], j, k);
      if j != i {
        var m := if asc then j else 15 - j;
        assert Turn(m, asc) == j;
        BranchOrders(id[..d], k0, k, asc);
      }
    }
  }

  /** An answer in id's own branch is the answer for the whole node. */
  lemma {:induction false} BoundFromKid(t: Tree, d: nat, id: Key, r: Option<Item>, asc: bool)
    requires d < 64 && t.Inner? && Placed(t, id[..d]) && r.Some?
    requires IsBound(t.kids[id[d]], d + 1, id, r, asc)
    ensures IsBound(t, d, id, r, asc)
  {
    var k0 := r.value.0;
    KeyUnder(t, id[..d], id[d], k0);
    forall k | k in Keys(t) && Beyond(id, k, asc) && k != k0
      ensures Beyond(k0, k, asc)
    {
      var j :| 0 <= j < 16 && k in Keys(t.kids[j]);
      KeyUnder(t, id[..d], j, k);
      if j != id[d] {
        BeyondBranch(id[..d], id, k, asc);
        BranchOrders(id[..d], k0, k, asc);
      }
    }
  }

  lemma {:induction false} BeyondBranch(path: seq<Nibble>, a: Key, b: Key, asc: bool)
    requires |path| < 64 && path <= a && path <= b && Beyond(a, b, asc) && a[|path|] != b[|path|]
    ensures BranchBeyond(a[|path|], b[|path|], asc)
  {
    if !BranchBeyond(a[|path|], b[|path|], asc) {
      BranchOrders(path, b, a, asc);
      BeyondTransitive(a, b, a, asc);
      BeyondIrreflexive(a, asc);
    }
  }

  /** No answer in id's branch: the answer is the one aside, if there is one. */
  lemma {:induction false} BoundFromAside(t: Tree, d: nat, id: Key, r: Option<Item>, asc: bool)
    requires d < 64 && t.Inner? && Placed(t, id[..d])
    requires IsBound(t.kids[id[d]], d + 1, id, None, asc)
    requires r.Some? ==> IsAside(t, d, id, r.value, asc)
    requires r.None? ==> forall i :: 0 <= i < 16 && BranchBeyond(id[d], i, asc) ==> Keys(t.kids[i]) == {}
    ensures IsBound(t, d, id, r, asc)
  {
    forall k | k in Keys(t) && Beyond(id, k, asc)
      ensures BranchBeyond(id[d], k[d], asc) && r.Some?
    {
      var j :| 0 <= j < 16 && k in Keys(t.kids[j]);
      KeyUnder(t, id[..d], j, k);
      BeyondBranch(id[..d], id, k, asc);
    }
    if r.Some? {
      KeysOnPath(t, id[..d], r.value.0);
      BranchOrders(id[..d], id, r.value.0, asc);
    }
  }

  /** The nodes walkBoundStack passed, root first, and what the walk ended in. */
  ghost predicate Walked(stack: seq<Tree>, id: Key) {
    && |stack| <= 64
    && (forall j :: 0 <= j < |stack| ==> stack[j].Inner? && Placed(stack[j], id[..j]))
    && (forall j :: 0 <= j < |stack| - 1 ==> stack[j + 1] == stack[j].kids[id[j]])
  }

  /** walkBoundStack: the inner nodes toward id, and the leaf or empty slot below. */
  method WalkBoundStack(root: Tree, id: Key) returns (stack: seq<Tree>, end: Tree)
    requires root.Inner? && Placed(root, [])
    ensures |stack| >= 1 && stack[0] == root && Walked(stack, id)
    ensures !end.Inner? && end == stack[|stack| - 1].kids[id[|stack| - 1]]
  {
    assert id[..0] == [];
    stack := [root];
    end := root.kids[id[0]];
    while end.Inner?
      invariant |stack| >= 1 && stack[0] == root && Walked(stack, id)
      invariant end == stack[|stack| - 1].kids[id[|stack| - 1]]
      decreases end
    {
      WalkedGrows(stack, id);
      stack := stack + [end];
      end := end.kids[id[|stack| - 1]];
    }
  }

  lemma {:induction false} WalkedGrows(stack: seq<Tree>, id: Key)
    requires |stack| >= 1 && Walked(stack, id) && stack[|stack| - 1].kids[id[|stack| - 1]].Inner?
    ensures |stack| < 64 && Walked(stack + [stack[|stack| - 1].kids[id[|stack| - 1]]], id)
    ensures |stack[|stack| - 1].kids[id[|stack| - 1]].kids| == 16
  {
    var d := |stack| - 1;
    assert Placed(stack[d], id[..d]);
    assert id[..d] + [id[d]] == id[..d + 1];
    assert Placed(stack[d].kids[id[d]], id[..d + 1]);
  }

  /** upperBoundUnsafe (ascending) and lowerBoundUnsafe (descending): the nearest item
      of the map strictly beyond id. */
  method BoundUnsafe(root: Tree, id: Key, asc: bool) returns (r: Option<Item>)
    requires root.Inner? && Placed(root, [])
    ensures IsBound(root, 0, id, r, asc)
  {
    var stack, end := WalkBoundStack(root, id);
    r := LeafBound(end, id, |stack|, asc);
    if r.Some? {
      LiftBound(stack, id, |stack| - 1, r, asc);
      return;
    }
    var j := |stack|;
    while j > 0
      invariant 0 <= j <= |stack|
      invariant j == |stack| ==> IsBound(end, j, id, None, asc)
      invariant j < |stack| ==> IsBound(stack[j], j, id, None, asc)
    {
      j := j - 1;
      r := BoundAt(stack, end, id, j, asc);
      if r.Some? {
        if j > 0 {
          LiftBound(stack, id, j - 1, r, asc);
        }
        return;
      }
    }
    r := None;
  }

  method LeafBound(end: Tree, id: Key, d: nat, asc: bool) returns (r: Option<Item>)
    requires !end.Inner?
    ensures IsBound(end, d, id, r, asc)
  {
    r := None;
    if end.Leaf? {
      var c := CompareKeys(end.key, id);
      if (asc && c > 0) || (!asc && c < 0) {
        r := Some((end.key, end.data));
      }
    }
  }

  /** compareKeys. */
  method CompareKeys(a: Key, b: Key) returns (c: int)
    ensures c < 0 <==> Below(a, b)
    ensures c > 0 <==> Below(b, a)
    ensures c == 0 <==> a == b
  {
    BelowIrreflexive(a);
    for i := 0 to 64
      invariant a[..i] == b[..i]
    {
      if a[i] != b[i] {
        if Below(a, b) && Below(b, a) {
          BelowTransitive(a, b, a);
        }
        return if a[i] < b[i] then -1 else 1;
      }
      assert a[..i + 1] == a[..i] + [a[i]] && b[..i + 1] == b[..i] + [b[i]];
    }
    assert a == a[..64] && b == b[..64];
    c := 0;
  }

  method BoundAt(stack: seq<Tree>, end: Tree, id: Key, j: nat, asc: bool) returns (r: Option<Item>)
    requires Walked(stack, id) && j < |stack|
    requires end == stack[|stack| - 1].kids[id[|stack| - 1]]
    requires IsBound(if j + 1 == |stack| then end else stack[j + 1], j + 1, id, None, asc)
    ensures IsBound(stack[j], j, id, r, asc)
  {
    assert Placed(stack[j], id[..j]);
    r := AfterBranch(stack[j], id, j, asc);
    BoundFromAside(stack[j], j, id, r, asc);
  }

  lemma {:induction false} LiftBound(stack: seq<Tree>, id: Key, j: nat, r: Option<Item>, asc: bool)
    requires Walked(stack, id) && j < |stack| && r.Some?
    requires IsBound(stack[j].kids[id[j]], j + 1, id, r, asc)
    ensures IsBound(stack[0], 0, id, r, asc)
    decreases j
  {
    assert Placed(stack[j], id[..j]);
    BoundFromKid(stack[j], j, id, r, asc);
    if j > 0 {
      LiftBound(stack, id, j - 1, r, asc);
    }
  }

  // ------------------------------------------------------------------ in order

  /** The items in the order of a branch-by-branch walk. */
  ghost function LeavesAsc(t: Tree): seq<Item>
    decreases t, 0
  {
    match t
    case Empty => []
    case Leaf(k, v) => [(k, v)]
    case Inner(kids) => AscUpTo(t, |kids|)
  }

  ghost function AscUpTo(t: Tree, n: nat): seq<Item>
    requires t.Inner? && n <= |t.kids|
    decreases t, 0, n
  {
    if n == 0 then [] else AscUpTo(t, n - 1) + LeavesAsc(t.kids[n - 1])
  }

  ghost predicate Sorted(items: seq<Item>) {
    forall i, j :: 0 <= i < j < |items| ==> Below(items[i].0, items[j].0)
  }

  /** The list holds exactly the items of the tree whose next branch is below n. */
  ghost predicate Lists(items: seq<Item>, t: Tree, d: nat, n: int)
    requires d <= 64
  {
    && (forall i :: 0 <= i < |items| ==> items[i].0 in Keys(t) && Lookup(t, items[i].0, d) == Some(items[i].1))
    && (forall i :: 0 <= i < |items| && d < 64 ==> items[i].0[d] < n)
    && (forall k :: k in Keys(t) && (d < 64 ==> k[d] < n) ==> exists i :: 0 <= i < |items| && items[i].0 == k)
  }

  lemma {:induction false} AscIsSorted(t: Tree, path: seq<Nibble>)
    requires Placed(t, path)
    ensures Sorted(LeavesAsc(t)) && Lists(LeavesAsc(t), t, |path|, 16)
    decreases t, 0
  {
    if t.Inner? {
      AscUpToSorted(t, path, |t.kids|);
    } else if t.Leaf? {
      assert LeavesAsc(t)[0].0 == t.key;
    }
  }

  lemma {:induction false} AscUpToSorted(t: Tree, path: seq<Nibble>, n: nat)
    requires t.Inner? && Placed(t, path) && n <= 16
    ensures Sorted(AscUpTo(t, n)) && Lists(AscUpTo(t, n), t, |path|, n)
    decreases t, 0, n
  {
    if n > 0 {
      AscUpToSorted(t, path, n - 1);
      AscIsSorted(t.kids[n - 1], path + [n - 1]);
      AppendKid(AscUpTo(t, n - 1), LeavesAsc(t.kids[n - 1]), t, path, n);
    }
  }

  lemma {:induction false} AppendKid(before: seq<Item>, kid: seq<Item>, t: Tree, path: seq<Nibble>, n: nat)
    requires t.Inner? && Placed(t, path) && 1 <= n <= 16
    requires Sorted(before) && Lists(before, t, |path|, n - 1)
    requires Sorted(kid) && Lists(kid, t.kids[n - 1], |path| + 1, 16)
    ensures Sorted(before + kid) && Lists(before + kid, t, |path|, n)
  {
    hide Sorted, Lists;
    KidItems(kid, t, path, n);
    AppendSorted(before, kid, t, path, n);
    AppendLists(before, kid, t, path, n);
  }

  /** Every item of a kid lies under its branch. */
  ghost predicate UnderKid(kid: seq<Item>, t: Tree, path: seq<Nibble>, i: int)
    requires |path| < 64
  {
    forall j :: 0 <= j < |kid| ==>
      path <= kid[j].0 && kid[j].0[|path|] == i && kid[j].0 in Keys(t) && Lookup(t, kid[j].0, |path|) == Some(kid[j].1)
  }

  lemma {:induction false} KidItems(kid: seq<Item>, t: Tree, path: seq<Nibble>, n: nat)
    requires t.Inner? && Placed(t, path) && 1 <= n <= 16 && Lists(kid, t.kids[n - 1], |path| + 1, 16)
    ensures UnderKid(kid, t, path, n - 1)
  {
    forall i | 0 <= i < |kid|
      ensures path <= kid[i].0 && kid[i].0[|path|] == n - 1 && kid[i].0 in Keys(t)
      ensures Lookup(t, kid[i].0, |path|) == Some(kid[i].1)
    {
      KeyUnder(t, path, n - 1, kid[i].0);
    }
  }

  lemma {:induction false} AppendSorted(before: seq<Item>, kid: seq<Item>, t: Tree, path: seq<Nibble>, n: nat)
    requires t.Inner? && Placed(t, path) && 1 <= n <= 16
    requires Sorted(before) && Lists(before, t, |path|, n - 1) && Sorted(kid) && UnderKid(kid, t, path, n - 1)
    ensures Sorted(before + kid)
  {
    forall i, j | 0 <= i < |before| && 0 <= j < |kid|
      ensures Below(before[i].0, kid[j].0)
    {
      KeysOnPath(t, path, before[i].0);
      BranchOrders(path, before[i].0, kid[j].0, true);
    }
  }

  lemma {:induction false} AppendLists(before: seq<Item>, kid: seq<Item>, t: Tree, path: seq<Nibble>, n: nat)
    requires t.Inner? && Placed(t, path) && 1 <= n <= 16
    requires Lists(before, t, |path|, n - 1) && Lists(kid, t.kids[n - 1], |path| + 1, 16)
      && UnderKid(kid, t, path, n - 1)
    ensures Lists(before + kid, t, |path|, n)
  {
    var all := before + kid;
    forall k | k in Keys(t) && k[|path|] < n
      ensures exists i :: 0 <= i < |all| && all[i].0 == k
    {
      if k[|path|] < n - 1 {
        var i :| 0 <= i < |before| && before[i].0 == k;
        assert all[i].0 == k;
      } else {
        FoundInKid(t, path, n - 1, k);
        var i :| 0 <= i < |kid| && kid[i].0 == k;
        assert all[|before| + i].0 == k;
      }
    }
  }

  lemma {:induction false} FoundInKid(t: Tree, path: seq<Nibble>, i: Nibble, k: Key)
    requires t.Inner? && Placed(t, path) && k in Keys(t) && k[|path|] == i
    ensures k in Keys(t.kids[i])
  {
    var j :| 0 <= j < 16 && k in Keys(t.kids[j]);
    KeyUnder(t, path, j, k);
  }

  /** A walk that stops after the first item the callback refuses. */
  ghost function Through(items: seq<Item>, fn: Item -> bool): seq<Item> {
    if items == [] then []
    else if fn(items[0]) then [items[0]] + Through(items[1..], fn)
    else [items[0]]
  }

  ghost predicate AllWanted(items: seq<Item>, fn: Item -> bool) {
    forall i :: 0 <= i < |items| ==> fn(items[i])
  }

  lemma {:induction false} ThroughAll(items: seq<Item>, fn: Item -> bool)
    ensures AllWanted(items, fn) ==> Through(items, fn) == items
    decreases |items|
  {
    if items != [] {
      ThroughAll(items[1..], fn);
    }
  }

  lemma {:induction false} ThroughAppend(a: seq<Item>, b: seq<Item>, fn: Item -> bool)
    ensures AllWanted(a, fn) ==> Through(a + b, fn) == a + Through(b, fn)
    ensures !AllWanted(a, fn) ==> Through(a + b, fn) == Through(a, fn)
    decreases |a|
  {
    if a == [] {
      assert a + b == b;
    } else {
      assert (a + b)[1..] == a[1..] + b;
      ThroughAppend(a[1..], b, fn);
      if fn(a[0]) {
        assert AllWanted(a, fn) <==> AllWanted(a[1..], fn) by {
          assert forall i :: 1 <= i < |a| ==> a[i] == a[1..][i - 1];
        }
      }
    }
  }

  lemma {:induction false} AscPrefix(t: Tree, i: nat, n: nat)
    requires t.Inner? && i <= n <= |t.kids|
    ensures AscUpTo(t, i) <= AscUpTo(t, n)
    decreases n
  {
    if i < n {
      AscPrefix(t, i, n - 1);
    }
  }

  /** A refusal inside one kid ends the whole walk there. */
  lemma {:induction false} StopsInside(t: Tree, i: nat, fn: Item -> bool)
    requires t.Inner? && i < |t.kids| && AllWanted(AscUpTo(t, i), fn) && !AllWanted(LeavesAsc(t.kids[i]), fn)
    ensures Through(LeavesAsc(t), fn) == AscUpTo(t, i) + Through(LeavesAsc(t.kids[i]), fn)
    ensures !AllWanted(LeavesAsc(t), fn)
  {
    var all, upTo := LeavesAsc(t), AscUpTo(t, i + 1);
    AscPrefix(t, i + 1, |t.kids|);
    assert all == upTo + all[|upTo|..];
    ThroughAppend(AscUpTo(t, i), LeavesAsc(t.kids[i]), fn);
    var j :| 0 <= j < |LeavesAsc(t.kids[i])| && !fn(LeavesAsc(t.kids[i])[j]);
    assert !fn(upTo[|AscUpTo(t, i)| + j]) && !fn(all[|AscUpTo(t, i)| + j]);
    ThroughAppend(upTo, all[|upTo|..], fn);
  }

  /** walkLeavesRec: visits the items in ascending key order until the callback stops
      it. */
  method WalkLeaves(t: Tree, fn: Item -> bool) returns (seen: seq<Item>, cont: bool)
    ensures seen == Through(LeavesAsc(t), fn)
    ensures cont <==> AllWanted(LeavesAsc(t), fn)
    decreases t
  {
    if t.Empty? {
      return [], true;
    }
    if t.Leaf? {
      return [(t.key, t.data)], fn((t.key, t.data));
    }
    seen := [];
    var i := 0;
    while i < |t.kids|
      invariant 0 <= i <= |t.kids|
      invariant seen == AscUpTo(t, i) && AllWanted(AscUpTo(t, i), fn)
    {
      var more;
      more, cont := WalkLeaves(t.kids[i], fn);
      seen := seen + more;
      if !cont {
        StopsInside(t, i, fn);
        return;
      }
      ThroughAll(LeavesAsc(t.kids[i]), fn);
      i := i + 1;
    }
    ThroughAll(LeavesAsc(t), fn);
    cont := true;
  }

  // ----------------------------------------------------------------- iterators

  ghost predicate AllAbove(items: seq<Item>, n: nat, id: Key)
    requires n <= |items|
  {
    && (forall i :: 0 <= i < n ==> !Below(id, items[i].0))
    && (forall i :: n <= i < |items| ==> Below(id, items[i].0))
  }

  /** In a sorted list of all items, the bound above id is the first item above it. */
  lemma {:induction false} BoundIsListed(t: Tree, items: seq<Item>, n: nat, id: Key, r: Option<Item>)
    requires Sorted(items) && Lists(items, t, 0, 16) && n <= |items| && AllAbove(items, n, id)
    requires IsBound(t, 0, id, r, true)
    ensures r == if n < |items| then Some(items[n]) else None
  {
    if n < |items| {
      assert items[n].0 in Keys(t) && Beyond(id, items[n].0, true);
      var j := IndexOf(items, t, r.value.0);
      assert n <= j;
      if n < j {
        BelowAsymmetric(items[n].0, items[j].0);
      }
    } else {
      forall k | k in Keys(t)
        ensures !Beyond(id, k, true)
      {
        var j := IndexOf(items, t, k);
      }
    }
  }

  lemma {:induction false} IndexOf(items: seq<Item>, t: Tree, k: Key) returns (i: nat)
    requires Lists(items, t, 0, 16) && k in Keys(t)
    ensures i < |items| && items[i].0 == k
  {
    i :| 0 <= i < |items| && items[i].0 == k;
  }

  lemma {:induction false} BelowAsymmetric(a: Key, b: Key)
    requires Below(a, b)
    ensures !Below(b, a) && a != b
  {
    BelowIrreflexive(a);
    if Below(b, a) {
      BelowTransitive(a, b, a);
    }
  }

  lemma {:induction false} AboveOwn(items: seq<Item>, i: nat)
    requires Sorted(items) && i < |items|
    ensures AllAbove(items, i + 1, items[i].0)
  {
    forall j | 0 <= j < i + 1
      ensures !Below(items[i].0, items[j].0)
    {
      if j < i {
        BelowAsymmetric(items[j].0, items[i].0);
      } else {
        BelowIrreflexive(items[i].0);
      }
    }
  }

  class Iterator {
    var current: Option<Item>

    /** UpperBound and LowerBound. */
    constructor (t: Tree, id: Key, asc: bool)
      requires CanonicalRoot(t)
      ensures IsBound(t, 0, id, current, asc)
    {
      CanonicalPlaced(t, []);
      var first := BoundUnsafe(t, id, asc);
      current := first;
    }

    /** Next: from the current key to the least key above it in the map as it is now,
        whether or not the map changed since. */
    method Next(t: Tree) returns (more: bool)
      requires CanonicalRoot(t)
      modifies this
      ensures old(current).None? ==> current.None?
      ensures old(current).Some? ==> IsBound(t, 0, old(current).value.0, current, true)
      ensures more <==> current.Some?
    {
      if current.None? {
        return false;
      }
      CanonicalPlaced(t, []);
      current := BoundUnsafe(t, current.value.0, true);
      more := current.Some?;
    }
  }

  /** Where the keys above id start. */
  lemma {:induction false} SplitAt(items: seq<Item>, id: Key) returns (n: nat)
    requires Sorted(items)
    ensures n <= |items| && AllAbove(items, n, id)
  {
    n := |items|;
    while n > 0 && Below(id, items[n - 1].0)
      invariant 0 <= n <= |items|
      invariant forall i :: n <= i < |items| ==> Below(id, items[i].0)
    {
      n := n - 1;
    }
    forall i | 0 <= i < n
      ensures !Below(id, items[i].0)
    {
      if Below(id, items[i].0) && i < n - 1 {
        BelowTransitive(id, items[i].0, items[n - 1].0);
      }
    }
  }

  /** Repeated Next from UpperBound: exactly the items above id, in ascending order. */
  method ItemsAbove(t: Tree, id: Key) returns (out: seq<Item>)
    requires CanonicalRoot(t)
    ensures Sorted(out)
    ensures forall k: Key, v: Data :: (k, v) in out <==> k in Content(t, 0) && Content(t, 0)[k] == v && Below(id, k)
  {
    hide LeavesAsc, Sorted, AllAbove, CanonicalRoot, Lists, Below;
    ghost var n;
    ghost var items := LeavesAsc(t);
    var it;
    it, n := StartAbove(t, id);
    out := [];
    ghost var i := n;
    while it.current.Some?
      invariant fresh(it) && n <= i <= |items| && out == items[n..i]
      invariant it.current == if i < |items| then Some(items[i]) else None
      decreases |items| - i
    {
      out := out + [it.current.value];
      NextListed(it, t, items, i);
      i := i + 1;
    }
    assert out == items[n..];
    WalkListsContent(t);
    TailIsAbove(items, n, id);
  }

  /** The tail of a sorted list is sorted, and holds exactly the items above. */
  lemma {:induction false} TailIsAbove(items: seq<Item>, n: nat, id: Key)
    requires Sorted(items) && n <= |items| && AllAbove(items, n, id)
    ensures Sorted(items[n..])
    ensures forall k: Key, v: Data :: (k, v) in items[n..] <==> (k, v) in items && Below(id, k)
  {
    var tail := items[n..];
    forall k: Key, v: Data
      ensures (k, v) in tail <==> (k, v) in items && Below(id, k)
    {
      if (k, v) in tail {
        var j :| 0 <= j < |tail| && tail[j] == (k, v);
        assert items[n + j] == (k, v);
      }
      if (k, v) in items && Below(id, k) {
        var j :| 0 <= j < |items| && items[j] == (k, v);
        assert tail[j - n] == (k, v);
      }
    }
  }

  /** UpperBound starts at the first item above id in the list of all items. */
  method StartAbove(t: Tree, id: Key) returns (it: Iterator, ghost n: nat)
    requires CanonicalRoot(t)
    ensures fresh(it) && Sorted(LeavesAsc(t)) && Lists(LeavesAsc(t), t, 0, 16)
    ensures n <= |LeavesAsc(t)| && AllAbove(LeavesAsc(t), n, id)
    ensures it.current == if n < |LeavesAsc(t)| then Some(LeavesAsc(t)[n]) else None
  {
    CanonicalPlaced(t, []);
    AscIsSorted(t, []);
    hide LeavesAsc, IsBound, Sorted, AllAbove, CanonicalRoot, Lists, Placed;
    n := SplitAt(LeavesAsc(t), id);
    it := new Iterator(t, id, true);
    BoundIsListed(t, LeavesAsc(t), n, id, it.current);
  }

  /** One Next moves from an item of the list to the one behind it. */
  method NextListed(it: Iterator, t: Tree, ghost items: seq<Item>, ghost i: nat)
    requires CanonicalRoot(t) && Sorted(items) && Lists(items, t, 0, 16) && i < |items| && it.current == Some(items[i])
    modifies it
    ensures it.current == if i + 1 < |items| then Some(items[i + 1]) else None
  {
    hide IsBound, Sorted, AllAbove, CanonicalRoot, Lists;
    var more := it.Next(t);
    AboveOwn(items, i);
    BoundIsListed(t, items, i + 1, items[i].0, it.current);
  }

  /** The leaf walk lists every item of the finite map, once, in ascending order. */
  lemma {:induction false} WalkListsContent(t: Tree)
    requires CanonicalRoot(t)
    ensures Sorted(LeavesAsc(t))
    ensures forall k: Key, v: Data :: (k in Content(t, 0) && Content(t, 0)[k] == v) <==> (k, v) in LeavesAsc(t)
  {
    CanonicalPlaced(t, []);
    AscIsSorted(t, []);
    ContentKeys(t, []);
    forall k: Key, v: Data
      ensures (k in Content(t, 0) && Content(t, 0)[k] == v) <==> (k, v) in LeavesAsc(t)
    {
      ContentIsLookup(t, [], k);
      if k in Keys(t) {
        var i :| 0 <= i < |LeavesAsc(t)| && LeavesAsc(t)[i].0 == k;
        assert LeavesAsc(t)[i] in LeavesAsc(t);
        assert LeavesAsc(t)[i] == (k, Content(t, 0)[k]);
      }
    }
  }
}
