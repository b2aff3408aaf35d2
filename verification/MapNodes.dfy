/** The nodes of a state map on the heap (shamap/inner_node.go, shamap/leaf.go,
    shamap/store.go): child pointers, cached branch hashes, the branch mask, the
    node's own hash and its dirty flag.

    `tree` is the value a node stands for. A branch whose child pointer is nil may
    still be set: it is then known by its hash only and is read from the store. */
module MapNodes {
  import opened KeyPath
  import opened Trie
  import opened Mutation
  import opened Hashing

  datatype Child = Nil | LeafRef(leaf: LeafNode) | InnerRef(inner: InnerNode)

  class LeafNode {
    const key: Key
    const data: Data
    const hash: Hash
    var dirty: bool

    constructor (key: Key, data: Data)
      requires |data| >= 12
      ensures this.key == key && this.data == data && dirty
      ensures LeafOk(this)
    {
      this.key, this.data, this.hash := key, data, LeafHash(AccountState, key, data);
      dirty := true;
    }
  }

  ghost predicate LeafOk(l: LeafNode) {
    l.hash == LeafHash(AccountState, l.key, l.data)
  }

  ghost function ChildTree(c: Child): Tree
    reads if c.InnerRef? then {c.inner} else {}
  {
    match c
    case Nil => Empty
    case LeafRef(l) => Leaf(l.key, l.data)
    case InnerRef(n) => n.tree
  }

  ghost function ChildRepr(c: Child): set<InnerNode>
    reads if c.InnerRef? then {c.inner} else {}
  {
    if c.InnerRef? then c.inner.Repr else {}
  }

  ghost predicate ChildValid(c: Child, backed: bool)
    reads if c.InnerRef? then {c.inner} + c.inner.Repr else {}
  {
    match c
    case Nil => true
    case LeafRef(l) => LeafOk(l)
    case InnerRef(n) => n.Valid(backed)
  }

  /** The hash a loaded child reports. */
  function ChildHash(c: Child): Hash
    reads if c.InnerRef? then {c.inner} else {}
  {
    match c
    case Nil => Zero
    case LeafRef(l) => l.hash
    case InnerRef(n) => n.hash
  }

  const NO_CHILDREN: seq<Child> := [Nil, Nil, Nil, Nil, Nil, Nil, Nil, Nil, Nil, Nil, Nil, Nil, Nil, Nil, Nil, Nil]
  const NO_HASHES: seq<Hash> := [Zero, Zero, Zero, Zero, Zero, Zero, Zero, Zero, Zero, Zero, Zero, Zero, Zero, Zero,
    Zero, Zero]
  const NO_BRANCHES: seq<bool> := [false, false, false, false, false, false, false, false,
                                   false, false, false, false, false, false, false, false]

  /** The part of the canonical shape a node being rebuilt still has: its kids. */
  ghost predicate KidsCanonical(t: Tree, path: seq<Nibble>) {
    t.Inner? && |t.kids| == 16 && |path| < 64 && forall i :: 0 <= i < 16 ==> Canonical(t.kids[i], path + [i])
  }

  lemma {:induction false} NoKidsHash()
    ensures HashOf(AccountState, Inner(NO_KIDS)) == Zero
  {
  }

  class InnerNode {
    var children: seq<Child>
    var hashes: seq<Hash>
    var isBranch: seq<bool>
    var hash: Hash
    var dirty: bool
    ghost var tree: Tree
    ghost var Repr: set<InnerNode>

    ghost predicate Sized()
      reads this
    {
      this in Repr && |children| == |hashes| == |isBranch| == 16 && tree.Inner? && |tree.kids| == 16
    }

    /** A slot is right when its cached hash and its mask bit tell the truth about
        the subtree, and a loaded child is that subtree. */
    ghost predicate SlotOk(i: int, backed: bool)
      requires Sized() && 0 <= i < 16
      reads this, Repr
      decreases Repr, 0
    {
      && hashes[i] == HashOf(AccountState, tree.kids[i])
      && (isBranch[i] <==> tree.kids[i] != Empty)
      && match children[i]
         case Nil => isBranch[i] ==> backed
         case LeafRef(l) => LeafOk(l) && tree.kids[i] == Leaf(l.key, l.data)
         case InnerRef(n) =>
           n in Repr && n.Repr <= Repr && this !in n.Repr && n.Valid(backed) && tree.kids[i] == n.tree
    }

    /** A node as newInnerNode leaves it. */
    ghost predicate Blank(backed: bool)
      reads this, Repr
      decreases Repr, 3
    {
      Valid(backed) && tree == Inner(NO_KIDS) && Repr == {this}
    }

    ghost predicate SlotsExcept(x: int, backed: bool)
      reads this, Repr
      decreases Repr, 1
    {
      Sized() && forall i :: 0 <= i < 16 && i != x ==> SlotOk(i, backed)
    }

    /** Every cached branch hash matches its subtree, and so does the node's own. */
    ghost predicate Valid(backed: bool)
      reads this, Repr
      ensures Valid(backed) ==> Sized() && hash == HashOf(AccountState, tree)
      decreases Repr, 2
    {
      SlotsExcept(-1, backed) && hash == HashOf(AccountState, tree)
    }

    /** All slots but x are unset. This says nothing about slot x, whose cached hash
        goes stale while the child below it is still being filled. */
    ghost predicate Bare(x: int)
      reads this
    {
      && Sized()
      && forall i :: 0 <= i < 16 && i != x ==>
           children[i] == Nil && hashes[i] == Zero && !isBranch[i] && tree.kids[i] == Empty
    }

    lemma {:induction false} BareSlots(x: int, backed: bool)
      requires Bare(x)
      ensures SlotsExcept(x, backed)
    {
      forall i | 0 <= i < 16 && i != x
        ensures SlotOk(i, backed)
      {
        assert tree.kids[i] == Empty;
      }
    }

    lemma {:induction false} ValidBare(x: int, kid: Tree, backed: bool)
      requires Valid(backed) && 0 <= x < 16 && tree.kids == NO_KIDS[x := kid]
      ensures Bare(x)
    {
      forall i | 0 <= i < 16 && i != x
        ensures children[i] == Nil && hashes[i] == Zero && !isBranch[i] && tree.kids[i] == Empty
      {
        assert SlotOk(i, backed);
        assert NO_KIDS[i] == Empty;
      }
    }

    /** newInnerNode. */
    constructor ()
      ensures Valid(false) && Valid(true) && Repr == {this} && tree == Inner(NO_KIDS) && dirty
      ensures children == NO_CHILDREN && hashes == NO_HASHES && isBranch == NO_BRANCHES
    {
      children, hashes, isBranch := NO_CHILDREN, NO_HASHES, NO_BRANCHES;
      hash, dirty := Zero, true;
      tree, Repr := Inner(NO_KIDS), {this};
      new;
      NoKidsHash();
      hide HashOf;
      BareSlots(-1, false);
      BareSlots(-1, true);
    }

    /** shallowClone: own header, shared children. */
    constructor Clone(n: InnerNode, ghost backed: bool)
      requires n.Valid(backed)
      ensures children == n.children && hashes == n.hashes && isBranch == n.isBranch && hash == n.hash && dirty
      ensures Valid(backed) && tree == n.tree && Repr == n.Repr + {this}
    {
      children, hashes, isBranch, hash, dirty := n.children, n.hashes, n.isBranch, n.hash, true;
      tree, Repr := n.tree, n.Repr + {this};
      new;
      forall i | 0 <= i < 16
        ensures SlotOk(i, backed)
      {
        assert n.SlotOk(i, backed);
      }
    }

    /** materializePrefixNode for an inner record: hashes only, no children. */
    constructor FromRecord(kids: seq<Hash>, ghost t: Tree, ghost path: seq<Nibble>)
      requires t.Inner? && KidsCanonical(t, path) && |kids| == 16
      requires HashOf(AccountState, t) == Digest(InnerPre(kids))
      ensures Valid(true) && tree == t && Repr == {this} && !dirty
    {
      children, hashes, dirty := NO_CHILDREN, kids, false;
      isBranch := seq(16, i requires 0 <= i < 16 => kids[i] != Zero);
      hash := Digest(InnerPre(kids));
      tree, Repr := t, {this};
      new;
      forall i | 0 <= i < 16
        ensures SlotOk(i, true)
      {
        assert hashes[i] == HashKids(AccountState, t)[i];
        ZeroMeansEmpty(AccountState, t.kids[i], path + [i]);
      }
    }

    /** childPreimageHash: a loaded child's live hash, otherwise the cached one. */
    function PreimageHash(i: int): Hash
      requires 0 <= i < |children| && |hashes| == |children|
      reads this, if children[i].InnerRef? then {children[i].inner} else {}
    {
      if children[i].Nil? then hashes[i] else ChildHash(children[i])
    }

    /** updateHashUnsafe. */
    method UpdateHash(ghost backed: bool)
      requires SlotsExcept(-1, backed)
      modifies this`hash
      ensures Valid(backed)
    {
      var any := false;
      var pre: seq<Hash> := [];
      var i := 0;
      while i < 16
        invariant 0 <= i <= 16 && |pre| == i
        invariant hash == old(hash)
        invariant any <==> exists j :: 0 <= j < i && isBranch[j]
        invariant forall j :: 0 <= j < i ==> pre[j] == HashOf(AccountState, tree.kids[j])
      {
        assert SlotOk(i, backed);
        if isBranch[i] {
          any := true;
          pre := pre + [PreimageHash(i)];
        } else {
          pre := pre + [Zero];
        }
        i := i + 1;
      }
      forall j | 0 <= j < 16
        ensures isBranch[j] <==> tree.kids[j] != Empty
      {
        assert SlotOk(j, backed);
      }
      assert any <==> !AllEmpty(tree.kids);
      assert pre == HashKids(AccountState, tree);
      hash := if any then Digest(InnerPre(pre)) else Zero;
      forall j | 0 <= j < 16
        ensures SlotOk(j, backed)
      {
        assert old(SlotOk(j, backed));
      }
    }

    /** SetChild: store the pointer and its current hash, set or clear the mask
        bit, mark the node dirty, recompute its hash. Whatever state the slot was
        in before, the node is consistent afterwards. */
    method SetChild(index: int, child: Child, ghost backed: bool)
      requires 0 <= index < 16 && SlotsExcept(index, backed)
      requires ChildValid(child, backed) && this !in ChildRepr(child)
      modifies this
      ensures Valid(backed) && dirty
      ensures tree == Inner(old(tree.kids)[index := ChildTree(child)])
      ensures Repr == old(Repr) + ChildRepr(child)
    {
      Relink(index, child, backed);
      UpdateHash(backed);
    }

    method Relink(index: int, child: Child, ghost backed: bool)
      requires 0 <= index < 16 && SlotsExcept(index, backed)
      requires ChildValid(child, backed) && this !in ChildRepr(child)
      modifies this
      ensures SlotsExcept(-1, backed) && dirty
      ensures tree == Inner(old(tree.kids)[index := ChildTree(child)])
      ensures Repr == old(Repr) + ChildRepr(child)
    {
      children := children[index := child];
      if !child.Nil? {
        hashes := hashes[index := ChildHash(child)];
        isBranch := isBranch[index := true];
      } else {
        hashes := hashes[index := Zero];
        isBranch := isBranch[index := false];
      }
      dirty := true;
      tree := Inner(tree.kids[index := ChildTree(child)]);
      Repr := Repr + ChildRepr(child);
      forall i | 0 <= i < 16 && i != index
        ensures SlotOk(i, backed)
      {
        assert old(SlotOk(i, backed));
      }
    }

    /** BranchCount. */
    method BranchCount() returns (n: nat, first: int)
      requires Sized()
      requires forall i :: 0 <= i < 16 ==> (isBranch[i] <==> tree.kids[i] != Empty)
      ensures n == 0 <==> AllEmpty(tree.kids)
      ensures n == 1 <==> Lone(tree.kids, first)
      ensures n != 1 ==> !HasLone(tree.kids)
      ensures n != 0 ==> 0 <= first < 16
    {
      n, first := 0, -1;
      var i := 0;
      while i < 16
        invariant 0 <= i <= 16
        invariant n == 0 ==> first == -1 && forall j :: 0 <= j < i ==> !isBranch[j]
        invariant n >= 1 ==> 0 <= first < i && isBranch[first]
        invariant n == 1 ==> forall j :: 0 <= j < i && j != first ==> !isBranch[j]
        invariant n >= 2 ==> exists j :: first < j < i && isBranch[j]
      {
        if isBranch[i] {
          if n == 0 {
            first := i;
          }
          n := n + 1;
        }
        i := i + 1;
      }
    }
  }
}
