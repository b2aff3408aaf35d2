/** A state map on the heap: Put, Delete and the batched Put of shamap/mutation.go,
    reads of shamap/shamap.go and shamap/traverse.go, and the structurally shared
    copies of shamap/snapshot.go.

    No operation writes to a node it did not allocate itself: a method's frame is
    the map object alone, so a map that shares nodes with this one cannot observe
    the change. */
module ShaMap {
  import opened KeyPath
  import opened Trie
  import opened Mutation
  import opened Hashing
  import opened MapNodes

  datatype Error =
    | ErrImmutable
    | ErrItemNotFound
    | ErrItemTooSmall
    | ErrNilItem
    | ErrInvalidState
    | ErrMissingNode(hash: Hash)
    | ErrInvalidNodeData(hash: Hash)

  /** A read of a hash-only branch found no usable record. */
  predicate StoreError(e: Error) {
    e.ErrMissingNode? || e.ErrInvalidNodeData?
  }

  datatype Read = Got(child: Child) | Failed(error: Error)

  datatype Walk = Reached(node: Child, stack: seq<InnerNode>) | Lost(error: Error)

  datatype Only = OnlyItem(key: Key, data: Data) | NotAlone | OnlyFailed(error: Error)

  /** The store behind a backed map: serialized nodes by hash. */
  class Family {
    var records: map<Hash, Preimage>

    constructor () {
      records := map[];
    }
  }

  /** decodeAndVerifyPrefixNode: the store holds a well-formed node of this hash. */
  predicate Readable(records: map<Hash, Preimage>, hash: Hash) {
    hash in records && Materializes(records[hash]) && Digest(records[hash]) == hash
  }

  /** Replace the subtree n levels down the key's path. */
  ghost function Replace(t: Tree, k: Key, d: nat, n: nat, sub: Tree): Tree
    decreases n
  {
    if n == 0 then sub
    else if t.Inner? && |t.kids| == 16 && d < 64 then
      Inner(t.kids[k[d] := Replace(t.kids[k[d]], k, d + 1, n - 1, sub)])
    else t
  }

  /** The subtree n levels down the key's path. */
  ghost function Sub(t: Tree, k: Key, d: nat, n: nat): Tree
    decreases n
  {
    if n == 0 then t
    else if t.Inner? && |t.kids| == 16 && d < 64 then Sub(t.kids[k[d]], k, d + 1, n - 1)
    else Empty
  }

  ghost predicate Descends(t: Tree, k: Key, d: nat, n: nat)
    decreases n
  {
    n == 0 || (t.Inner? && |t.kids| == 16 && d < 64 && Descends(t.kids[k[d]], k, d + 1, n - 1))
  }

  lemma {:induction false} InsertBelow(t: Tree, k: Key, v: Data, d: nat, n: nat)
    requires Descends(t, k, d, n)
    ensures Insert(t, k, v, d) == Replace(t, k, d, n, Insert(Sub(t, k, d, n), k, v, d + n))
    decreases n
  {
    if n > 0 {
      InsertBelow(t.kids[k[d]], k, v, d + 1, n - 1);
    }
  }

  lemma {:induction false} LookupBelow(t: Tree, k: Key, d: nat, n: nat)
    requires Descends(t, k, d, n)
    ensures Lookup(t, k, d) == Lookup(Sub(t, k, d, n), k, d + n)
    decreases n
  {
    if n > 0 {
      LookupBelow(t.kids[k[d]], k, d + 1, n - 1);
    }
  }

  /** The nodes a walk passed, root first, are the nodes on the key's path. */
  ghost predicate Chain(stack: seq<InnerNode>, k: Key, backed: bool)
    reads stack, set n, m | n in stack && m in n.Repr :: m
  {
    && |stack| <= 64
    && (forall j :: 0 <= j < |stack| ==> stack[j].Valid(backed) && Canonical(stack[j].tree, k[..j]))
    && (forall j :: 0 < j < |stack| ==> stack[j].tree == stack[j - 1].tree.kids[k[j - 1]])
  }

  lemma {:induction false} ChainDescends(stack: seq<InnerNode>, k: Key, backed: bool, i: nat)
    requires Chain(stack, k, backed) && i < |stack|
    ensures Descends(stack[i].tree, k, i, |stack| - i)
    ensures Sub(stack[i].tree, k, i, |stack| - i) == stack[|stack| - 1].tree.kids[k[|stack| - 1]]
  {
    hide Chain, Descends, Sub, ValueChain;
    var trees := seq(|stack|, j requires 0 <= j < |stack| reads stack => stack[j].tree);
    TreeChain(stack, k, backed, trees);
    ValueDescends(trees, k, i);
  }

  lemma {:induction false} ValueDescends(trees: seq<Tree>, k: Key, i: nat)
    requires ValueChain(trees, k) && i < |trees|
    ensures trees[|trees| - 1].Inner? && |trees[|trees| - 1].kids| == 16
    ensures Descends(trees[i], k, i, |trees| - i)
    ensures Sub(trees[i], k, i, |trees| - i) == trees[|trees| - 1].kids[k[|trees| - 1]]
    decreases |trees| - i
  {
    if i + 1 < |trees| {
      ValueDescends(trees, k, i + 1);
      assert trees[i + 1] == trees[i + 1 - 1].kids[k[i + 1 - 1]];
    } else {
      assert Descends(trees[i].kids[k[i]], k, i + 1, 0);
      assert Sub(trees[i].kids[k[i]], k, i + 1, 0) == trees[i].kids[k[i]];
    }
  }

  /** The kid on the key's branch is canonical at the longer path, and an inner
      kid leaves room for one more step. */
  lemma {:induction false} KidOnPath(t: Tree, k: Key, d: nat)
    requires d < 64 && t.Inner? && Canonical(t, k[..d])
    ensures Canonical(t.kids[k[d]], k[..d + 1])
    ensures t.kids[k[d]].Inner? ==> d + 1 < 64
  {
    assert k[..d] + [k[d]] == k[..d + 1];
  }

  lemma {:induction false} ChainSnoc(stack: seq<InnerNode>, n: InnerNode, k: Key, backed: bool)
    requires Chain(stack, k, backed) && 1 <= |stack| < 64
    requires n.Valid(backed) && Canonical(n.tree, k[..|stack|])
    requires n.tree == stack[|stack| - 1].tree.kids[k[|stack| - 1]]
    ensures Chain(stack + [n], k, backed)
  {
    hide Canonical;
    var all := stack + [n];
    forall j | 0 <= j < |all|
      ensures all[j].Valid(backed) && Canonical(all[j].tree, k[..j])
    {
      assert j < |stack| ==> all[j] == stack[j];
    }
    forall j | 0 < j < |all|
      ensures all[j].tree == all[j - 1].tree.kids[k[j - 1]]
    {
      assert j < |stack| ==> all[j] == stack[j];
    }
  }

  ghost predicate ValueChain(trees: seq<Tree>, k: Key) {
    && |trees| <= 64
    && (forall j :: 0 <= j < |trees| ==> trees[j].Inner? && |trees[j].kids| == 16)
    && (forall j :: 0 < j < |trees| ==> trees[j] == trees[j - 1].kids[k[j - 1]])
  }

  lemma {:induction false} TreeChain(stack: seq<InnerNode>, k: Key, backed: bool, trees: seq<Tree>)
    requires Chain(stack, k, backed) && |trees| == |stack|
    requires forall j :: 0 <= j < |stack| ==> stack[j].tree == trees[j]
    ensures ValueChain(trees, k)
  {
    forall j | 0 <= j < |trees|
      ensures trees[j].Inner? && |trees[j].kids| == 16
    {
      assert stack[j].Valid(backed);
    }
  }

  lemma {:induction false} ReplaceLast(t: Tree, k: Key, d: nat, sub: Tree)
    requires d < 64 && t.Inner? && |t.kids| == 16
    ensures Inner(t.kids[k[d] := sub]) == Replace(t, k, d, 1, sub)
  {
    assert Replace(t.kids[k[d]], k, d + 1, 0, sub) == sub;
  }

  lemma {:induction false} ReplaceStep(trees: seq<Tree>, k: Key, i: nat, sub: Tree)
    requires ValueChain(trees, k) && i + 1 < |trees|
    ensures Inner(trees[i].kids[k[i] := Replace(trees[i + 1], k, i + 1, |trees| - i - 1, sub)]) ==
              Replace(trees[i], k, i, |trees| - i, sub)
  {
    assert trees[i + 1] == trees[i + 1 - 1].kids[k[i + 1 - 1]];
  }

  ghost predicate Distinct(chain: seq<InnerNode>) {
    forall i, j :: 0 <= i < j < |chain| ==> chain[i] != chain[j]
  }

  /** A chain under construction: each node but the last has exactly its branch on
      the key's path, and the nodes are distinct. */
  ghost predicate StaleChain(chain: seq<InnerNode>, key: Key, start: nat)
    reads chain
  {
    && 1 <= |chain| && start + |chain| <= 64 && Distinct(chain)
    && (forall j :: 0 <= j < |chain| - 1 ==>
          chain[j].Bare(key[start + j]) && chain[j].Repr == {chain[j], chain[j + 1]})
  }

  /** The keys share their branches from the start of the chain down to its end,
      and part there. */
  ghost predicate ChainParts(k: Key, k2: Key, start: nat, depth: nat) {
    && start <= depth < 64 && k[depth] != k2[depth]
    && forall d :: start <= d < depth ==> k[d] == k2[d]
  }

  /** What the walk reached decides what the map holds under the key. */
  lemma {:induction false} ReachedLookup(stack: seq<InnerNode>, k: Key, backed: bool, t: Tree)
    requires |stack| >= 1 && Chain(stack, k, backed) && t == stack[|stack| - 1].tree.kids[k[|stack| - 1]]
    ensures Lookup(stack[0].tree, k, 0) == Lookup(t, k, |stack|)
  {
    ChainDescends(stack, k, backed, 0);
    LookupBelow(stack[0].tree, k, 0, |stack|);
  }

  lemma {:induction false} StaleShorter(chain: seq<InnerNode>, i: nat, key: Key, start: nat)
    requires 0 < i < |chain| && StaleChain(chain[..i + 1], key, start)
    requires forall a, b :: 0 <= a < b < |chain| ==> chain[a] != chain[b]
    ensures StaleChain(chain[..i], key, start)
    ensures chain[i - 1].Bare(key[start + i - 1]) && chain[i - 1].Repr == {chain[i - 1], chain[i]}
    ensures chain[i - 1] !in chain[i..]
  {
    var c := chain[..i + 1];
    assert c[i - 1] == chain[i - 1] && c[i] == chain[i];
    forall j | 0 <= j < i - 1
      ensures chain[..i][j].Bare(key[start + j]) && chain[..i][j].Repr == {chain[..i][j], chain[..i][j + 1]}
    {
      assert c[j].Bare(key[start + j]);
    }
  }

  ghost predicate Refreshed(chain: seq<InnerNode>, i: nat, k: Key, v: Data, k2: Key, v2: Data, start: nat, backed: bool)
    requires i < |chain|
    reads chain[i], chain[i].Repr
  {
    && start + i < 64
    && chain[i].Valid(backed) && (forall n :: n in chain[i].Repr ==> n in chain[i..])
    && chain[i].tree == Split(k, v, k2, v2, start + i)
  }

  /** A leaf at the end of the walk shares the walked branches with the key. */
  lemma {:induction false} LeafOnPath(stack: seq<InnerNode>, k: Key, backed: bool, t: Tree)
    requires |stack| >= 1 && Chain(stack, k, backed)
    requires t == stack[|stack| - 1].tree.kids[k[|stack| - 1]]
    ensures t.Leaf? ==> k[..|stack|] == t.key[..|stack|]
  {
    var d := |stack| - 1;
    assert stack[d].Valid(backed) && Canonical(stack[d].tree, k[..d]);
    KidOnPath(stack[d].tree, k, d);
  }

  lemma {:induction false} RemovedKids(t: Tree, k: Key, d: nat)
    requires d < 64 && t.Inner? && Canonical(t, k[..d]) && Weighty(t)
    ensures KidsCanonical(Inner(t.kids[k[d] := Remove(t.kids[k[d]], k, d + 1)]), k[..d])
    ensures Weighty(Inner(t.kids[k[d] := Remove(t.kids[k[d]], k, d + 1)]))
  {
    KidOnPath(t, k, d);
    RemoveIsCanonical(t.kids[k[d]], k, k[..d + 1]);
    RemoveWeighty(t.kids[k[d]], k, d + 1);
    assert k[..d] + [k[d]] == k[..d + 1];
  }

  lemma {:induction false} ChainWeighty(trees: seq<Tree>, k: Key)
    requires ValueChain(trees, k) && |trees| >= 1 && Weighty(trees[0])
    ensures forall j :: 0 <= j < |trees| ==> Weighty(trees[j])
  {
    var j := 1;
    while j < |trees|
      invariant 1 <= j <= |trees|
      invariant forall i :: 0 <= i < j ==> Weighty(trees[i])
    {
      ChainAt(trees, k, j - 1);
      j := j + 1;
    }
  }

  lemma {:induction false} ChainAt(trees: seq<Tree>, k: Key, i: nat)
    requires ValueChain(trees, k) && i < |trees|
    ensures trees[i].Inner? && |trees[i].kids| == 16
    ensures i + 1 < |trees| ==> trees[i + 1] == trees[i].kids[k[i]]
  {
    if i + 1 < |trees| {
      assert trees[i + 1] == trees[i + 1 - 1].kids[k[i + 1 - 1]];
    }
  }

  class StateMap {
    var root: InnerNode
    var state: MapState
    const family: Family?

    ghost predicate Valid()
      reads this, root, root.Repr
    {
      root.Valid(family != null) && CanonicalRoot(root.tree) && Weighty(root.tree)
    }

    /** New and NewBacked. */
    constructor (family: Family?)
      ensures Valid() && root.tree == Inner(NO_KIDS) && root.hash == Zero
      ensures state == Modifying && this.family == family && fresh(root.Repr)
    {
      EmptyMapIsCanonical();
      hide Canonical;
      this.family := family;
      root := new InnerNode();
      state := Modifying;
    }

    /** snapshotLocked: the copy shares the root pointer. */
    constructor Shared(source: StateMap, mutable: bool)
      requires source.Valid() && source.state != Invalid
      ensures Valid() && root == source.root && family == source.family
      ensures state == if mutable then Modifying else Immutable
    {
      root, family := source.root, source.family;
      state := if mutable then Modifying else Immutable;
    }

    // ------------------------------------------------------------------ reads

    /** readChild without attachment: the loaded child, or a private copy decoded
        from the store. */
    method Descend(inner: InnerNode, branch: int, ghost path: seq<Nibble>) returns (r: Read)
      requires 0 <= branch < 16 && inner.Valid(family != null) && KidsCanonical(inner.tree, path)
      ensures r.Got? ==> ChildValid(r.child, family != null) && ChildTree(r.child) == inner.tree.kids[branch]
      ensures r.Failed? ==> family != null && inner.children[branch].Nil? && inner.isBranch[branch]
      ensures r.Failed? ==> !Readable(family.records, inner.hashes[branch]) && StoreError(r.error)
    {
      assert inner.SlotOk(branch, family != null);
      var child := inner.children[branch];
      if !child.Nil? {
        return Got(child);
      }
      if family == null || !inner.isBranch[branch] {
        return Got(Nil);
      }
      var hash := inner.hashes[branch];
      ghost var t := inner.tree.kids[branch];
      ZeroMeansEmpty(AccountState, t, path + [branch]);
      if hash !in family.records {
        return Failed(ErrMissingNode(hash));
      }
      if !Readable(family.records, hash) {
        return Failed(ErrInvalidNodeData(hash));
      }
      var record := family.records[hash];
      if record.InnerPre? {
        assert t.Inner? && KidsCanonical(t, path + [branch]);
        var node := new InnerNode.FromRecord(record.kids, t, path + [branch]);
        return Got(InnerRef(node));
      }
      var leaf := new LeafNode(record.key.value, record.data);
      leaf.dirty := false;
      return Got(LeafRef(leaf));
    }

    /** One step of the walk: read the child on the key's branch. */
    method WalkStep(stack: seq<InnerNode>, key: Key) returns (r: Read)
      requires |stack| >= 1 && Chain(stack, key, family != null)
      ensures Chain(stack, key, family != null)
      ensures r.Got? && r.child.InnerRef? ==> |stack| < 64 && Chain(stack + [r.child.inner], key, family != null)
      ensures r.Got? ==> ChildValid(r.child, family != null)
      ensures r.Got? ==> ChildTree(r.child) == stack[|stack| - 1].tree.kids[key[|stack| - 1]]
      ensures r.Failed? ==> family != null && StoreError(r.error)
    {
      var d := |stack| - 1;
      var inner := stack[d];
      assert inner.Valid(family != null) && Canonical(inner.tree, key[..d]);
      r := Descend(inner, key[d], key[..d]);
      assert Chain(stack, key, family != null);
      if r.Got? && r.child.InnerRef? {
        KidOnPath(inner.tree, key, d);
        ChainSnoc(stack, r.child.inner, key, family != null);
      }
    }

    /** walkToKey: the inner nodes on the key's path, and the leaf or empty slot
        the path ends in. */
    method WalkToKey(key: Key) returns (w: Walk)
      requires Valid()
      ensures w.Reached? ==> |w.stack| >= 1 && w.stack[0] == root && Chain(w.stack, key, family != null)
      ensures w.Reached? ==> ChildValid(w.node, family != null) && !w.node.InnerRef?
      ensures w.Reached? ==> ChildTree(w.node) == w.stack[|w.stack| - 1].tree.kids[key[|w.stack| - 1]]
      ensures w.Lost? ==> family != null && StoreError(w.error)
    {
      var stack := [root];
      assert key[..0] == [];
      while true
        invariant |stack| >= 1 && stack[0] == root && Chain(stack, key, family != null)
        decreases 64 - |stack|
      {
        var r := WalkStep(stack, key);
        if r.Failed? {
          return Lost(r.error);
        }
        if !r.child.InnerRef? {
          return Reached(r.child, stack);
        }
        stack := stack + [r.child.inner];
      }
    }

    /** Get and Has: what the store and the loaded nodes yield is the finite map's
        answer; only an unreadable store node makes a read fail. */
    method Get(key: Key) returns (item: Option<Data>, err: Option<Error>)
      requires Valid()
      ensures err.None? ==> item == Lookup(root.tree, key, 0)
      ensures err.Some? ==> family != null && StoreError(err.value)
    {
      var w := WalkToKey(key);
      if w.Lost? {
        return None, Some(w.error);
      }
      ChainDescends(w.stack, key, family != null, 0);
      LookupBelow(root.tree, key, 0, |w.stack|);
      err := None;
      if w.node.LeafRef? && w.node.leaf.key == key {
        item := Some(w.node.leaf.data);
      } else {
        item := None;
      }
    }

    // -------------------------------------------------------------- path copy

    /** One level of dirtyUp: a fresh copy of the node with one branch replaced. */
    method CopyWith(node: InnerNode, branch: int, child: Child) returns (cloned: InnerNode)
      requires 0 <= branch < 16 && node.Valid(family != null) && ChildValid(child, family != null)
      ensures fresh(cloned) && cloned.Valid(family != null) && cloned.dirty
      ensures cloned.tree == Inner(node.tree.kids[branch := ChildTree(child)])
    {
      cloned := new InnerNode.Clone(node, family != null);
      cloned.SetChild(branch, child, family != null);
    }

    method CopyLevel(stack: seq<InnerNode>, i: nat, target: Key, child: Child) returns (cloned: InnerNode)
      requires i < |stack| && Chain(stack, target, family != null) && ChildValid(child, family != null)
      ensures Chain(stack, target, family != null)
      ensures fresh(cloned) && cloned.Valid(family != null) && cloned.dirty
      ensures stack[i].Valid(family != null)
      ensures cloned.tree == Inner(stack[i].tree.kids[target[i] := old(ChildTree(child))])
    {
      assert stack[i].Valid(family != null);
      cloned := CopyWith(stack[i], target[i], child);
    }

    /** dirtyUp: rebuild the path from the bottom of the stack to the root. */
    method DirtyUp(stack: seq<InnerNode>, target: Key, child: Child) returns (newRoot: InnerNode)
      requires |stack| >= 1 && Chain(stack, target, family != null) && ChildValid(child, family != null)
      ensures fresh(newRoot) && newRoot.Valid(family != null) && newRoot.dirty
      ensures newRoot.tree == Replace(old(stack[0].tree), target, 0, |stack|, old(ChildTree(child)))
    {
      hide Canonical, Replace, Chain, InnerNode.Valid;
      ghost var sub := ChildTree(child);
      ghost var trees := seq(|stack|, j requires 0 <= j < |stack| reads stack => stack[j].tree);
      TreeChain(stack, target, family != null, trees);
      var i := |stack| - 1;
      newRoot := CopyLevel(stack, i, target, child);
      ReplaceLast(trees[i], target, i, sub);
      while i > 0
        invariant 0 <= i < |stack| && Chain(stack, target, family != null)
        invariant fresh(newRoot) && newRoot.Valid(family != null) && newRoot.dirty
        invariant newRoot.tree == Replace(trees[i], target, i, |stack| - i, sub)
      {
        i := i - 1;
        newRoot := CopyLevel(stack, i, target, InnerRef(newRoot));
        ReplaceStep(trees, target, i, sub);
      }
    }

    // ------------------------------------------------------------------ split

    method HangBelow(deepest: InnerNode, branch: Nibble) returns (child: InnerNode)
      requires deepest.Blank(family != null)
      modifies deepest
      ensures fresh(child) && child.Blank(family != null)
      ensures deepest.Bare(branch) && deepest.Repr == {deepest, child}
    {
      child := new InnerNode();
      assert NO_KIDS[branch := NO_KIDS[branch]] == NO_KIDS;
      deepest.ValidBare(branch, NO_KIDS[branch], family != null);
      deepest.BareSlots(branch, family != null);
      deepest.SetChild(branch, InnerRef(child), family != null);
      deepest.ValidBare(branch, child.tree, family != null);
    }

    /** The top-down half of the split: a chain of inner nodes, each hung below the
        previous one while still empty, so that the cached hashes above go stale. */
    method BuildChain(key: Key, currentDepth: nat, splitDepth: nat) returns (chain: seq<InnerNode>)
      requires currentDepth <= splitDepth < 64
      ensures |chain| == splitDepth - currentDepth + 1 && StaleChain(chain, key, currentDepth)
      ensures forall j :: 0 <= j < |chain| ==> fresh(chain[j])
      ensures chain[|chain| - 1].Blank(family != null)
    {
      hide InnerNode.Valid, InnerNode.Bare;
      var top := new InnerNode();
      chain := [top];
      var d := currentDepth;
      while d < splitDepth
        invariant currentDepth <= d <= splitDepth && |chain| == d - currentDepth + 1
        invariant StaleChain(chain, key, currentDepth)
        invariant forall j :: 0 <= j < |chain| ==> fresh(chain[j])
        invariant chain[|chain| - 1].Blank(family != null)
      {
        var child := HangBelow(chain[|chain| - 1], key[d]);
        chain := chain + [child];
        d := d + 1;
      }
    }

    /** Both leaves go into the deepest node of the chain. */
    method PlaceLeaves(deepest: InnerNode, newLeaf: LeafNode, leaf: LeafNode, d: nat)
      requires d < 64 && newLeaf.key[d] != leaf.key[d] && LeafOk(newLeaf) && LeafOk(leaf)
      requires deepest.Blank(family != null)
      modifies deepest
      ensures deepest.Valid(family != null) && deepest.Repr == {deepest}
      ensures deepest.tree == Split(newLeaf.key, newLeaf.data, leaf.key, leaf.data, d)
    {
      var i, j := newLeaf.key[d], leaf.key[d];
      assert deepest.SlotsExcept(-1, family != null);
      deepest.SetChild(i, LeafRef(newLeaf), family != null);
      assert deepest.SlotsExcept(-1, family != null);
      deepest.SetChild(j, LeafRef(leaf), family != null);
    }

    /** One step of the bottom-up refresh: re-attach the child so that the parent's
        cached hash and own hash follow it. */
    method Refresh(parent: InnerNode, child: InnerNode, branch: Nibble)
      requires parent.Bare(branch) && child.Valid(family != null)
      requires parent !in child.Repr && parent.Repr <= {parent} + child.Repr
      modifies parent
      ensures parent.Valid(family != null) && parent.Repr == {parent} + child.Repr
      ensures parent.tree == Inner(NO_KIDS[branch := child.tree])
    {
      parent.BareSlots(branch, family != null);
      parent.SetChild(branch, InnerRef(child), family != null);
      assert parent.tree.kids == NO_KIDS[branch := child.tree];
    }

    method RefreshStep(chain: seq<InnerNode>, i: nat, k: Key, v: Data, k2: Key, v2: Data, start: nat)
      requires 0 < i < |chain| && StaleChain(chain[..i + 1], k, start)
      requires Distinct(chain) && ChainParts(k, k2, start, start + |chain| - 1)
      requires Refreshed(chain, i, k, v, k2, v2, start, family != null)
      modifies chain[i - 1]
      ensures StaleChain(chain[..i], k, start)
      ensures Refreshed(chain, i - 1, k, v, k2, v2, start, family != null)
    {
      StaleShorter(chain, i, k, start);
      Refresh(chain[i - 1], chain[i], k[start + i - 1]);
      assert chain[i - 1..] == [chain[i - 1]] + chain[i..];
    }

    /** The bottom-up half of the split: afterwards every cached hash along the chain
        matches the node below it. */
    method RefreshChain(chain: seq<InnerNode>, k: Key, v: Data, k2: Key, v2: Data, start: nat)
      requires StaleChain(chain, k, start)
      requires ChainParts(k, k2, start, start + |chain| - 1)
      requires Refreshed(chain, |chain| - 1, k, v, k2, v2, start, family != null)
      modifies chain
      ensures chain[0].Valid(family != null) && chain[0].tree == Split(k, v, k2, v2, start)
    {
      hide ChainParts, InnerNode.Valid, InnerNode.Bare, Split, Distinct;
      var i := |chain| - 1;
      assert chain[..i + 1] == chain;
      while i > 0
        invariant 0 <= i < |chain| && StaleChain(chain[..i + 1], k, start)
        invariant Refreshed(chain, i, k, v, k2, v2, start, family != null)
      {
        RefreshStep(chain, i, k, v, k2, v2, start);
        i := i - 1;
      }
    }

    method PartingDepth(k: Key, k2: Key, depth: nat) returns (splitDepth: nat)
      requires k != k2 && depth < 64 && k[..depth] == k2[..depth]
      ensures ChainParts(k, k2, depth, splitDepth) && depth <= splitDepth < 64 && k[splitDepth] != k2[splitDepth]
    {
      PackUnpack(Pack(k), k);
      PackUnpack(Pack(k2), k2);
      splitDepth := FindSplitDepth(Pack(k), Pack(k2), depth);
      SplitDepthParts(Pack(k), Pack(k2), depth, splitDepth);
    }

    method SplitLeaves(newLeaf: LeafNode, leaf: LeafNode, depth: nat) returns (top: InnerNode)
      requires LeafOk(newLeaf) && LeafOk(leaf) && newLeaf.key != leaf.key && depth < 64
      requires newLeaf.key[..depth] == leaf.key[..depth]
      ensures fresh(top) && top.Valid(family != null)
      ensures top.tree == Split(newLeaf.key, newLeaf.data, leaf.key, leaf.data, depth)
    {
      hide InnerNode.Valid, InnerNode.Bare, Split, ChainParts;
      var k, k2 := newLeaf.key, leaf.key;
      var splitDepth := PartingDepth(k, k2, depth);
      var chain := BuildChain(k, depth, splitDepth);
      PlaceLeaves(chain[|chain| - 1], newLeaf, leaf, splitDepth);
      assert StaleChain(chain, k, depth);
      RefreshChain(chain, k, newLeaf.data, k2, leaf.data, depth);
      top := chain[0];
    }

    // -------------------------------------------------------------------- put

    /** The subtree that takes the place of what the walk reached. */
    method NewSubtree(node: Child, newLeaf: LeafNode, depth: nat) returns (sub: Child)
      requires ChildValid(node, family != null) && !node.InnerRef? && LeafOk(newLeaf) && depth <= 64
      requires node.LeafRef? ==> newLeaf.key[..depth] == node.leaf.key[..depth]
      ensures ChildValid(sub, family != null)
      ensures ChildTree(sub) == Insert(ChildTree(node), newLeaf.key, newLeaf.data, depth)
    {
      if node.Nil? || node.leaf.key == newLeaf.key {
        return LeafRef(newLeaf);
      }
      DistinctKeysPart(newLeaf.key, node.leaf.key, newLeaf.key[..depth]);
      var top := SplitLeaves(newLeaf, node.leaf, depth);
      return InnerRef(top);
    }

    /** putItemWithNodeTypeUnsafe with the map's own leaf type. */
    method PutUnsafe(key: Key, data: Data) returns (err: Option<Error>)
      requires Valid()
      modifies this`root
      ensures Valid()
      ensures err.None? ==> |data| >= 12 && root.tree == Insert(old(root.tree), key, data, 0)
      ensures err.Some? ==> root == old(root)
      ensures err.Some? ==> (family != null && StoreError(err.value)) || (err.value == ErrItemTooSmall && |data| < 12)
    {
      var w := WalkToKey(key);
      if w.Lost? {
        return Some(w.error);
      }
      if |data| < 12 {
        return Some(ErrItemTooSmall);
      }
      PutReached(w.node, w.stack, key, data);
      return None;
    }

    method PutReached(node: Child, stack: seq<InnerNode>, key: Key, data: Data)
      requires Valid() && |stack| >= 1 && stack[0] == root && Chain(stack, key, family != null)
      requires ChildValid(node, family != null) && !node.InnerRef? && |data| >= 12
      requires ChildTree(node) == stack[|stack| - 1].tree.kids[key[|stack| - 1]]
      modifies this`root
      ensures Valid() && root.tree == Insert(old(root.tree), key, data, 0)
    {
      var newLeaf := new LeafNode(key, data);
      LeafOnPath(stack, key, family != null, ChildTree(node));
      var sub := NewSubtree(node, newLeaf, |stack|);
      InstallPut(stack, key, data, sub);
    }

    method InstallPut(stack: seq<InnerNode>, key: Key, data: Data, sub: Child)
      requires Valid() && |stack| >= 1 && stack[0] == root && Chain(stack, key, family != null)
      requires ChildValid(sub, family != null) && |data| >= 12
      requires ChildTree(sub) == Insert(stack[|stack| - 1].tree.kids[key[|stack| - 1]], key, data, |stack|)
      modifies this`root
      ensures Valid() && root.tree == Insert(old(root.tree), key, data, 0)
    {
      hide Chain, Insert, Replace, Descends, Sub, Weighty, InnerNode.Valid, Content, Canonical, ChildValid;
      ChainDescends(stack, key, family != null, 0);
      InsertBelow(root.tree, key, data, 0, |stack|);
      PutRefines(root.tree, key, data);
      InsertWeighty(root.tree, key, data, 0);
      root := DirtyUp(stack, key, sub);
    }

    // ----------------------------------------------------------------- delete

    /** onlyBelow: follow single branches, reading children as needed. */
    method FindOnlyBelow(node: InnerNode, ghost path: seq<Nibble>) returns (r: Only)
      requires node.Valid(family != null) && KidsCanonical(node.tree, path)
      ensures r.OnlyItem? ==> OnlyBelow(node.tree) == Some(Leaf(r.key, r.data))
      ensures r.NotAlone? ==> OnlyBelow(node.tree) == None
      ensures r.OnlyFailed? ==> family != null && StoreError(r.error)
    {
      var current := node;
      ghost var p := path;
      while true
        invariant current.Valid(family != null) && KidsCanonical(current.tree, p)
        invariant OnlyBelow(current.tree) == OnlyBelow(node.tree)
        decreases current.tree
      {
        var next, branch := OnlyChild(current, p);
        match next
        case Failed(e) => return OnlyFailed(e);
        case Got(Nil) => return NotAlone;
        case Got(LeafRef(l)) => return OnlyItem(l.key, l.data);
        case Got(InnerRef(n)) =>
          p := p + [branch];
          current := n;
      }
    }

    method OnlyChild(node: InnerNode, ghost path: seq<Nibble>) returns (r: Read, branch: int)
      requires node.Valid(family != null) && KidsCanonical(node.tree, path)
      ensures r.Failed? ==> family != null && StoreError(r.error)
      ensures r.Got? && r.child.Nil? ==> OnlyBelow(node.tree) == None
      ensures r.Got? && !r.child.Nil? ==> ChildValid(r.child, family != null)
      ensures r.Got? && !r.child.Nil? ==> OnlyBelow(node.tree) == OnlyBelow(ChildTree(r.child))
      ensures r.Got? && r.child.InnerRef? ==> 0 <= branch < 16 && r.child.inner.tree == node.tree.kids[branch]
      ensures r.Got? && r.child.InnerRef? ==> KidsCanonical(r.child.inner.tree, path + [branch])
    {
      forall i | 0 <= i < 16
        ensures node.isBranch[i] <==> node.tree.kids[i] != Empty
      {
        assert node.SlotOk(i, family != null);
      }
      var count;
      count, branch := node.BranchCount();
      if count != 1 {
        return Got(Nil), branch;
      }
      OnlyBelowOfLone(node.tree.kids, branch);
      r := Descend(node, branch, path);
    }

    /** One level of consolidateAfterDelete. */
    method ConsolidateLevel(node: InnerNode, key: Key, i: nat, prev: Child) returns (r: Read)
      requires i < 64 && node.Valid(family != null) && Canonical(node.tree, key[..i]) && Weighty(node.tree)
      requires ChildValid(prev, family != null) && ChildTree(prev) == Remove(node.tree.kids[key[i]], key, i + 1)
      ensures r.Got? ==> ChildValid(r.child, family != null) && ChildTree(r.child) == Remove(node.tree, key, i)
      ensures r.Got? && i == 0 ==> r.child.InnerRef?
      ensures r.Failed? ==> family != null && StoreError(r.error)
    {
      var cloned := CopyWith(node, key[i], prev);
      if i == 0 {
        return Got(InnerRef(cloned));
      }
      RemovedKids(node.tree, key, i);
      r := Consolidate(cloned, key[..i]);
    }

    /** Below the root: drop an emptied node, or replace one that leads to a single
        item by a leaf for it. */
    method Consolidate(cloned: InnerNode, ghost path: seq<Nibble>) returns (r: Read)
      requires cloned.Valid(family != null) && KidsCanonical(cloned.tree, path) && Weighty(cloned.tree)
      ensures r.Got? ==> ChildValid(r.child, family != null) && ChildTree(r.child) == Collapse(cloned.tree.kids)
      ensures r.Failed? ==> family != null && StoreError(r.error)
    {
      forall j | 0 <= j < 16
        ensures cloned.isBranch[j] <==> cloned.tree.kids[j] != Empty
      {
        assert cloned.SlotOk(j, family != null);
      }
      var count, first := cloned.BranchCount();
      if count == 0 {
        return Got(Nil);
      }
      if count != 1 {
        return Got(InnerRef(cloned));
      }
      var only := FindOnlyBelow(cloned, path);
      match only
      case OnlyFailed(e) => return Failed(e);
      case NotAlone => return Got(InnerRef(cloned));
      case OnlyItem(k, v) =>
        OnlyBelowWeighty(cloned.tree);
        var newLeaf := new LeafNode(k, v);
        return Got(LeafRef(newLeaf));
    }

    /** consolidateAfterDelete: from the leaf's parent up to the root. */
    method ConsolidateAfterDelete(stack: seq<InnerNode>, key: Key) returns (r: Read)
      requires |stack| >= 1 && Chain(stack, key, family != null) && Weighty(stack[0].tree)
      requires Remove(stack[|stack| - 1].tree.kids[key[|stack| - 1]], key, |stack|) == Empty
      ensures r.Got? ==> r.child.InnerRef? && ChildValid(r.child, family != null)
      ensures r.Got? ==> ChildTree(r.child) == Remove(old(stack[0].tree), key, 0)
      ensures r.Failed? ==> family != null && StoreError(r.error)
    {
      ghost var trees := seq(|stack|, j requires 0 <= j < |stack| reads stack => stack[j].tree);
      TreeChain(stack, key, family != null, trees);
      ChainWeighty(trees, key);
      var i := |stack|;
      r := Got(Nil);
      while i > 0
        invariant 0 <= i <= |stack| && Chain(stack, key, family != null)
        invariant forall j :: 0 <= j < |stack| ==> stack[j].tree == trees[j]
        invariant r.Got? && ChildValid(r.child, family != null)
        invariant i < |stack| ==> ChildTree(r.child) == Remove(trees[i], key, i)
        invariant i == |stack| ==> r.child == Nil
        invariant i == 0 ==> r.child.InnerRef?
      {
        i := i - 1;
        ChainAt(trees, key, i);
        r := LevelOf(stack, key, i, r.child);
        if r.Failed? {
          return;
        }
      }
    }

    method LevelOf(stack: seq<InnerNode>, key: Key, i: nat, prev: Child) returns (r: Read)
      requires i < |stack| && Chain(stack, key, family != null) && Weighty(stack[i].tree)
      requires ChildValid(prev, family != null)
      requires stack[i].tree.Inner? && |stack[i].tree.kids| == 16
      requires ChildTree(prev) == Remove(stack[i].tree.kids[key[i]], key, i + 1)
      ensures Chain(stack, key, family != null)
      ensures forall j :: 0 <= j < |stack| ==> stack[j].tree == old(stack[j].tree)
      ensures r.Got? ==> ChildValid(r.child, family != null) && ChildTree(r.child) == Remove(stack[i].tree, key, i)
      ensures r.Got? && i == 0 ==> r.child.InnerRef?
      ensures r.Failed? ==> family != null && StoreError(r.error)
    {
      assert stack[i].Valid(family != null) && Canonical(stack[i].tree, key[..i]);
      r := ConsolidateLevel(stack[i], key, i, prev);
    }

    /** Delete without the state check. */
    method DeleteUnsafe(key: Key) returns (err: Option<Error>)
      requires Valid()
      modifies this`root
      ensures Valid()
      ensures err.None? ==> Lookup(old(root.tree), key, 0).Some? && root.tree == Remove(old(root.tree), key, 0)
      ensures err.Some? ==> root == old(root)
      ensures err == Some(ErrItemNotFound) ==> Lookup(old(root.tree), key, 0).None?
      ensures err.Some? && err.value != ErrItemNotFound ==> family != null && StoreError(err.value)
    {
      hide Chain, CanonicalRoot, Weighty, InnerNode.Valid;
      var w := WalkToKey(key);
      if w.Lost? {
        return Some(w.error);
      }
      ReachedLookup(w.stack, key, family != null, ChildTree(w.node));
      if !w.node.LeafRef? || w.node.leaf.key != key {
        return Some(ErrItemNotFound);
      }
      err := RemoveReached(w.stack, key);
    }

    method RemoveReached(stack: seq<InnerNode>, key: Key) returns (err: Option<Error>)
      requires Valid() && |stack| >= 1 && stack[0] == root && Chain(stack, key, family != null)
      requires Remove(stack[|stack| - 1].tree.kids[key[|stack| - 1]], key, |stack|) == Empty
      modifies this`root
      ensures Valid()
      ensures err.None? ==> root.tree == Remove(old(root.tree), key, 0)
      ensures err.Some? ==> root == old(root) && family != null && StoreError(err.value)
    {
      DeleteRefines(root.tree, key);
      RemoveWeighty(root.tree, key, 0);
      var r := ConsolidateAfterDelete(stack, key);
      if r.Failed? {
        return Some(r.error);
      }
      root := r.child.inner;
      return None;
    }

    // ------------------------------------------------------------- public calls

    /** Put. On every outcome the map stays canonical with matching hashes; on success
        its content is the old content with the key updated, otherwise it is the very
        same map. A map without a store fails only as documented. */
    method Put(key: Key, data: Data) returns (err: Option<Error>)
      requires Valid()
      modifies this`root
      ensures Valid()
      ensures err.None? ==> Content(root.tree, 0) == Content(old(root.tree), 0)[key := data]
      ensures err.None? ==> |data| >= 12 && root.tree == Apply(old(root.tree), Op.Put(key, data))
      ensures err.Some? ==> root == old(root)
      ensures state != Modifying ==> err == Some(ErrImmutable)
      ensures state == Modifying && family == null ==> (err.None? <==> |data| >= 12)
    {
      if state != Modifying {
        return Some(ErrImmutable);
      }
      PutRefines(root.tree, key, data);
      err := PutUnsafe(key, data);
    }

    /** Delete: exactly finite-map removal, or the very same map. */
    method Delete(key: Key) returns (err: Option<Error>)
      requires Valid()
      modifies this`root
      ensures Valid()
      ensures err.None? ==> key in Content(old(root.tree), 0)
      ensures err.None? ==> Content(root.tree, 0) == Content(old(root.tree), 0) - {key}
      ensures err.None? ==> root.tree == Apply(old(root.tree), Op.Delete(key))
      ensures err.Some? ==> root == old(root)
      ensures err == Some(ErrItemNotFound) ==> key !in Content(old(root.tree), 0)
      ensures state != Modifying ==> err == Some(ErrImmutable)
      ensures state == Modifying && family == null ==>
                (err.None? <==> key in Content(old(root.tree), 0)) && (err.Some? ==> err.value == ErrItemNotFound)
    {
      if state != Modifying {
        return Some(ErrImmutable);
      }
      DeleteRefines(root.tree, key);
      CanonicalPlaced(root.tree, []);
      ContentIsLookup(root.tree, [], key);
      err := DeleteUnsafe(key);
    }

    /** PutItemsAtomically: all items are staged on a private copy first, so a failure
        part way leaves this map as it was. */
    method PutItemsAtomically(items: seq<Option<(Key, Data)>>) returns (err: Option<Error>)
      requires Valid()
      modifies this`root
      ensures Valid()
      ensures err.None? ==> PutsOf(items).Some? && root.tree == ApplyAll(old(root.tree), PutsOf(items).value)
      ensures err.Some? ==> root == old(root)
      ensures state != Modifying ==> err == Some(ErrImmutable)
      ensures state == Modifying && family == null && PutsOf(items).Some? ==> err.None?
    {
      hide PutsOf, ApplyAll, InnerNode.Valid, CanonicalRoot, Weighty;
      if state != Modifying {
        return Some(ErrImmutable);
      }
      var staged: StateMap := new StateMap.Shared(this, true);
      BatchStarts(items, root.tree);
      var i := 0;
      while i < |items|
        invariant 0 <= i <= |items| && staged.Valid() && fresh(staged) && staged.family == family
        invariant Valid() && root == old(root)
        invariant Batched(items, i, old(root.tree), staged.root.tree)
        modifies staged`root
        decreases |items| - i
      {
        if items[i].None? {
          BatchRefused(items, i, old(root.tree), staged.root.tree);
          return Some(ErrNilItem);
        }
        var (k, v) := items[i].value;
        label Before:
        var e := staged.PutUnsafe(k, v);
        if e.Some? {
          if |v| < 12 {
            BatchRefused(items, i, old(root.tree), staged.root.tree);
          }
          return e;
        }
        BatchGrows(items, i, old(root.tree), old@Before(staged.root.tree));
        i := i + 1;
      }
      assert items[..|items|] == items;
      root := staged.root;
      return None;
    }

    /** SnapshotMutable, SnapshotImmutable and MutableFork share the whole tree. */
    method Snapshot(mutable: bool) returns (copy: StateMap?, err: Option<Error>)
      requires Valid()
      ensures err.Some? <==> state == Invalid
      ensures err.None? ==> copy != null && fresh(copy) && copy.Valid() && copy.root == root && copy.family == family
      ensures err.None? ==> copy.state == if mutable then Modifying else Immutable
    {
      if state == Invalid {
        return null, Some(ErrInvalidState);
      }
      copy := new StateMap.Shared(this, mutable);
      err := None;
    }
  }

  /** The calls a batch of items stands for, unless one of them is nil or too small. */
  function PutsOf(items: seq<Option<(Key, Data)>>): Option<seq<Op>> {
    if items == [] then Some([])
    else
      var rest, last := PutsOf(items[..|items| - 1]), items[|items| - 1];
      if rest.None? || last.None? || |last.value.1| < 12 then None
      else Some(rest.value + [Put(last.value.0, last.value.1)])
  }

  /** The staged tree holds the first i items of the batch. */
  ghost predicate Batched(items: seq<Option<(Key, Data)>>, i: nat, before: Tree, staged: Tree) {
    i <= |items| && PutsOf(items[..i]).Some? && staged == ApplyAll(before, PutsOf(items[..i]).value)
  }

  lemma {:induction false} BatchStarts(items: seq<Option<(Key, Data)>>, before: Tree)
    ensures Batched(items, 0, before, before)
  {
    assert items[..0] == [];
  }

  lemma {:induction false} BatchGrows(items: seq<Option<(Key, Data)>>, i: nat, before: Tree, staged: Tree)
    requires i < |items| && Batched(items, i, before, staged) && items[i].Some? && |items[i].value.1| >= 12
    ensures Batched(items, i + 1, before, Insert(staged, items[i].value.0, items[i].value.1, 0))
  {
    assert items[..i + 1][..i] == items[..i];
    var ops := PutsOf(items[..i + 1]).value;
    assert ops[..|ops| - 1] == PutsOf(items[..i]).value;
  }

  lemma {:induction false} BatchRefused(items: seq<Option<(Key, Data)>>, i: nat, before: Tree, staged: Tree)
    requires i < |items| && Batched(items, i, before, staged) && (items[i].None? || |items[i].value.1| < 12)
    ensures PutsOf(items).None?
  {
    assert items[..i + 1] == items[..i] + [items[i]];
    PutsOfPrefix(items, i + 1);
  }

  lemma {:induction false} PutsOfPrefix(items: seq<Option<(Key, Data)>>, n: nat)
    requires n <= |items| && PutsOf(items[..n]).None?
    ensures PutsOf(items).None?
    decreases |items|
  {
    if n == |items| {
      assert items[..n] == items;
    } else {
      assert items[..|items| - 1][..n] == items[..n];
      PutsOfPrefix(items[..|items| - 1], n);
    }
  }

  datatype Call = One(op: Op) | Batch(items: seq<Option<(Key, Data)>>)

  lemma {:induction false} ApplyAllAppend(t: Tree, a: seq<Op>, b: seq<Op>)
    ensures ApplyAll(t, a + b) == ApplyAll(ApplyAll(t, a), b)
    decreases |b|
  {
    if b == [] {
      assert a + b == a;
    } else {
      assert (a + b)[..|a + b| - 1] == a + b[..|b| - 1];
      ApplyAllAppend(t, a, b[..|b| - 1]);
    }
  }

  /** The updates a call stands for, unless an item of it is nil or too small. */
  function UpdatesOf(call: Call): Option<seq<Op>> {
    match call
    case One(Put(k, v)) => if |v| < 12 then None else Some([call.op])
    case One(Delete(_)) => Some([call.op])
    case Batch(items) => PutsOf(items)
  }

  /** The calls a modifiable map in memory takes: no nil or small item, no missing key. */
  ghost predicate Acceptable(call: Call, content: map<Key, Data>) {
    UpdatesOf(call).Some? && (call.One? && call.op.Delete? ==> call.op.key in content)
  }

  /** One call and the updates it made: all of its own, or none if it was refused. */
  method RunCall(m: StateMap, call: Call) returns (err: Option<Error>, made: seq<Op>)
    requires m.Valid()
    modifies m`root
    ensures m.Valid() && m.root.tree == ApplyAll(old(m.root.tree), made)
    ensures err.None? ==> UpdatesOf(call) == Some(made)
    ensures err.Some? ==> made == [] && m.root == old(m.root)
    ensures m.state != Modifying ==> err == Some(ErrImmutable)
    ensures m.state == Modifying && m.family == null ==> (err.None? <==> Acceptable(call, Content(old(m.root.tree), 0)))
  {
    match call
    case One(op) =>
      match op {
        case Put(k, v) => err := m.Put(k, v);
        case Delete(k) => err := m.Delete(k);
      }
      made := if err.None? then [op] else [];
    case Batch(items) =>
      err := m.PutItemsAtomically(items);
      made := if err.None? then PutsOf(items).value else [];
  }

  /** The updates of the calls that came off, in order. */
  ghost function Contribution(calls: seq<Call>, errs: seq<Option<Error>>): seq<Op>
    requires |calls| == |errs|
  {
    if calls == [] then []
    else
      var last := |calls| - 1;
      Contribution(calls[..last], errs[..last])
      + if errs[last].None? && UpdatesOf(calls[last]).Some? then UpdatesOf(calls[last]).value else []
  }

  /** The finite map after a sequence of calls on a modifiable map in memory. */
  ghost function MapAfterCalls(content: map<Key, Data>, calls: seq<Call>): map<Key, Data> {
    if calls == [] then content
    else
      var before, last := MapAfterCalls(content, calls[..|calls| - 1]), calls[|calls| - 1];
      if Acceptable(last, before) then MapAfterAll(before, UpdatesOf(last).value) else before
  }

  /** Snapshot isolation over whole runs: however two maps share nodes, any sequence
      of calls on one, failing or not, leaves the other's root, content and hash as
      they were, while the first stays the canonical tree of the finite map that the
      updates of the successful calls produce. On a modifiable map in memory those are
      exactly the acceptable ones. */
  method RunIsolated(m: StateMap, other: StateMap, calls: seq<Call>) returns (errs: seq<Option<Error>>, made: seq<Op>)
    requires m != other && m.Valid() && other.Valid()
    modifies m`root
    ensures m.Valid() && other.Valid()
    ensures other.root == old(other.root) && other.root.tree == old(other.root.tree)
    ensures other.root.hash == old(other.root.hash)
    ensures |errs| == |calls| && made == Contribution(calls, errs)
    ensures forall i :: 0 <= i < |calls| && errs[i].None? ==> UpdatesOf(calls[i]).Some?
    ensures Content(m.root.tree, 0) == MapAfterAll(Content(old(m.root.tree), 0), made)
    ensures m.root.hash == HashOf(AccountState, BuildRoot(MapAfterAll(Content(old(m.root.tree), 0), made)))
    ensures m.state != Modifying ==> Content(m.root.tree, 0) == Content(old(m.root.tree), 0)
    ensures m.state == Modifying && m.family == null ==>
      Content(m.root.tree, 0) == MapAfterCalls(Content(old(m.root.tree), 0), calls)
  {
    hide InnerNode.Valid, ApplyAll, CanonicalRoot, Acceptable, UpdatesOf, Content, MapAfterAll, Weighty;
    errs, made := [], [];
    var i := 0;
    ghost var start := Content(m.root.tree, 0);
    NoCalls(old(m.root.tree));
    while i < |calls|
      invariant 0 <= i <= |calls| && m.Valid() && other.Valid()
      invariant other.root == old(other.root) && other.root.tree == old(other.root.tree)
      invariant other.root.hash == old(other.root.hash)
      invariant m.root.tree == ApplyAll(old(m.root.tree), made)
      invariant |errs| == i && made == Contribution(calls[..i], errs)
      invariant forall j :: 0 <= j < i && errs[j].None? ==> UpdatesOf(calls[j]).Some?
      invariant m.state != Modifying ==> Content(m.root.tree, 0) == start
      invariant m.state == Modifying && m.family == null ==> Content(m.root.tree, 0) == MapAfterCalls(start, calls[..i])
    {
      ghost var before := m.root.tree;
      var err, more := RunCall(m, calls[i]);
      ApplyAllAppend(old(m.root.tree), made, more);
      HistoryRefines(before, more);
      assert calls[..i + 1][..i] == calls[..i] && (errs + [err])[..i] == errs;
      errs, made := errs + [err], made + more;
      i := i + 1;
    }
    assert calls[..|calls|] == calls;
    HistoryRefines(old(m.root.tree), made);
    CanonicalRootIsBuild(m.root.tree);
  }

  lemma {:induction false} NoCalls(t: Tree)
    ensures ApplyAll(t, []) == t
  {
  }
}
