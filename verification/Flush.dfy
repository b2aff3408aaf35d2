/** Writing dirty nodes to the store: shamap/persistence.go and
    shamap/persistence_bounded.go.

    The resident part of the tree is a value; the dirty flags are a set of positions.
    A branch that is not resident is known by the hash in its parent's preimage. */
module Flush {
  import opened KeyPath
  import opened Trie
  import opened Hashing
  import opened ScanModel
  import Sync

  type Path = seq<Nibble>

  /** A resident node: its hash, its serialized size, and its resident children. */
  datatype Resident = Resident(hash: Hash, size: nat, kids: seq<Option<Resident>>)

  /** dirtyBatchEntries, dirtyBatchBytes and DirtyWorkspaceBytes. */
  const BATCH_ENTRIES: nat := 256
  const BATCH_BYTES: nat := 8388608
  const WORKSPACE_BYTES: nat := 268435456

  function At(t: Resident, p: Path): Option<Resident>
    decreases |p|
  {
    if p == [] then Some(t)
    else
      var up := At(t, p[..|p| - 1]);
      if up.Some? && p[|p| - 1] < |up.value.kids| then up.value.kids[p[|p| - 1]] else None
  }

  lemma {:induction false} AtChild(t: Resident, p: Path, b: Nibble)
    ensures At(t, p + [b]) == if At(t, p).Some? && b < |At(t, p).value.kids| then At(t, p).value.kids[b] else None
  {
    assert (p + [b])[..|p|] == p;
  }

  // ---------------------------------------------------------------- dirty flags

  /** A dirty position is resident and the one above it is dirty. */
  ghost predicate Hangs(dirty: set<Path>, t: Resident, p: Path) {
    At(t, p).Some? && (p != [] ==> p[..|p| - 1] in dirty)
  }

  ghost predicate UpClosed(dirty: set<Path>, t: Resident) {
    forall p :: p in dirty ==> Hangs(dirty, t, p)
  }

  /** Above a dirty node everything is dirty. */
  lemma {:induction false} DirtyAbove(dirty: set<Path>, t: Resident, p: Path, q: Path)
    requires UpClosed(dirty, t) && q in dirty && p <= q
    ensures p in dirty
    decreases |q|
  {
    if p != q {
      assert Hangs(dirty, t, q);
      hide UpClosed, Hangs;
      assert p <= q[..|q| - 1];
      DirtyAbove(dirty, t, p, q[..|q| - 1]);
    }
  }

  lemma {:induction false} NotAbove(dirty: set<Path>, t: Resident, p: Path, q: Path)
    requires UpClosed(dirty, t) && q in dirty && p !in dirty
    ensures !(p <= q)
  {
    if p <= q {
      DirtyAbove(dirty, t, p, q);
    }
  }

  /** A clean resident node is in the store. */
  ghost predicate CleanStored(dirty: set<Path>, t: Resident, store: set<Hash>) {
    forall p :: At(t, p).Some? && p !in dirty ==> At(t, p).value.hash in store
  }

  function ChildPath(p: Path, b: Nibble): Path {
    p + [b]
  }

  ghost predicate ChildrenIn(batch: seq<Path>, dirty: set<Path>, p: Path) {
    forall b: Nibble :: ChildPath(p, b) in dirty ==> ChildPath(p, b) in batch
  }

  /** The positions of a batch are dirty, and so is no child of theirs outside it. */
  ghost predicate BatchOk(batch: seq<Path>, dirty: set<Path>) {
    forall p :: p in batch ==> p in dirty && ChildrenIn(batch, dirty, p)
  }

  /** Everything dirty at or below p is in the batch. */
  ghost predicate Covered(batch: seq<Path>, dirty: set<Path>, p: Path) {
    forall q :: q in dirty && p <= q ==> q in batch
  }

  /** Everything dirty below the first n children of p is in the batch. */
  ghost predicate KidsCovered(batch: seq<Path>, dirty: set<Path>, p: Path, n: nat) {
    forall b: Nibble :: b < n ==> Covered(batch, dirty, ChildPath(p, b))
  }

  function Members(batch: seq<Path>): set<Path> {
    set p | p in batch
  }

  function HashesOf(t: Resident, batch: seq<Path>): set<Hash> {
    set p | p in batch && At(t, p).Some? :: At(t, p).value.hash
  }

  /** Clearing the flags of a stored batch keeps every invariant: dirty nodes keep dirty
      ancestors, and clean nodes are in the store. */
  lemma {:induction false} BatchClears(batch: seq<Path>, dirty: set<Path>, t: Resident, store: set<Hash>)
    requires UpClosed(dirty, t) && CleanStored(dirty, t, store) && BatchOk(batch, dirty) && HashesOf(t, batch) <= store
    ensures UpClosed(dirty - Members(batch), t) && CleanStored(dirty - Members(batch), t, store)
  {
    var rest := dirty - Members(batch);
    forall q | q in rest
      ensures Hangs(rest, t, q)
    {
      assert Hangs(dirty, t, q);
      if q != [] {
        var p, b := q[..|q| - 1], q[|q| - 1];
        assert q == ChildPath(p, b);
        assert p in batch ==> ChildrenIn(batch, dirty, p);
      }
    }
    forall p | At(t, p).Some? && p !in rest
      ensures At(t, p).value.hash in store
    {
      if p in dirty {
        assert At(t, p).value.hash in HashesOf(t, batch);
      }
    }
  }

  /** A node whose children are covered may join the batch, and then is covered. */
  lemma {:induction false} Joins(batch: seq<Path>, dirty: set<Path>, t: Resident, p: Path)
    requires BatchOk(batch, dirty) && UpClosed(dirty, t) && p in dirty
    requires KidsCovered(batch, dirty, p, 16)
    ensures BatchOk(batch + [p], dirty) && Covered(batch + [p], dirty, p)
  {
    hide BatchOk, KidsCovered, Covered;
    JoinsOk(batch, dirty, p);
    JoinsCovered(batch, dirty, p);
  }

  lemma {:induction false} JoinsOk(batch: seq<Path>, dirty: set<Path>, p: Path)
    requires BatchOk(batch, dirty) && p in dirty && KidsCovered(batch, dirty, p, 16)
    ensures BatchOk(batch + [p], dirty)
  {
    var batch' := batch + [p];
    forall r | r in batch'
      ensures r in dirty && ChildrenIn(batch', dirty, r)
    {
      if r in batch {
        assert ChildrenIn(batch, dirty, r);
      } else {
        forall b: Nibble | ChildPath(p, b) in dirty
          ensures ChildPath(p, b) in batch'
        {
          assert Covered(batch, dirty, ChildPath(p, b));
        }
      }
    }
  }

  lemma {:induction false} JoinsCovered(batch: seq<Path>, dirty: set<Path>, p: Path)
    requires p in dirty && KidsCovered(batch, dirty, p, 16)
    ensures Covered(batch + [p], dirty, p)
  {
    var batch' := batch + [p];
    forall q | q in dirty && p <= q
      ensures q in batch'
    {
      if q != p {
        var b := q[|p|];
        assert ChildPath(p, b) <= q;
        assert Covered(batch, dirty, ChildPath(p, b));
      }
    }
  }

  /** A clean node has nothing dirty below it. */
  lemma {:induction false} CleanIsCovered(batch: seq<Path>, dirty: set<Path>, t: Resident, p: Path)
    requires UpClosed(dirty, t) && p !in dirty
    ensures Covered(batch, dirty, p)
  {
    forall q | q in dirty
      ensures !(p <= q)
    {
      NotAbove(dirty, t, p, q);
    }
  }

  datatype Result = Ok | Failed | Unavailable

  function Min(a: nat, b: nat): nat {
    if a < b then a else b
  }

  // ------------------------------------------------------------------ reopening

  /** The resident tree is what its hashes say, and what is not resident is in the
      store. */
  ghost predicate Grounded(t: Resident, store: set<Hash>)
    decreases t
  {
    && t.hash.Digest?
    && (t.hash.pre.InnerPre? ==>
          && |t.hash.pre.kids| == |t.kids| == 16
          && forall i :: 0 <= i < 16 ==>
               if t.kids[i].Some? then t.kids[i].value.hash == t.hash.pre.kids[i] && Grounded(t.kids[i].value, store)
               else Filed(t.hash.pre.kids[i], store))
  }

  /** The same of a root, which may be empty. */
  ghost predicate Based(t: Resident, store: set<Hash>) {
    t.hash.Zero? || Grounded(t, store)
  }

  lemma {:induction false} FiledGrows(h: Hash, s: set<Hash>, s': set<Hash>)
    requires Filed(h, s) && s <= s'
    ensures Filed(h, s')
    decreases h
  {
    if IsFan(h) {
      forall i | 0 <= i < 16
        ensures Filed(h.pre.kids[i], s')
      {
        FiledGrows(h.pre.kids[i], s, s');
      }
    }
  }

  lemma {:induction false} GroundedGrows(t: Resident, s: set<Hash>, s': set<Hash>)
    requires Grounded(t, s) && s <= s'
    ensures Grounded(t, s')
    decreases t
  {
    if t.hash.pre.InnerPre? {
      forall i | 0 <= i < 16
        ensures if t.kids[i].Some? then Grounded(t.kids[i].value, s') else Filed(t.hash.pre.kids[i], s')
      {
        if t.kids[i].Some? {
          GroundedGrows(t.kids[i].value, s, s');
        } else {
          FiledGrows(t.hash.pre.kids[i], s, s');
        }
      }
    }
  }

  lemma {:induction false} BasedGrows(t: Resident, s: set<Hash>, s': set<Hash>)
    requires Based(t, s) && s <= s'
    ensures Based(t, s')
  {
    if !t.hash.Zero? {
      GroundedGrows(t, s, s');
    }
  }

  /** With nothing dirty, everything the root refers to is in the store. */
  lemma {:induction false} FlushedIsFiled(root: Resident, path: Path, t: Resident, store: set<Hash>)
    requires CleanStored({}, root, store) && At(root, path) == Some(t) && Grounded(t, store)
    ensures Filed(t.hash, store)
    decreases t
  {
    assert t.hash in store;
    if t.hash.pre.InnerPre? {
      forall i | 0 <= i < 16
        ensures Filed(t.hash.pre.kids[i], store)
      {
        AtChild(root, path, i);
        if t.kids[i].Some? {
          FlushedIsFiled(root, path + [i], t.kids[i].value, store);
        }
      }
    }
  }

  lemma {:induction false} FlushedRoot(t: Resident, store: set<Hash>)
    requires CleanStored({}, t, store) && Based(t, store)
    ensures Filed(t.hash, store)
  {
    if !t.hash.Zero? {
      FlushedIsFiled(t, [], t, store);
    }
  }

  /** Opened by its root hash alone, the map reads as it should, exactly if every leaf has
      a record that decodes. */
  ghost predicate Reopens(h: Hash, store: set<Hash>, txKey: Data -> Key) {
    forall kind: LeafKind, t: Tree :: CanonicalRoot(t) && Sync.Keyed(kind, t, txKey) && HashOf(kind, t) == h ==>
      (Sync.Legible(kind, t) <==>
        forall k: Key :: Sync.Reads(map[], store, txKey, [], h, k, 0) == Some(Lookup(t, k, 0)))
  }

  /** A map whose records are all in the store reopens. */
  lemma {:induction false} Reopened(h: Hash, store: set<Hash>, txKey: Data -> Key)
    requires Filed(h, store)
    ensures Reopens(h, store, txKey)
  {
    forall kind: LeafKind, t: Tree | CanonicalRoot(t) && Sync.Keyed(kind, t, txKey) && HashOf(kind, t) == h
      ensures Sync.Legible(kind, t) <==>
        forall k: Key :: Sync.Reads(map[], store, txKey, [], h, k, 0) == Some(Lookup(t, k, 0))
    {
      Sync.ReadsExactly(map[], store, txKey, kind, t);
    }
  }

  /** The zero key: put into a state map and flushed with it, and yet not to be read once
      the map is opened again. */
  lemma {:induction false} ZeroKeyIsLost(zero: Key, data: Data, txKey: Data -> Key)
    requires IsZeroKey(Pack(zero)) && |data| >= 12
    ensures CanonicalRoot(OneItem(zero, data)) && Lookup(OneItem(zero, data), zero, 0) == Some(data)
    ensures var store := {HashOf(AccountState, OneItem(zero, data)), LeafHash(AccountState, zero, data)};
      && Filed(HashOf(AccountState, OneItem(zero, data)), store)
      && Sync.Reads(map[], store, txKey, [], HashOf(AccountState, OneItem(zero, data)), zero, 0) == None
  {
    var t := OneItem(zero, data);
    var h, leaf := HashOf(AccountState, t), LeafHash(AccountState, zero, data);
    var store := {h, leaf};
    OneItemMap(zero, data);
    assert t.kids[zero[0]] == Leaf(zero, data);
    assert h.pre.kids[zero[0]] == leaf && !Sync.Readable(leaf);
    assert forall i :: 0 <= i < 16 ==> h.pre.kids[i] == if i == zero[0] then leaf else Zero;
    assert Lookup(t, zero, 0) == Lookup(t.kids[zero[0]], zero, 1);
    hide Pack, IsZeroKey;
    Sync.ReadsOn(map[], store, txKey, [], h, zero);
  }

  /** A tree being flushed under a memory budget. */
  class Flusher {
    /** The budget's limit, and the fixed size of a batch. */
    const limit: nat
    const structure: nat

    var tree: Resident
    var dirty: set<Path>
    var store: set<Hash>

    var batch: seq<Path>
    var charged: nat
    var reserved: nat
    var needed: nat
    /** What the budget has handed out to this flush. */
    var held: nat

    function Workspace(): nat {
      Min(WORKSPACE_BYTES, limit)
    }

    function BatchLimit(): nat {
      if Workspace() > structure then Min(BATCH_BYTES, Workspace() - structure) else 0
    }

    /** The workspace in use never exceeds its limit, and is what the budget handed out. */
    ghost predicate Bounded()
      reads this
    {
      && held == reserved <= Workspace() && |batch| <= BATCH_ENTRIES
      && (batch != [] ==> reserved == charged + structure)
    }

    ghost predicate Valid()
      reads this
    {
      UpClosed(dirty, tree) && CleanStored(dirty, tree, store) && Based(tree, store) && BatchOk(batch, dirty)
        && Bounded()
    }

    constructor (tree: Resident, dirty: set<Path>, store: set<Hash>, limit: nat, structure: nat)
      requires UpClosed(dirty, tree) && CleanStored(dirty, tree, store) && Based(tree, store)
      ensures Valid() && held == 0 && batch == [] && this.tree == tree && this.dirty == dirty && this.store == store
    {
      this.tree, this.dirty, this.store, this.limit, this.structure := tree, dirty, store, limit, structure;
      batch, charged, reserved, needed, held := [], 0, 0, 0, 0;
    }

    method TryReserve(bytes: nat) returns (ok: bool)
      modifies `held
      ensures held == old(held) + if ok then bytes else 0
    {
      ok := *;
      if ok {
        held := held + bytes;
      }
    }

    /** releaseBatch: everything reserved goes back. */
    method ReleaseBatch()
      requires Valid()
      modifies `batch, `charged, `reserved, `held
      ensures Valid() && batch == [] && held == 0 && reserved == 0
    {
      batch, charged, held := [], 0, held - reserved;
      reserved := 0;
    }

    /** The store callback: on success it has every entry; on failure it may have some. */
    method Write() returns (ok: bool)
      requires Valid()
      modifies `store
      ensures Valid() && old(store) <= store && (ok ==> HashesOf(tree, batch) <= store)
    {
      ok := *;
      if ok {
        BasedGrows(tree, store, store + HashesOf(tree, batch));
        hide Based;
        store := store + HashesOf(tree, batch);
      }
    }

    /** Clears the flags of a stored batch, node by node. */
    method ClearFlags()
      modifies `dirty
      ensures dirty == old(dirty) - Members(batch)
    {
      for i := 0 to |batch|
        invariant dirty == old(dirty) - Members(batch[..i])
      {
        assert Members(batch[..i + 1]) == Members(batch[..i]) + {batch[i]};
        dirty := dirty - {batch[i]};
      }
      assert batch[..|batch|] == batch;
    }

    /** flush: the batch is stored and then becomes clean, or stays dirty. */
    method FlushBatch() returns (r: Result)
      requires Valid()
      modifies `batch, `charged, `reserved, `held, `store, `dirty
      ensures Valid() && old(store) <= store && batch == [] && (r == Ok || r == Failed)
      ensures r == Ok ==> dirty == old(dirty) - Members(old(batch))
      ensures r == Ok && old(batch) == [] ==> reserved == old(reserved)
      ensures r == Failed ==> dirty == old(dirty) && held == 0
    {
      if batch == [] {
        assert dirty - Members(batch) == dirty;
        return Ok;
      }
      var cancelled: bool, ok: bool := *, false;
      if !cancelled {
        ok := Write();
      }
      if !ok {
        ReleaseBatch();
        return Failed;
      }
      BatchClears(batch, dirty, tree, store);
      ClearFlags();
      hide UpClosed, CleanStored, Based;
      batch, charged, held := [], 0, held - reserved;
      reserved := 0;
      return Ok;
    }

    /** Whether a node may join the batch: full in number or bytes, it may not. */
    predicate BatchFull(charge: nat)
      reads this
    {
      |batch| == BATCH_ENTRIES || charged > BatchLimit() || charge > BatchLimit() - charged
    }

    /** reserveNode: workspace for one more node, after flushing if need be. */
    method ReserveNode(charge: nat) returns (r: Result)
      requires Valid() && Workspace() > structure
      modifies `batch, `charged, `reserved, `needed, `held, `store, `dirty
      ensures Valid() && old(store) <= store
      ensures r == Ok ==> |batch| < BATCH_ENTRIES && reserved == charged + structure
      ensures r == Ok ==>
        || (batch == old(batch) && dirty == old(dirty))
        || (batch == [] && dirty == old(dirty) - Members(old(batch)))
      ensures r == Unavailable ==> needed <= Workspace() && batch == [] && held == 0
    {
      if charge > Workspace() - structure {
        return Failed;
      }
      hide UpClosed, CleanStored, Based, BatchOk;
      if batch != [] {
        var admitted := false;
        if !BatchFull(charge) {
          admitted := TryReserve(charge);
        }
        var cancelled: bool := *;
        if admitted && cancelled {
          held := held - charge;
          return Failed;
        }
        if admitted {
          reserved, charged := reserved + charge, charged + charge;
          return Ok;
        }
        r := FlushBatch();
        if r != Ok {
          return;
        }
      }
      r := ReserveFirst(charge);
    }

    /** The first node of a batch; what was reserved while waiting counts. */
    method ReserveFirst(charge: nat) returns (r: Result)
      requires Valid() && batch == [] && Workspace() > structure && charge <= Workspace() - structure
      modifies `batch, `charged, `reserved, `needed, `held
      ensures Valid() && batch == []
      ensures r == Ok ==> reserved == charged + structure
      ensures r == Unavailable ==> needed <= Workspace() && held == 0
    {
      hide UpClosed, CleanStored, Based, BatchOk;
      var first := charge + structure;
      if reserved < first {
        var ok := TryReserve(first - reserved);
        if !ok {
          ReleaseBatch();
          needed := first;
          return Unavailable;
        }
      } else {
        held := held - (reserved - first);
      }
      reserved := first;
      var cancelled: bool := *;
      if cancelled {
        return Failed;
      }
      charged := charge;
      return Ok;
    }

    /** Appends a node whose children are covered; a full batch is flushed at once. */
    method Emit(path: Path) returns (r: Result)
      requires Valid() && path in dirty && |batch| < BATCH_ENTRIES && reserved == charged + structure
      requires KidsCovered(batch, dirty, path, 16)
      modifies `batch, `charged, `reserved, `held, `store, `dirty
      ensures Valid() && old(store) <= store && r != Unavailable
      ensures r == Ok ==> Covered(batch, dirty, path) && Step(old(batch), old(dirty), batch, dirty, path)
    {
      Joins(batch, dirty, tree, path);
      batch := batch + [path];
      if |batch| == BATCH_ENTRIES || charged >= BatchLimit() {
        r := FlushBatch();
      } else {
        r := Ok;
      }
    }

    /** visit: everything dirty at and below a node gets stored or into the batch, children
        before their parent. */
    method Visit(node: Resident, path: Path) returns (r: Result)
      requires Valid() && At(tree, path) == Some(node) && Workspace() > structure && Clear(batch, path)
      modifies `batch, `charged, `reserved, `needed, `held, `store, `dirty
      ensures Valid() && old(store) <= store
      ensures r == Ok ==> Covered(batch, dirty, path) && Step(old(batch), old(dirty), batch, dirty, path)
      ensures r == Unavailable ==> needed <= Workspace() && batch == [] && held == 0
      decreases node, 2
    {
      StepSelf(batch, dirty, path);
      if path !in dirty {
        CleanIsCovered(batch, dirty, tree, path);
        return Ok;
      }
      var cancelled: bool := *;
      if cancelled {
        return Failed;
      }
      hide UpClosed, CleanStored, Based, BatchOk, Covered, Step, Clear, StepBelow;
      r := VisitKids(node, path);
      if r == Ok {
        ghost var batch1, dirty1 := batch, dirty;
        NotYet(old(batch), old(dirty), batch, dirty, path);
        r := VisitSelf(node, path);
        if r == Ok {
          StepAfter(old(batch), old(dirty), batch1, dirty1, batch, dirty, path);
        }
      }
    }

    method VisitKids(node: Resident, path: Path) returns (r: Result)
      requires Valid() && At(tree, path) == Some(node) && Workspace() > structure && Clear(batch, path)
      modifies `batch, `charged, `reserved, `needed, `held, `store, `dirty
      ensures Valid() && old(store) <= store
      ensures r == Ok ==> StepBelow(old(batch), old(dirty), batch, dirty, path, 16)
      ensures r == Ok ==> KidsCovered(batch, dirty, path, 16)
      ensures r == Unavailable ==> needed <= Workspace() && batch == [] && held == 0
      decreases node, 1
    {
      hide UpClosed, CleanStored, Based, BatchOk, Covered, Step, Clear, StepBelow, KidsCovered, At, ChildPath;
      StepNone(batch, dirty, path);
      KidsNone(batch, dirty, path);
      r := Ok;
      for b := 0 to 16
        invariant Valid() && old(store) <= store && StepBelow(old(batch), old(dirty), batch, dirty, path, b)
        invariant KidsCovered(batch, dirty, path, b)
      {
        ghost var batch0, dirty0 := batch, dirty;
        ClearNext(old(batch), old(dirty), batch, dirty, path, b);
        r := VisitKid(node, path, b);
        if r != Ok {
          return;
        }
        StepNext(old(batch), old(dirty), batch0, dirty0, batch, dirty, path, b);
        KidsNext(batch0, dirty0, batch, dirty, path, b);
      }
      r := Ok;
    }

    method VisitKid(node: Resident, path: Path, b: Nibble) returns (r: Result)
      requires Valid() && At(tree, path) == Some(node) && Workspace() > structure && Clear(batch, ChildPath(path, b))
      modifies `batch, `charged, `reserved, `needed, `held, `store, `dirty
      ensures Valid() && old(store) <= store
      ensures r == Ok ==>
        && Covered(batch, dirty, ChildPath(path, b))
        && Step(old(batch), old(dirty), batch, dirty, ChildPath(path, b))
      ensures r == Unavailable ==> needed <= Workspace() && batch == [] && held == 0
      decreases node, 0
    {
      AtChild(tree, path, b);
      if b < |node.kids| && node.kids[b].Some? {
        hide UpClosed, CleanStored, Based, BatchOk, Covered, Step, Clear;
        r := Visit(node.kids[b].value, ChildPath(path, b));
      } else {
        assert ChildPath(path, b) in dirty ==> Hangs(dirty, tree, ChildPath(path, b));
        StepSelf(batch, dirty, ChildPath(path, b));
        CleanIsCovered(batch, dirty, tree, ChildPath(path, b));
        r := Ok;
      }
    }

    /** The node itself, once its children are done. */
    method VisitSelf(node: Resident, path: Path) returns (r: Result)
      requires Valid() && Workspace() > structure && path in dirty && path !in batch
      requires KidsCovered(batch, dirty, path, 16)
      modifies `batch, `charged, `reserved, `needed, `held, `store, `dirty
      ensures Valid() && old(store) <= store
      ensures r == Ok ==> Covered(batch, dirty, path) && Step(old(batch), old(dirty), batch, dirty, path)
      ensures r == Unavailable ==> needed <= Workspace() && batch == [] && held == 0
    {
      r := ReserveNode(3 * (node.size + 128));
      if r != Ok {
        return;
      }
      assert Step(old(batch), old(dirty), batch, dirty, path);
      ghost var batch1, dirty1 := batch, dirty;
      KidsStill(old(batch), old(dirty), batch, dirty, path);
      hide UpClosed, CleanStored, Based, BatchOk, Covered;
      r := Emit(path);
      if r == Ok {
        StepOn(old(batch), old(dirty), batch1, dirty1, batch, dirty, path);
      }
    }

    /** storeLocked: one walk under the tree's lock. */
    method StoreLocked() returns (r: Result)
      requires Valid() && batch == []
      modifies `batch, `charged, `reserved, `needed, `held, `store, `dirty
      ensures Valid() && old(store) <= store && (r != Failed ==> batch == [])
      ensures r == Ok ==> (tree.hash.Zero? || dirty == {}) && Filed(tree.hash, store)
      ensures r == Unavailable ==> needed <= Workspace() && held == 0
    {
      var cancelled: bool := *;
      if cancelled {
        return Failed;
      }
      if tree.hash.Zero? {
        return Ok;
      }
      if Workspace() <= structure {
        return Failed;
      }
      hide UpClosed, CleanStored, Based, BatchOk, Step, StepBelow;
      r := Visit(tree, []);
      if r == Ok {
        ghost var batch1, dirty1 := batch, dirty;
        r := FlushBatch();
        assert r == Ok ==> dirty == dirty1 - Members(batch1);
        if r == Ok {
          FlushedRoot(tree, store);
        }
      }
    }

    /** The tree may change while nobody holds its lock; mutations mark what they touch. */
    method Change(tree': Resident, dirty': set<Path>, store': set<Hash>)
      requires Valid() && batch == [] && UpClosed(dirty', tree') && CleanStored(dirty', tree', store')
      requires Based(tree', store') && store <= store'
      modifies `tree, `dirty, `store
      ensures Valid() && tree == tree' && dirty == dirty' && store == store'
    {
      tree, dirty, store := tree', dirty', store';
    }

    /** Whatever happens while waiting. The contract is all that is relied on, and every
        change meets it. */
    method Elsewhere()
      requires Valid() && batch == []
      modifies `tree, `dirty, `store
      ensures Valid() && old(store) <= store
    {
      Change(tree, dirty, store);
    }

    /** reserveDirtyMemory: waits until the budget has room, or is cancelled. */
    method AwaitMemory() returns (ok: bool)
      requires Valid() && batch == [] && reserved == 0 && needed <= Workspace()
      modifies `held, `reserved
      ensures Valid() && held == if ok then needed else 0
    {
      hide UpClosed, CleanStored, Based, BatchOk;
      ok := TryReserve(needed);
      if ok {
        reserved := needed;
      }
    }

    /** StoreDirtyBatched with a budget, giving up after so many waits. On every exit the
        workspace is given back and the invariants hold; after success on a map that is
        not empty nothing is dirty, and the map can be opened again by its root hash. */
    method StoreDirtyBatched(waits: nat, ghost txKey: Data -> Key) returns (r: Result)
      requires Valid() && batch == [] && held == 0
      modifies this
      ensures Valid() && batch == [] && held == 0 && old(store) <= store
      ensures r == Ok ==>
        && (tree.hash.Zero? || dirty == {}) && Filed(tree.hash, store)
        && Reopens(tree.hash, store, txKey)
    {
      hide Reopens, Filed;
      hide UpClosed, CleanStored, Based, BatchOk;
      r := Unavailable;
      for i := 0 to waits
        invariant Valid() && batch == [] && old(store) <= store
      {
        r := StoreLocked();
        if r != Unavailable {
          ReleaseBatch();
          if r == Ok {
            Reopened(tree.hash, store, txKey);
          }
          return;
        }
        Elsewhere();
        var ok := AwaitMemory();
        if !ok {
          return Failed;
        }
      }
      ReleaseBatch();
      r := Unavailable;
    }

    /** collectDirtyNode: the dirty nodes at and below a position, children first. */
    method Collect(node: Resident, path: Path, list: seq<Path>) returns (ok: bool, list': seq<Path>)
      requires UpClosed(dirty, tree) && At(tree, path) == Some(node) && Clear(list, path) && PostOrder(list, dirty)
      ensures ok ==> PostOrder(list', dirty) && Covered(list', dirty, path) && Step(list, dirty, list', dirty, path)
      decreases node, 2
    {
      hide UpClosed, PostOrder, Covered, Step, StepBelow, Clear;
      if path !in dirty {
        StepSelf(list, dirty, path);
        CleanIsCovered(list, dirty, tree, path);
        return true, list;
      }
      ok, list' := CollectKids(node, path, list);
      if ok {
        Last(list, list', dirty, tree, path);
        list' := list' + [path];
      }
    }

    method CollectKids(node: Resident, path: Path, list: seq<Path>) returns (ok: bool, list': seq<Path>)
      requires UpClosed(dirty, tree) && At(tree, path) == Some(node) && Clear(list, path) && PostOrder(list, dirty)
      ensures ok ==> PostOrder(list', dirty) && StepBelow(list, dirty, list', dirty, path, 16)
      ensures ok ==> KidsCovered(list', dirty, path, 16)
      decreases node, 1
    {
      hide UpClosed, PostOrder, Covered, Step, StepBelow, Clear, KidsCovered, At, ChildPath;
      ok, list' := true, list;
      StepNone(list, dirty, path);
      KidsNone(list, dirty, path);
      for b := 0 to 16
        invariant PostOrder(list', dirty) && StepBelow(list, dirty, list', dirty, path, b)
        invariant KidsCovered(list', dirty, path, b)
      {
        ghost var before := list';
        ClearNext(list, dirty, list', dirty, path, b);
        ok, list' := CollectKid(node, path, b, list');
        if !ok {
          return;
        }
        StepNext(list, dirty, before, dirty, list', dirty, path, b);
        KidsNext(before, dirty, list', dirty, path, b);
      }
      ok := true;
    }

    method CollectKid(node: Resident, path: Path, b: Nibble, list: seq<Path>) returns (ok: bool, list': seq<Path>)
      requires UpClosed(dirty, tree) && At(tree, path) == Some(node) && Clear(list, ChildPath(path, b))
        && PostOrder(list, dirty)
      ensures ok ==>
        && PostOrder(list', dirty) && Covered(list', dirty, ChildPath(path, b))
        && Step(list, dirty, list', dirty, ChildPath(path, b))
      decreases node, 0
    {
      AtChild(tree, path, b);
      var cancelled: bool := *;
      if cancelled {
        return false, list;
      }
      if b < |node.kids| && node.kids[b].Some? {
        hide UpClosed, PostOrder, Covered, Step, Clear;
        ok, list' := Collect(node.kids[b].value, ChildPath(path, b), list);
      } else {
        assert ChildPath(path, b) in dirty ==> Hangs(dirty, tree, ChildPath(path, b));
        StepSelf(list, dirty, ChildPath(path, b));
        CleanIsCovered(list, dirty, tree, ChildPath(path, b));
        ok, list' := true, list;
      }
    }

    /** storeDirtyLocked: all dirty nodes are stored at once, then cleaned one by one. A
        cancellation between two of them leaves every dirty node below dirty ones. */
    method StoreDirty(ghost txKey: Data -> Key) returns (ok: bool)
      requires Valid() && batch == []
      modifies `dirty, `store
      ensures Valid() && old(store) <= store
      ensures ok ==> (tree.hash.Zero? || dirty == {}) && Filed(tree.hash, store) && Reopens(tree.hash, store, txKey)
    {
      hide Reopens;
      if tree.hash.Zero? {
        Reopened(tree.hash, store, txKey);
        return true;
      }
      var list;
      ok, list := Collect(tree, [], []);
      if !ok {
        return;
      }
      var stored: bool := *;
      if !stored {
        return false;
      }
      StoreMore(dirty, tree, store, store + HashesOf(tree, list));
      BasedGrows(tree, store, store + HashesOf(tree, list));
      hide Based, Filed;
      store := store + HashesOf(tree, list);
      ok := CleanAll(list);
      if ok {
        FlushedRoot(tree, store);
        Reopened(tree.hash, store, txKey);
      }
    }

    method CleanAll(list: seq<Path>) returns (ok: bool)
      requires Valid() && batch == [] && PostOrder(list, dirty) && Covered(list, dirty, [])
        && HashesOf(tree, list) <= store
      modifies `dirty
      ensures Valid() && (ok ==> dirty == {})
    {
      hide UpClosed, CleanStored, Based, PostOrder, BatchOk, HashesOf;
      ghost var d := dirty;
      EmptyBatch(dirty);
      assert dirty - Members(list[..0]) == dirty;
      for i := 0 to |list|
        invariant UpClosed(dirty, tree) && CleanStored(dirty, tree, store) && batch == []
          && dirty == d - Members(list[..i])
      {
        var cancelled: bool := *;
        if cancelled {
          EmptyBatch(dirty);
          return false;
        }
        PrefixClears(list, i + 1, d, tree, store);
        assert Members(list[..i + 1]) == Members(list[..i]) + {list[i]};
        assert d - Members(list[..i + 1]) == dirty - {list[i]};
        dirty := dirty - {list[i]};
      }
      EmptyBatch(dirty);
      assert list[..|list|] == list;
      ok := true;
    }

    /** acknowledgePersistedNode: flags are cleared children first, so that wherever the
        walk is cancelled every dirty node keeps dirty ancestors. */
    method AcknowledgeNode(node: Resident, path: Path) returns (ok: bool)
      requires UpClosed(dirty, tree) && At(tree, path) == Some(node)
      modifies `dirty
      ensures UpClosed(dirty, tree) && Step([], old(dirty), [], dirty, path)
      ensures ok ==> Covered([], dirty, path)
      decreases node, 1
    {
      hide UpClosed, Covered, Step, StepBelow, KidsCovered, At, ChildPath, Clear;
      StepSelf([], dirty, path);
      if path !in dirty {
        CleanIsCovered([], dirty, tree, path);
        return true;
      }
      NoneBelow(path);
      KidsNone([], dirty, path);
      StepNone([], dirty, path);
      for b := 0 to 16
        invariant UpClosed(dirty, tree) && StepBelow([], old(dirty), [], dirty, path, b)
        invariant KidsCovered([], dirty, path, b)
      {
        ghost var dirty0 := dirty;
        ok := AcknowledgeKid(node, path, b);
        StepNext([], old(dirty), [], dirty0, [], dirty, path, b);
        if !ok {
          StepWider([], old(dirty), [], dirty, path, b + 1);
          return;
        }
        KidsNext([], dirty0, [], dirty, path, b);
      }
      var cancelled: bool := *;
      StepWider([], old(dirty), [], dirty, path, 16);
      if cancelled {
        return false;
      }
      Alone(dirty, tree, path);
      StepOff(old(dirty), dirty, path);
      dirty := dirty - {path};
      ok := true;
    }

    method AcknowledgeKid(node: Resident, path: Path, b: Nibble) returns (ok: bool)
      requires UpClosed(dirty, tree) && At(tree, path) == Some(node)
      modifies `dirty
      ensures UpClosed(dirty, tree) && Step([], old(dirty), [], dirty, ChildPath(path, b))
      ensures ok ==> Covered([], dirty, ChildPath(path, b))
      decreases node, 0
    {
      AtChild(tree, path, b);
      if b < |node.kids| && node.kids[b].Some? {
        hide UpClosed, Covered, Step;
        ok := AcknowledgeNode(node.kids[b].value, ChildPath(path, b));
      } else {
        assert ChildPath(path, b) in dirty ==> Hangs(dirty, tree, ChildPath(path, b));
        StepSelf([], dirty, ChildPath(path, b));
        CleanIsCovered([], dirty, tree, ChildPath(path, b));
        ok := true;
      }
    }
  }

  lemma {:induction false} NoneBelow(p: Path)
    ensures Clear([], p)
  {
  }

  /** A dirty node without dirty children may be cleaned. */
  lemma {:induction false} Alone(dirty: set<Path>, t: Resident, p: Path)
    requires UpClosed(dirty, t) && KidsCovered([], dirty, p, 16)
    ensures UpClosed(dirty - {p}, t) && Covered([], dirty - {p}, p)
  {
    var rest := dirty - {p};
    forall q | q in rest
      ensures Hangs(rest, t, q) && !(p <= q)
    {
      assert Hangs(dirty, t, q);
      if p <= q {
        StrictlyBelow(p, q);
      }
    }
  }

  lemma {:induction false} StrictlyBelow(p: Path, q: Path)
    requires p <= q && p != q
    ensures |p| < |q| && ChildPath(p, q[|p|]) <= q
  {
  }

  lemma {:induction false} StepWider(b: seq<Path>, d: set<Path>, b': seq<Path>, d': set<Path>, p: Path, n: nat)
    requires StepBelow(b, d, b', d', p, n)
    ensures Step(b, d, b', d', p)
  {
  }

  lemma {:induction false} StepOff(d: set<Path>, d': set<Path>, p: Path)
    requires Step([], d, [], d', p)
    ensures Step([], d, [], d' - {p}, p)
  {
  }

  lemma {:induction false} EmptyBatch(dirty: set<Path>)
    ensures BatchOk([], dirty)
  {
  }

  /** Every node of the list is dirty, and its dirty children come before it. */
  ghost predicate PostOrder(list: seq<Path>, dirty: set<Path>) {
    forall i :: 0 <= i < |list| ==> list[i] in dirty && ChildrenIn(list[..i], dirty, list[i])
  }

  lemma {:induction false} Last(list: seq<Path>, list': seq<Path>, dirty: set<Path>, t: Resident, p: Path)
    requires UpClosed(dirty, t) && PostOrder(list', dirty) && StepBelow(list, dirty, list', dirty, p, 16) && p in dirty
    requires KidsCovered(list', dirty, p, 16)
    ensures PostOrder(list' + [p], dirty) && Covered(list' + [p], dirty, p) && Step(list, dirty, list' + [p], dirty, p)
  {
    var all := list' + [p];
    forall i | 0 <= i < |all|
      ensures all[i] in dirty && ChildrenIn(all[..i], dirty, all[i])
    {
      if i < |list'| {
        assert all[..i] == list'[..i];
      } else {
        assert all[..i] == list';
        assert KidsCovered(list', dirty, p, 16);
      }
    }
    assert Covered(all, dirty, p) by {
      forall q | q in dirty && p <= q
        ensures q in all
      {
        if q != p {
          assert ChildPath(p, q[|p|]) <= q;
          assert Covered(list', dirty, ChildPath(p, q[|p|]));
        }
      }
    }
  }

  lemma {:induction false} StoreMore(dirty: set<Path>, t: Resident, store: set<Hash>, store': set<Hash>)
    requires CleanStored(dirty, t, store) && store <= store'
    ensures CleanStored(dirty, t, store')
  {
  }

  lemma {:induction false} PrefixClears(list: seq<Path>, i: nat, dirty: set<Path>, t: Resident, store: set<Hash>)
    requires PostOrder(list, dirty) && i <= |list|
    requires UpClosed(dirty, t) && CleanStored(dirty, t, store) && HashesOf(t, list) <= store
    ensures UpClosed(dirty - Members(list[..i]), t) && CleanStored(dirty - Members(list[..i]), t, store)
  {
    forall p | p in list[..i]
      ensures p in dirty && ChildrenIn(list[..i], dirty, p)
    {
      var j :| 0 <= j < i && list[j] == p;
      assert ChildrenIn(list[..j], dirty, p);
      assert forall q :: q in list[..j] ==> q in list[..i];
    }
    BatchClears(list[..i], dirty, t, store);
  }

  /** No position of the batch is at or below p. */
  ghost predicate Clear(batch: seq<Path>, p: Path) {
    forall q :: q in batch ==> !(p <= q)
  }

  /** From one state of a flush to a later one, working at or below p: nothing became
      dirty; what was in the batch and is still dirty is still in it; what joined the
      batch or left the dirty set without having been in the batch is at or below p. */
  ghost predicate Step(b: seq<Path>, d: set<Path>, b': seq<Path>, d': set<Path>, p: Path) {
    && (forall q :: q in d' ==> q in d && (q in b ==> q in b'))
    && (forall q :: q in b' ==> q in b || p <= q)
    && (forall q :: q in d ==> q in d' || q in b || p <= q)
  }

  lemma {:induction false} StepSelf(b: seq<Path>, d: set<Path>, p: Path)
    ensures Step(b, d, b, d, p)
  {
  }

  lemma {:induction false} StepOn(b: seq<Path>, d: set<Path>, b1: seq<Path>, d1: set<Path>, b2: seq<Path>,
                                  d2: set<Path>, p: Path)
    requires Step(b, d, b1, d1, p) && Step(b1, d1, b2, d2, p)
    ensures Step(b, d, b2, d2, p)
  {
  }

  lemma {:induction false} StepCovered(b: seq<Path>, d: set<Path>, b': seq<Path>, d': set<Path>, p: Path, q: Path)
    requires Step(b, d, b', d', p) && Covered(b, d, q)
    ensures Covered(b', d', q)
  {
  }

  lemma {:induction false} KidsNone(b: seq<Path>, d: set<Path>, p: Path)
    ensures KidsCovered(b, d, p, 0)
  {
  }

  lemma {:induction false} KidsNext(b: seq<Path>, d: set<Path>, b': seq<Path>, d': set<Path>, p: Path, n: Nibble)
    requires Step(b, d, b', d', ChildPath(p, n)) && KidsCovered(b, d, p, n) && Covered(b', d', ChildPath(p, n))
    ensures KidsCovered(b', d', p, n + 1)
  {
    forall c: Nibble | c < n
      ensures Covered(b', d', ChildPath(p, c))
    {
      StepCovered(b, d, b', d', ChildPath(p, n), ChildPath(p, c));
    }
  }

  lemma {:induction false} KidsStill(b: seq<Path>, d: set<Path>, b': seq<Path>, d': set<Path>, p: Path)
    requires Step(b, d, b', d', p) && KidsCovered(b, d, p, 16)
    ensures KidsCovered(b', d', p, 16)
  {
    forall c: Nibble
      ensures Covered(b', d', ChildPath(p, c))
    {
      StepCovered(b, d, b', d', p, ChildPath(p, c));
    }
  }

  /** The same, working at or below the first n children of p. */
  ghost predicate StepBelow(b: seq<Path>, d: set<Path>, b': seq<Path>, d': set<Path>, p: Path, n: nat) {
    && Clear(b, p)
    && (forall q :: q in d' ==> q in d && (q in b ==> q in b'))
    && (forall q :: q in b' ==> q in b || UnderKid(q, p, n))
    && (forall q :: q in d ==> q in d' || q in b || UnderKid(q, p, n))
  }

  ghost predicate UnderKid(q: Path, p: Path, n: nat) {
    |p| < |q| && p <= q && q[|p|] < n
  }

  lemma {:induction false} StepNone(b: seq<Path>, d: set<Path>, p: Path)
    requires Clear(b, p)
    ensures StepBelow(b, d, b, d, p, 0)
  {
  }

  lemma {:induction false} ClearNext(b: seq<Path>, d: set<Path>, b': seq<Path>, d': set<Path>, p: Path, n: Nibble)
    requires StepBelow(b, d, b', d', p, n)
    ensures Clear(b', ChildPath(p, n))
  {
    forall q | q in b'
      ensures !(ChildPath(p, n) <= q)
    {
      if ChildPath(p, n) <= q {
        UnderChild(q, p, n);
      }
    }
  }

  lemma {:induction false} UnderChild(q: Path, p: Path, n: Nibble)
    requires ChildPath(p, n) <= q
    ensures p <= q && UnderKid(q, p, n + 1) && !UnderKid(q, p, n)
  {
    assert q[|p|] == ChildPath(p, n)[|p|];
  }

  lemma {:induction false} StepNext(b: seq<Path>, d: set<Path>, b1: seq<Path>, d1: set<Path>, b2: seq<Path>,
                                    d2: set<Path>, p: Path, n: Nibble)
    requires StepBelow(b, d, b1, d1, p, n) && Step(b1, d1, b2, d2, ChildPath(p, n))
    ensures StepBelow(b, d, b2, d2, p, n + 1)
  {
    forall q | (q in b2 || q in d1) && ChildPath(p, n) <= q
      ensures UnderKid(q, p, n + 1)
    {
      UnderChild(q, p, n);
    }
  }

  /** After the children, the node itself is still dirty and not in the batch. */
  lemma {:induction false} NotYet(b: seq<Path>, d: set<Path>, b': seq<Path>, d': set<Path>, p: Path)
    requires StepBelow(b, d, b', d', p, 16) && p in d
    ensures p in d' && p !in b'
  {
    assert !UnderKid(p, p, 16);
  }

  lemma {:induction false} StepAfter(b: seq<Path>, d: set<Path>, b1: seq<Path>, d1: set<Path>, b2: seq<Path>,
                                     d2: set<Path>, p: Path)
    requires StepBelow(b, d, b1, d1, p, 16) && Step(b1, d1, b2, d2, p)
    ensures Step(b, d, b2, d2, p)
  {
  }
}
