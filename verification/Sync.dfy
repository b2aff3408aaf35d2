/** Acquiring a map from peers: shamap/sync_acquire.go and shamap/sync_state.go.

    The loaded part of the tree is a dictionary from positions to nodes. Attaching a
    node adds an entry; the node's children stay known by hash until they are attached
    in turn. */
module Sync {
  import opened KeyPath
  import opened Trie
  import opened Mutation
  import opened Hashing
  import opened WireFormat
  import ScanModel
  import Scanner

  type Loaded = map<seq<Nibble>, Node>

  datatype AddResult = NodeInvalid | NodeUseful | NodeDuplicate | NodeReRequest

  datatype Search = Found | NotFound | OutOfMemory

  /** A root without branches. */
  const EMPTY_ROOT: Node := InnerNode(ScanModel.NO_HASHES, ScanModel.NO_BITS)

  /** What the parsers and the store guarantee of a single node: a leaf is one they
      accept. */
  ghost predicate NodeOk(n: Node, txKey: Data -> Key) {
    match n
    case InnerNode(hashes, bits) =>
      |hashes| == |bits| == 16 && forall i :: 0 <= i < 16 && !bits[i] ==> hashes[i] == Zero
    case LeafNode(kind, key, data) => ReadsBack(kind, key, data, txKey)
  }

  /** The node at a position other than the root is the one its parent records. */
  ghost predicate Fits(m: Loaded, p: seq<Nibble>) {
    p in m && (p != [] ==>
      var up := p[..|p| - 1];
      && up in m && m[up].InnerNode? && |m[up].hashes| == |m[up].bits| == 16
      && m[up].bits[p[|p| - 1]]
      && Recorded(m[up], p[|p| - 1], m[p]))
  }

  /** The inner node's record for a branch is the hash of the child. */
  ghost predicate Recorded(n: Node, b: Nibble, child: Node) {
    && n.InnerNode? && |n.hashes| == 16
    && (child.InnerNode? ==> |child.hashes| == |child.bits| == 16)
    && NodeHash(child) == n.hashes[b]
  }

  /** Every loaded node is as recorded, from the root down. */
  ghost predicate Safe(m: Loaded, txKey: Data -> Key) {
    && (forall p :: p in m ==> NodeOk(m[p], txKey) && Fits(m, p))
    && ([] in m ==> m[[]].InnerNode?)
  }

  lemma {:induction false} SafeAt(m: Loaded, txKey: Data -> Key, p: seq<Nibble>)
    requires Safe(m, txKey) && p in m
    ensures NodeOk(m[p], txKey) && Fits(m, p)
  {
  }

  lemma {:induction false} ParsedIsOk(b: Blob, txKey: Data -> Key)
    requires Deserialized(b, txKey).Some?
    ensures NodeOk(Deserialized(b, txKey).value, txKey)
  {
    var body := b[..|b| - 1];
    ParsedReadsBack(AccountState, body, txKey);
    ParsedReadsBack(Transaction, body, txKey);
    ParsedReadsBack(TransactionWithMeta, body, txKey);
    hide ParseLeaf, Entries, ReadsBack;
  }

  lemma {:induction false} ParsedReadsBack(kind: LeafKind, body: Blob, txKey: Data -> Key)
    ensures var n := ParseLeaf(kind, body, txKey);
      n.Some? ==> n.value.LeafNode? && ReadsBack(n.value.kind, n.value.key, n.value.data, txKey)
  {
    if ParseLeaf(kind, body, txKey).Some? && KeyOnWire(kind) {
      var raw: RawKey := Bytes(body)[|body| - 32..];
      PackUnpack(raw, Unpack(raw));
      hide Pack, Unpack;
    }
  }

  // ------------------------------------------------------------ stored records

  /** The hashes whose record, if the store has it, decodes to a node. */
  predicate Readable(h: Hash) {
    h.Digest? && Materializes(h.pre)
  }

  function NonZero(kids: seq<Hash>): (r: seq<bool>)
    ensures |r| == |kids| && forall i :: 0 <= i < |r| ==> r[i] == (kids[i] != Zero)
  {
    seq(|kids|, i requires 0 <= i < |kids| => kids[i] != Zero)
  }

  /** materializePrefixNode. */
  function Materialized(record: Preimage, txKey: Data -> Key): (n: Node)
    requires Decodable(record)
  {
    match record
    case InnerPre(kids) => InnerNode(kids, NonZero(kids))
    case LeafPre(kind, data, key) => LeafNode(kind, if key.Some? then key.value else txKey(data), data)
  }

  /** deserializeFromPrefix: bytes that are no record, and records the parser refuses, give
      nothing. The hash is not compared here. */
  function FromPrefix(record: Option<Preimage>, txKey: Data -> Key): Option<Node> {
    if record.Some? && Decodable(record.value) then Some(Materialized(record.value, txKey)) else None
  }

  lemma {:induction false} FromPrefixIsOk(record: Option<Preimage>, txKey: Data -> Key)
    requires FromPrefix(record, txKey).Some?
    ensures NodeOk(FromPrefix(record, txKey).value, txKey)
  {
  }

  /** decodeAndVerifyPrefixNode. */
  function Decoded(h: Hash, txKey: Data -> Key): (n: Node)
    requires Readable(h)
  {
    Materialized(h.pre, txKey)
  }

  lemma {:induction false} DecodedIsOk(h: Hash, txKey: Data -> Key)
    requires Readable(h)
    ensures NodeOk(Decoded(h, txKey), txKey) && NodeHash(Decoded(h, txKey)) == h
  {
    if h.pre.InnerPre? {
      var n := Decoded(h, txKey);
      assert Masked(n) == h.pre.kids;
      var i :| 0 <= i < 16 && h.pre.kids[i] != Zero;
      assert n.bits[i];
    }
  }

  // ------------------------------------------------------------------ attaching

  /** A position fits as before if it and its parent are as before. */
  lemma {:induction false} FitsStill(m: Loaded, m': Loaded, r: seq<Nibble>)
    requires Fits(m, r) && r in m' && m'[r] == m[r]
    requires r != [] ==> r[..|r| - 1] in m' && r[..|r| - 1] in m && m'[r[..|r| - 1]] == m[r[..|r| - 1]]
    ensures Fits(m', r)
  {
  }

  lemma {:induction false} ParentLoaded(m: Loaded, r: seq<Nibble>)
    requires Fits(m, r) && r != []
    ensures r[..|r| - 1] in m
  {
  }

  lemma {:induction false} FitsNew(m: Loaded, p: seq<Nibble>, b: Nibble, n: Node)
    requires p in m && p + [b] in m && m[p].InnerNode? && |m[p].bits| == 16 && m[p].bits[b] && m[p + [b]] == n
    requires Recorded(m[p], b, n)
    ensures Fits(m, p + [b])
  {
    assert (p + [b])[..|p|] == p;
  }

  lemma {:induction false} AttachIsSafe(m: Loaded, txKey: Data -> Key, p: seq<Nibble>, b: Nibble, n: Node)
    requires Safe(m, txKey) && p in m && m[p].InnerNode? && |m[p].bits| == 16 && m[p].bits[b] && p + [b] !in m
    requires NodeOk(n, txKey) && Recorded(m[p], b, n)
    ensures Safe(m[p + [b] := n], txKey)
  {
    hide Fits, NodeOk, Recorded;
    var q := p + [b];
    var m' := m[q := n];
    FitsNew(m', p, b, n);
    forall r | r in m'
      ensures NodeOk(m'[r], txKey) && Fits(m', r)
    {
      if r != q {
        if r != [] {
          ParentLoaded(m, r);
        }
        FitsStill(m, m', r);
      }
    }
  }

  /** The positions that stay when the subtree at q is replaced. */
  function Without(m: Loaded, q: seq<Nibble>): Loaded {
    map p | p in m && !(q <= p) :: m[p]
  }

  /** The first slot at or after branch b that records the hash, depth first: a slot
      comes before those below the node that hangs in it. */
  ghost function SlotFrom(m: Loaded, at: seq<Nibble>, b: nat, target: Hash): Option<seq<Nibble>>
    requires b <= 16
    decreases 65 - |at|, 16 - b
  {
    if at !in m || !m[at].InnerNode? || |at| > 64 || |m[at].bits| != 16 || |m[at].hashes| != 16 || b == 16 then None
    else if !m[at].bits[b] then SlotFrom(m, at, b + 1, target)
    else if m[at].hashes[b] == target then Some(at + [b])
    else
      var deeper := SlotFrom(m, at + [b], 0, target);
      if deeper.Some? then deeper else SlotFrom(m, at, b + 1, target)
  }

  lemma {:induction false} SlotIsBelow(m: Loaded, at: seq<Nibble>, b: nat, target: Hash)
    requires b <= 16
    ensures var q := SlotFrom(m, at, b, target);
      q.Some? ==> |at| < |q.value| && at <= q.value && q.value[..|q.value| - 1] in m
    decreases 65 - |at|, 16 - b
  {
    if at in m && m[at].InnerNode? && |at| <= 64 && |m[at].bits| == 16 && |m[at].hashes| == 16 && b < 16 {
      SlotIsBelow(m, at, b + 1, target);
      SlotIsBelow(m, at + [b], 0, target);
    }
  }

  lemma {:induction false} ReplaceIsSafe(m: Loaded, txKey: Data -> Key, p: seq<Nibble>, b: Nibble, n: Node)
    requires Safe(m, txKey) && p in m && m[p].InnerNode? && |m[p].bits| == 16 && m[p].bits[b]
    requires NodeOk(n, txKey) && Recorded(m[p], b, n)
    ensures Safe(Without(m, p + [b])[p + [b] := n], txKey)
  {
    hide Fits, NodeOk, Recorded;
    var q := p + [b];
    var m' := Without(m, q)[q := n];
    assert !(q <= p);
    FitsNew(m', p, b, n);
    forall r | r in m'
      ensures NodeOk(m'[r], txKey) && Fits(m', r)
    {
      if r != q {
        if r != [] {
          ParentLoaded(m, r);
          StaysOutside(q, r);
        }
        FitsStill(m, m', r);
      }
    }
  }

  lemma {:induction false} StaysOutside(q: seq<Nibble>, r: seq<Nibble>)
    requires r != [] && !(q <= r)
    ensures !(q <= r[..|r| - 1])
  {
  }

  /** A dirty node is loaded, and so is every node above it dirty. */
  ghost predicate DirtyUp(dirty: set<seq<Nibble>>, m: Loaded, p: seq<Nibble>) {
    p in m && (p != [] ==> p[..|p| - 1] in dirty)
  }

  ghost predicate DirtyOk(dirty: set<seq<Nibble>>, m: Loaded) {
    forall p :: p in dirty ==> DirtyUp(dirty, m, p)
  }

  /** A position and all above it. */
  function Upwards(p: seq<Nibble>): (s: set<seq<Nibble>>)
    ensures p in s
    decreases |p|
  {
    if p == [] then {p} else {p} + Upwards(p[..|p| - 1])
  }

  lemma {:induction false} UpwardsOk(p: seq<Nibble>, m: Loaded, txKey: Data -> Key)
    requires Safe(m, txKey) && p in m
    ensures DirtyOk(Upwards(p), m)
    decreases |p|
  {
    hide Safe, NodeOk;
    if p != [] {
      SafeAt(m, txKey, p);
      ParentLoaded(m, p);
      hide Fits;
      UpwardsOk(p[..|p| - 1], m, txKey);
      DirtyJoin({p} + Upwards(p[..|p| - 1]), Upwards(p[..|p| - 1]), m, p);
    }
  }

  lemma {:induction false} DirtyJoin(all: set<seq<Nibble>>, up: set<seq<Nibble>>, m: Loaded, p: seq<Nibble>)
    requires DirtyOk(up, m) && p in m && p != [] && p[..|p| - 1] in up && all == {p} + up
    ensures DirtyOk(all, m)
  {
  }

  lemma {:induction false} DirtyUnion(a: set<seq<Nibble>>, b: set<seq<Nibble>>, m: Loaded)
    requires DirtyOk(a, m) && DirtyOk(b, m)
    ensures DirtyOk(a + b, m)
  {
  }

  lemma {:induction false} DirtyLarger(dirty: set<seq<Nibble>>, m: Loaded, m': Loaded)
    requires DirtyOk(dirty, m) && m.Keys <= m'.Keys
    ensures DirtyOk(dirty, m')
  {
  }

  /** Replacing a subtree drops the flags below it. */
  lemma {:induction false} DirtyWithout(dirty: set<seq<Nibble>>, m: Loaded, q: seq<Nibble>)
    requires DirtyOk(dirty, m)
    ensures DirtyOk((set p | p in dirty && !(q <= p)), Without(m, q))
  {
    var rest := set p | p in dirty && !(q <= p);
    forall p | p in rest
      ensures DirtyUp(rest, Without(m, q), p)
    {
      assert DirtyUp(dirty, m, p);
      if p != [] {
        StaysOutside(q, p);
      }
    }
  }

  /** Nodes loaded before are still there, unchanged. */
  ghost predicate Extends(m: Loaded, m': Loaded) {
    forall p :: p in m ==> p in m' && m'[p] == m[p]
  }

  lemma {:induction false} ExtendsSelf(m: Loaded)
    ensures Extends(m, m)
  {
  }

  lemma {:induction false} RootIsInner(m: Loaded, txKey: Data -> Key)
    requires Safe(m, txKey) && [] in m
    ensures m[[]].InnerNode? && NodeOk(m[[]], txKey)
  {
  }

  lemma {:induction false} ExtendsOn(m: Loaded, m': Loaded, m'': Loaded)
    requires Extends(m, m') && Extends(m', m'')
    ensures Extends(m, m'')
  {
  }

  /** The parent records this very node at the position, and the node may be there. */
  ghost predicate Wanted(parent: Node, target: seq<Nibble>, n: Node) {
    && target != [] && |target| <= 64 && parent.InnerNode? && |parent.bits| == 16 && parent.bits[target[|target| - 1]]
    && Recorded(parent, target[|target| - 1], n)
    && (n.LeafNode? ==> target <= n.key) && (n.InnerNode? ==> |target| < 64)
  }

  /** The position is open, its parent is loaded, and the parent records this node there. */
  ghost predicate Awaited(m: Loaded, target: seq<Nibble>, n: Node) {
    target != [] && target !in m && target[..|target| - 1] in m && Wanted(m[target[..|target| - 1]], target, n)
  }

  /** The next position towards the target is loaded and goes on. */
  ghost predicate Leads(m: Loaded, target: seq<Nibble>, cur: nat, parent: Node, linked: bool) {
    && linked && cur + 1 < |target| && target[..cur + 1] in m && m[target[..cur + 1]].InnerNode?
    && parent.InnerNode? && |parent.bits| == 16 && parent.bits[target[cur]]
  }

  lemma {:induction false} UpLoaded(m: Loaded, txKey: Data -> Key, p: seq<Nibble>)
    requires Safe(m, txKey) && p in m && p != []
    ensures p[..|p| - 1] in m && m[p[..|p| - 1]].InnerNode? && |m[p[..|p| - 1]].bits| == 16
      && m[p[..|p| - 1]].bits[p[|p| - 1]]
  {
    hide Safe;
    SafeAt(m, txKey, p);
  }

  /** Everything above a loaded node is loaded. */
  lemma {:induction false} AboveLoaded(m: Loaded, txKey: Data -> Key, p: seq<Nibble>, n: nat)
    requires Safe(m, txKey) && p in m && n <= |p|
    ensures p[..n] in m && (n < |p| ==> m[p[..n]].InnerNode? && |m[p[..n]].bits| == 16 && m[p[..n]].bits[p[n]])
    decreases |p|
  {
    hide Safe, Fits;
    if n == |p| {
      assert p[..n] == p;
    } else {
      var up := p[..|p| - 1];
      UpLoaded(m, txKey, p);
      if n == |up| {
        assert p[..n] == up;
      } else {
        AboveLoaded(m, txKey, up, n);
        assert up[..n] == p[..n];
      }
    }
  }

  lemma {:induction false} EmptyIsNothing(txKey: Data -> Key)
    ensures Deserialized([], txKey).None?
  {
  }

  lemma {:induction false} NoRecord(txKey: Data -> Key)
    ensures FromPrefix(None, txKey).None?
  {
  }

  lemma {:induction false} RootIsTaken(m: Loaded, target: seq<Nibble>)
    ensures target == [] ==> forall n :: !Awaited(m, target, n)
  {
  }

  lemma {:induction false} AwaitedLeads(m: Loaded, txKey: Data -> Key, target: seq<Nibble>, cur: nat, n: Node)
    requires Safe(m, txKey) && Awaited(m, target, n) && cur < |target|
    ensures target[..cur] in m
    ensures cur + 1 < |target| ==> Leads(m, target, cur, m[target[..cur]], true)
    ensures cur + 1 == |target| ==> target !in m && Wanted(m[target[..cur]], target, n)
  {
    hide Safe, Fits, Recorded;
    var up := target[..|target| - 1];
    AboveLoaded(m, txKey, up, cur);
    assert up[..cur] == target[..cur];
    if cur + 1 < |target| {
      AboveLoaded(m, txKey, up, cur + 1);
      assert up[..cur + 1] == target[..cur + 1];
      assert cur + 1 == |up| ==> up == target[..cur + 1];
    }
  }

  /** A map being acquired. */
  class SyncMap {
    const txKey: Data -> Key
    /** Whether a store stands behind the map. */
    const backed: bool

    var loaded: Loaded
    var dirty: set<seq<Nibble>>
    var state: MapState
    /** The hashes the store has a record of. */
    var store: set<Hash>

    ghost predicate Valid()
      reads this
    {
      Safe(loaded, txKey) && [] in loaded && DirtyOk(dirty, loaded)
    }

    /** The root has a branch set. */
    predicate HasRoot()
      reads this
    {
      [] in loaded && loaded[[]].InnerNode? && exists i :: 0 <= i < |loaded[[]].bits| && loaded[[]].bits[i]
    }

    /** A new map: an empty root, not yet stored. */
    constructor (txKey: Data -> Key, backed: bool)
      ensures Valid() && loaded == map[[] := EMPTY_ROOT] && dirty == {[]} && state == Modifying && store == {}
      ensures this.txKey == txKey && this.backed == backed
    {
      this.txKey, this.backed := txKey, backed;
      loaded, dirty, state, store := map[[] := EMPTY_ROOT], {[]}, Modifying, {};
    }

    /** StartSync. */
    method StartSync() returns (ok: bool)
      requires Valid()
      modifies `state
      ensures Valid() && ok == (old(state) != Invalid) && (ok ==> state == Syncing) && (!ok ==> state == Invalid)
    {
      if state == Invalid {
        return false;
      }
      state := Syncing;
      ok := true;
    }

    /** The store gains records. */
    method StoreGrows(more: set<Hash>)
      requires Valid()
      modifies `store
      ensures Valid() && store == old(store) + more
    {
      store := store + more;
    }

    /** addRootNode: a root that has branches is never replaced, and any other by every
        well-formed inner node with the hash asked for. A root without branches has no
        entry; asked for one, the call fails with the root in place. */
    method AddRootNode(hash: Hash, blob: Blob, withEntry: bool) returns (ok: bool)
      requires Valid()
      modifies `loaded, `dirty, `state
      ensures Valid()
      ensures var n := Deserialized(blob, txKey);
        if old(HasRoot()) || n.None? || !n.value.InnerNode? || NodeHash(n.value) != hash then
          !ok && loaded == old(loaded) && dirty == old(dirty) && state == old(state)
        else
          && loaded == map[[] := n.value] && dirty == (if withEntry then {} else {[]}) && state == Syncing
          && (ok <==> !withEntry || HasRoot())
    {
      if HasRoot() {
        return false;
      }
      if blob == [] {
        EmptyIsNothing(txKey);
        return false;
      }
      var parsed := Deserialize(blob, txKey);
      if parsed.None? || !parsed.value.InnerNode? || NodeHash(parsed.value) != hash {
        return false;
      }
      ParsedIsOk(blob, txKey);
      loaded, dirty, state := map[[] := parsed.value], if withEntry then {} else {[]}, Syncing;
      ok := !withEntry || HasRoot();
    }

    /** The last step of attachKnownNodeAt: the node goes into the slot if its hash is
        the one recorded there, a leaf only on its own key's path. `linked` says the
        parent is in the tree and not just read on the way. */
    method AttachAt(at: seq<Nibble>, parent: Node, linked: bool, b: Nibble, parsed: Option<Node>, markDirty: bool)
      returns (result: AddResult, ghost refused: bool)
      requires Valid() && parent.InnerNode? && NodeOk(parent, txKey) && parent.bits[b]
      requires linked ==> at in loaded && loaded[at] == parent
      requires parsed.Some? ==> NodeOk(parsed.value, txKey)
      requires linked ==> at + [b] !in loaded
      modifies `loaded, `dirty, `state
      ensures Valid() && Extends(old(loaded), loaded)
      ensures loaded == old(loaded)
        || (linked && result == NodeUseful && parsed.Some? && loaded == old(loaded)[at + [b] := parsed.value])
      ensures result == NodeUseful ==> parsed.Some? && Recorded(parent, b, parsed.value)
      ensures result == NodeUseful && parsed.value.LeafNode? ==> at + [b] <= parsed.value.key
      ensures state != old(state) ==> state == Invalid && parsed.Some? && parsed.value.InnerNode? && |at| + 1 == 64
      ensures linked && !refused && parsed.Some? && Wanted(parent, at + [b], parsed.value) ==>
                result == NodeUseful && loaded == old(loaded)[at + [b] := parsed.value]
                && dirty == old(dirty) + if markDirty then Upwards(at + [b]) else {}
    {
      hide Safe, DirtyOk, Fits;
      refused := false;
      if parsed.None? {
        return NodeInvalid, false;
      }
      var n := parsed.value;
      if n.InnerNode? && |at| + 1 == 64 {
        state := Invalid;
        return NodeInvalid, false;
      }
      if NodeHash(n) != parent.hashes[b] {
        return NodeInvalid, false;
      }
      if n.LeafNode? && !(at + [b] <= n.key) {
        return NodeInvalid, false;
      }
      var retained: bool := *;
      refused := !retained;
      if !retained && (markDirty || !backed) {
        return NodeInvalid, true;
      }
      if retained && linked {
        hide NodeOk, NodeHash;
        AttachSafely(loaded, txKey, at, b, n);
        DirtyLarger(dirty, loaded, loaded[at + [b] := n]);
        loaded := loaded[at + [b] := n];
        if markDirty {
          UpwardsOk(at + [b], loaded, txKey);
          DirtyUnion(dirty, Upwards(at + [b]), loaded);
          dirty := dirty + Upwards(at + [b]);
        }
      }
      return NodeUseful, refused;
    }

    /** A hash-only ancestor on the way is read from the store and, memory permitting,
        attached. */
    method LoadAncestor(at: seq<Nibble>, parent: Node, linked: bool, b: Nibble, markDirty: bool)
      returns (child: Option<Node>, linked': bool, result: AddResult)
      requires Valid() && parent.InnerNode? && NodeOk(parent, txKey) && parent.bits[b]
      requires linked ==> at in loaded && loaded[at] == parent && at + [b] !in loaded
      modifies `loaded
      ensures Valid() && Extends(old(loaded), loaded)
      ensures child.Some? ==> NodeOk(child.value, txKey) && Recorded(parent, b, child.value)
      ensures child.Some? && linked' ==> at + [b] in loaded && loaded[at + [b]] == child.value
      ensures result == NodeReRequest || result == NodeInvalid
    {
      child, linked', result := None, false, NodeReRequest;
      var cancelled: bool, retained: bool := *, *;
      if cancelled {
        return None, false, NodeInvalid;
      }
      var h := parent.hashes[b];
      if h !in store || !Readable(h) {
        return;
      }
      var n := Decoded(h, txKey);
      DecodedIsOk(h, txKey);
      if !retained && markDirty {
        return None, false, NodeInvalid;
      }
      child, linked' := Some(n), linked && retained;
      if linked' {
        hide Safe, DirtyOk, NodeOk, Fits;
        AttachSafely(loaded, txKey, at, b, n);
        DirtyLarger(dirty, loaded, loaded[at + [b] := n]);
        loaded := loaded[at + [b] := n];
      }
    }

    /** One level of attachKnownNodeAt. */
    method StepTowards(target: seq<Nibble>, cur: nat, parent: Node, linked: bool, parsed: Option<Node>, markDirty: bool)
      returns (done: bool, result: AddResult, parent': Node, linked': bool, ghost refused: bool)
      requires Valid() && cur < |target| <= 64 && NodeOk(parent, txKey) && parent.InnerNode?
      requires linked ==> target[..cur] in loaded && loaded[target[..cur]] == parent
      requires parsed.Some? ==> NodeOk(parsed.value, txKey)
      modifies `loaded, `dirty, `state
      ensures Valid() && Extends(old(loaded), loaded) && (state == old(state) || state == Invalid)
      ensures done && result == NodeUseful && parsed.Some? && parsed.value.LeafNode? ==> target <= parsed.value.key
      ensures !done ==> cur + 1 < |target| && NodeOk(parent', txKey) && parent'.InnerNode?
      ensures !done && linked' ==> target[..cur + 1] in loaded && loaded[target[..cur + 1]] == parent'
      ensures Leads(old(loaded), target, cur, parent, linked) ==>
        !done && linked' && loaded == old(loaded) && dirty == old(dirty)
      ensures (&& linked && cur + 1 == |target| && target !in old(loaded) && parsed.Some?
               && Wanted(parent, target, parsed.value) && !refused) ==>
                done && result == NodeUseful && loaded == old(loaded)[target := parsed.value]
                && dirty == old(dirty) + if markDirty then Upwards(target) else {}
    {
      hide Safe, DirtyOk, Fits;
      refused := false;
      done, result, parent', linked' := true, NodeInvalid, parent, linked;
      var at, b := target[..cur], target[cur];
      assert at + [b] == target[..cur + 1];
      if !parent.bits[b] {
        return;
      }
      var present := linked && at + [b] in loaded;
      if cur + 1 == |target| {
        assert target[..cur + 1] == target;
        if present {
          result := NodeDuplicate;
        } else {
          result, refused := AttachAt(at, parent, linked, b, parsed, markDirty);
        }
        return;
      }
      if present {
        parent' := loaded[at + [b]];
        SafeAt(loaded, txKey, at + [b]);
      } else {
        var read;
        read, linked', result := LoadAncestor(at, parent, linked, b, markDirty);
        if read.None? {
          return;
        }
        parent' := read.value;
      }
      if !parent'.InnerNode? {
        result := NodeDuplicate;
        return;
      }
      done := false;
    }

    /** attachKnownNodeAt. Whatever a peer sends, nodes already loaded stay as they are,
        so the root and its hash do; a node is only attached under the hash recorded for
        it. */
    method AttachKnownNodeAt(target: seq<Nibble>, parsed: Option<Node>, markDirty: bool)
      returns (result: AddResult, ghost refused: bool)
      requires Valid() && target != [] && |target| <= 64
      requires parsed.Some? ==> NodeOk(parsed.value, txKey)
      modifies `loaded, `dirty, `state
      ensures Valid() && Extends(old(loaded), loaded) && (state == old(state) || state == Invalid)
      ensures result == NodeUseful && parsed.Some? && parsed.value.LeafNode? ==> target <= parsed.value.key
      ensures parsed.Some? && Awaited(old(loaded), target, parsed.value) && !refused ==>
                result == NodeUseful && loaded == old(loaded)[target := parsed.value]
                && dirty == old(dirty) + if markDirty then Upwards(target) else {}
    {
      hide Safe, DirtyOk, Fits, NodeOk, Extends, Readable, Wanted, Awaited, Leads;
      result, refused := NodeInvalid, false;
      ExtendsSelf(loaded);
      RootIsInner(loaded, txKey);
      var parent, linked, cur, done := loaded[[]], true, 0, false;
      assert target[..0] == [];
      while !done
        invariant 0 <= cur <= |target| && Valid() && Extends(old(loaded), loaded)
          && (state == old(state) || state == Invalid)
        invariant !done ==> cur < |target| && NodeOk(parent, txKey) && parent.InnerNode?
        invariant !done && linked ==> target[..cur] in loaded && loaded[target[..cur]] == parent
        invariant done && result == NodeUseful && parsed.Some? && parsed.value.LeafNode? ==> target <= parsed.value.key
        invariant parsed.Some? && Awaited(old(loaded), target, parsed.value) && !done ==>
          linked && loaded == old(loaded) && dirty == old(dirty)
        invariant parsed.Some? && Awaited(old(loaded), target, parsed.value) && done && !refused ==>
                    result == NodeUseful && loaded == old(loaded)[target := parsed.value]
                    && dirty == old(dirty) + if markDirty then Upwards(target) else {}
        decreases |target| - cur, !done
      {
        ghost var before := loaded;
        if parsed.Some? && Awaited(old(loaded), target, parsed.value) {
          AwaitedLeads(loaded, txKey, target, cur, parsed.value);
        }
        done, result, parent, linked, refused := StepTowards(target, cur, parent, linked, parsed, markDirty);
        ExtendsOn(old(loaded), before, loaded);
        cur := cur + 1;
      }
    }

    /** AddKnownNodeByID and its variants on a wire blob. */
    method AddKnownNodeByID(target: seq<Nibble>, blob: Blob, markDirty: bool)
      returns (result: AddResult, ghost refused: bool)
      requires Valid() && |target| <= 64
      modifies `loaded, `dirty, `state
      ensures Valid() && Extends(old(loaded), loaded)
      ensures state == old(state) || state == Invalid
      ensures old(state) != Syncing ==> result == NodeInvalid && loaded == old(loaded)
      ensures var parsed := Deserialized(blob, txKey);
        old(state) == Syncing && parsed.Some? && Awaited(old(loaded), target, parsed.value) && !refused ==>
          result == NodeUseful && loaded == old(loaded)[target := parsed.value]
          && dirty == old(dirty) + if markDirty then Upwards(target) else {}
    {
      refused := false;
      hide Awaited, Deserialized, Extends, Safe, DirtyOk;
      ExtendsSelf(loaded);
      if state != Syncing || target == [] || blob == [] {
        EmptyIsNothing(txKey);
        RootIsTaken(loaded, target);
        return NodeInvalid, false;
      }
      var parsed := Deserialize(blob, txKey);
      if parsed.Some? {
        ParsedIsOk(blob, txKey);
      }
      result, refused := AttachKnownNodeAt(target, parsed, markDirty);
    }

    /** addKnownNodeFromPrefix: the same for a record in the form the store keeps. */
    method AddKnownNodeFromPrefix(target: seq<Nibble>, record: Option<Preimage>, markDirty: bool)
      returns (result: AddResult, ghost refused: bool)
      requires Valid() && |target| <= 64
      modifies `loaded, `dirty, `state
      ensures Valid() && Extends(old(loaded), loaded)
      ensures state == old(state) || state == Invalid
      ensures old(state) != Syncing ==> result == NodeInvalid && loaded == old(loaded)
      ensures var parsed := FromPrefix(record, txKey);
        old(state) == Syncing && parsed.Some? && Awaited(old(loaded), target, parsed.value) && !refused ==>
          result == NodeUseful && loaded == old(loaded)[target := parsed.value]
          && dirty == old(dirty) + if markDirty then Upwards(target) else {}
    {
      hide Awaited, FromPrefix, Extends, Safe, DirtyOk;
      refused := false;
      ExtendsSelf(loaded);
      var empty: bool := *;
      if state != Syncing || target == [] || (record.None? && empty) {
        RootIsTaken(loaded, target);
        NoRecord(txKey);
        return NodeInvalid, false;
      }
      var parsed := FromPrefix(record, txKey);
      if parsed.Some? {
        FromPrefixIsOk(record, txKey);
      }
      result, refused := AttachKnownNodeAt(target, parsed, markDirty);
    }

    /** The acknowledged tree is clean. */
    method Clean()
      requires Valid()
      modifies `dirty
      ensures Valid() && dirty == {}
    {
      dirty := {};
    }

    /** ReleaseChildren on the root of a clean tree. */
    method ReleaseChildren()
      requires Valid() && dirty == {}
      modifies `loaded
      ensures Valid() && loaded == map[[] := old(loaded)[[]]]
    {
      loaded := map[[] := loaded[[]]];
    }

    /** Puts a node into a slot that records its hash, whatever hung there before, and
        flags everything above it. */
    method Replace(at: seq<Nibble>, b: Nibble, n: Node)
      requires Valid() && at in loaded && NodeOk(n, txKey)
      requires loaded[at].InnerNode? && NodeOk(loaded[at], txKey) && loaded[at].bits[b]
        && NodeHash(n) == loaded[at].hashes[b]
      modifies `loaded, `dirty
      ensures Valid() && loaded == Without(old(loaded), at + [b])[at + [b] := n] && at + [b] in dirty
    {
      hide Safe, DirtyOk, Fits, NodeOk;
      var q := at + [b];
      ReplaceSafely(loaded, txKey, at, b, n);
      DirtyWithout(dirty, loaded, q);
      var rest := set p | p in dirty && !(q <= p);
      var next := Without(loaded, q)[q := n];
      DirtyLarger(rest, Without(loaded, q), next);
      UpwardsOk(q, next, txKey);
      DirtyUnion(rest, Upwards(q), next);
      loaded, dirty := next, rest + Upwards(q);
    }

    /** insertNodeRecursive: the first slot that records the node's hash gets it, unless
        there is no memory for it. */
    method InsertBelow(at: seq<Nibble>, target: Hash, n: Node) returns (search: Search)
      requires Valid() && at in loaded && |at| <= 65 && NodeOk(n, txKey) && NodeHash(n) == target
      modifies `loaded, `dirty
      ensures Valid()
      ensures search == NotFound <==> SlotFrom(old(loaded), at, 0, target).None?
      ensures search == Found ==>
        && var q := SlotFrom(old(loaded), at, 0, target);
        && q.Some? && loaded == Without(old(loaded), q.value)[q.value := n] && q.value in dirty
      ensures search != Found ==> loaded == old(loaded) && dirty == old(dirty)
      decreases 65 - |at|
    {
      SafeAt(loaded, txKey, at);
      hide Safe, DirtyOk, Fits;
      if !loaded[at].InnerNode? || |at| > 64 {
        return NotFound;
      }
      var inner := loaded[at];
      for b := 0 to 16
        invariant Valid() && loaded == old(loaded) && dirty == old(dirty)
        invariant SlotFrom(loaded, at, 0, target) == SlotFrom(loaded, at, b, target)
      {
        if inner.bits[b] {
          if inner.hashes[b] == target {
            var retained: bool := *;
            if !retained {
              return OutOfMemory;
            }
            Replace(at, b, n);
            return Found;
          }
          if at + [b] in loaded && loaded[at + [b]].InnerNode? {
            search := InsertBelow(at + [b], target, n);
            if search != NotFound {
              return;
            }
          }
        }
      }
      return NotFound;
    }

    /** AddKnownNode: the node is looked for by its hash. */
    method AddKnownNode(hash: Hash, blob: Blob) returns (ok: bool)
      requires Valid()
      modifies `loaded, `dirty
      ensures Valid() && (ok ==> state == Syncing)
      ensures [] in loaded && [] in old(loaded) && loaded[[]] == old(loaded)[[]]
      ensures !ok ==> loaded == old(loaded) && dirty == old(dirty)
      ensures ok ==>
        && var parsed, q := Deserialized(blob, txKey), SlotFrom(old(loaded), [], 0, hash);
        && parsed.Some? && NodeHash(parsed.value) == hash && q.Some?
        && loaded == Without(old(loaded), q.value)[q.value := parsed.value]
    {
      if state != Syncing || blob == [] {
        return false;
      }
      var parsed := Deserialize(blob, txKey);
      if parsed.None? || NodeHash(parsed.value) != hash {
        return false;
      }
      ParsedIsOk(blob, txKey);
      hide Safe, DirtyOk, Fits, NodeOk, Deserialized;
      SlotIsBelow(loaded, [], 0, hash);
      var search := InsertBelow([], hash, parsed.value);
      ok := search == Found;
    }
  }

  /** What a peer may send: a node by position, on the wire or as a record, a node by hash,
      a root. */
  datatype Reply =
    | ByPosition(target: seq<Nibble>, blob: Blob, markDirty: bool)
    | ByRecord(target: seq<Nibble>, record: Option<Preimage>, markDirty: bool)
    | ByHash(hash: Hash, blob: Blob)
    | AsRoot(hash: Hash, blob: Blob, withEntry: bool)

  /** Safety over whole runs: once a root with branches is in place, no sequence of
      replies, whatever bytes they carry and in whatever order they come, changes it or
      puts a node where another is recorded. */
  method ReceiveAll(sm: SyncMap, replies: seq<Reply>)
    requires sm.Valid() && sm.HasRoot()
    requires forall i :: 0 <= i < |replies| && (replies[i].ByPosition? || replies[i].ByRecord?) ==>
      |replies[i].target| <= 64
    modifies sm
    ensures sm.Valid() && sm.HasRoot() && [] in old(sm.loaded) && sm.loaded[[]] == old(sm.loaded)[[]]
    ensures SafeHash(sm.loaded, sm.txKey, []) == old(SafeHash(sm.loaded, sm.txKey, []))
    ensures forall p :: p in sm.loaded ==>
      ScanModel.HashAt(old(SafeHash(sm.loaded, sm.txKey, [])), p) == SafeHash(sm.loaded, sm.txKey, p)
  {
    hide Safe, DirtyOk, Readable, SafeHash, ScanModel.HashAt;
    for i := 0 to |replies|
      invariant sm.Valid() && [] in old(sm.loaded) && sm.loaded[[]] == old(sm.loaded)[[]]
    {
      Receive(sm, replies[i]);
    }
    RootStays(old(sm.loaded), sm.loaded, sm.txKey);
    forall p | p in sm.loaded
      ensures ScanModel.HashAt(SafeHash(sm.loaded, sm.txKey, []), p) == SafeHash(sm.loaded, sm.txKey, p)
    {
      LoadedIsCommitted(sm.loaded, sm.txKey, p);
    }
  }

  lemma {:induction false} RootStays(m: Loaded, m': Loaded, txKey: Data -> Key)
    requires Safe(m, txKey) && Safe(m', txKey) && [] in m && [] in m' && m[[]] == m'[[]]
    ensures SafeHash(m, txKey, []) == SafeHash(m', txKey, [])
  {
  }

  method Receive(sm: SyncMap, reply: Reply)
    requires sm.Valid() && sm.HasRoot() && (reply.ByPosition? || reply.ByRecord? ==> |reply.target| <= 64)
    modifies sm
    ensures sm.Valid() && [] in old(sm.loaded) && sm.loaded[[]] == old(sm.loaded)[[]]
  {
    hide Safe, DirtyOk, Readable;
    match reply
    case ByPosition(target, blob, markDirty) =>
      ghost var refused;
      var result;
      result, refused := sm.AddKnownNodeByID(target, blob, markDirty);
    case ByRecord(target, record, markDirty) =>
      ghost var refused;
      var result;
      result, refused := sm.AddKnownNodeFromPrefix(target, record, markDirty);
    case ByHash(hash, blob) =>
      var ok := sm.AddKnownNode(hash, blob);
    case AsRoot(hash, blob, withEntry) =>
      var ok := sm.AddRootNode(hash, blob, withEntry);
  }

  lemma {:induction false} ReplaceSafely(m: Loaded, txKey: Data -> Key, p: seq<Nibble>, b: Nibble, n: Node)
    requires Safe(m, txKey) && p in m && m[p].InnerNode? && NodeOk(m[p], txKey) && m[p].bits[b]
    requires NodeOk(n, txKey) && NodeHash(n) == m[p].hashes[b]
    ensures Safe(Without(m, p + [b])[p + [b] := n], txKey)
  {
    hide Safe, Fits;
    ReplaceIsSafe(m, txKey, p, b, n);
  }

  lemma {:induction false} AttachSafely(m: Loaded, txKey: Data -> Key, p: seq<Nibble>, b: Nibble, n: Node)
    requires Safe(m, txKey) && p in m && m[p].InnerNode? && NodeOk(m[p], txKey) && m[p].bits[b] && p + [b] !in m
    requires NodeOk(n, txKey) && NodeHash(n) == m[p].hashes[b]
    ensures Safe(m[p + [b] := n], txKey)
  {
    hide Safe, Fits;
    AttachIsSafe(m, txKey, p, b, n);
  }

  // ------------------------------------------------- what the scanner is given

  function BitsOf(n: Node): seq<bool> {
    if n.InnerNode? then n.bits else ScanModel.NO_BITS
  }

  /** The loaded nodes as the scanner sees them. */
  function Shadow(m: Loaded, txKey: Data -> Key): map<seq<Nibble>, ScanModel.Attached>
    requires Safe(m, txKey)
  {
    map p | p in m :: ScanModel.Attached(SafeHash(m, txKey, p), BitsOf(m[p]))
  }

  function SafeHash(m: Loaded, txKey: Data -> Key, p: seq<Nibble>): Hash
    requires Safe(m, txKey) && p in m
  {
    NodeHash(m[p])
  }

  /** A loaded node is the one the root hash commits to at its position. */
  lemma {:induction false} LoadedIsCommitted(m: Loaded, txKey: Data -> Key, p: seq<Nibble>)
    requires Safe(m, txKey) && p in m && [] in m
    ensures ScanModel.HashAt(SafeHash(m, txKey, []), p) == SafeHash(m, txKey, p)
    decreases |p|
  {
    SafeAt(m, txKey, p);
    if p != [] {
      var up, b := p[..|p| - 1], p[|p| - 1];
      SafeAt(m, txKey, up);
      hide Safe, Fits;
      LoadedIsCommitted(m, txKey, up);
      ChildOfNode(m[up], b, m[p], txKey);
    }
  }

  lemma {:induction false} ChildOfNode(n: Node, b: Nibble, child: Node, txKey: Data -> Key)
    requires n.InnerNode? && NodeOk(n, txKey) && n.bits[b] && Recorded(n, b, child)
    ensures ScanModel.IsFan(NodeHash(n)) && NodeHash(n).pre.kids[b] == NodeHash(child)
  {
  }

  lemma {:induction false} AttachedOkFor(n: Node, txKey: Data -> Key)
    requires NodeOk(n, txKey)
    ensures ScanModel.AttachedOk(ScanModel.Attached(NodeHash(n), BitsOf(n)))
  {
  }

  /** The loaded nodes and any store are sources the scanner can work with. */
  lemma {:induction false} LoadedIsEnv(m: Loaded, txKey: Data -> Key, durable: set<Hash>, staged: set<Hash>)
    requires Safe(m, txKey) && [] in m
    ensures ScanModel.EnvOk(ScanModel.Env(durable, staged, Shadow(m, txKey)), SafeHash(m, txKey, []))
  {
    forall p | p in m
      ensures SafeHash(m, txKey, p) == ScanModel.HashAt(SafeHash(m, txKey, []), p)
      ensures ScanModel.AttachedOk(Shadow(m, txKey)[p])
    {
      SafeAt(m, txKey, p);
      LoadedIsCommitted(m, txKey, p);
      AttachedOkFor(m[p], txKey);
    }
  }

  // ------------------------------------------------------ what the map now holds

  function NodeAt(m: Loaded, durable: set<Hash>, txKey: Data -> Key, path: seq<Nibble>, h: Hash): Option<Node> {
    if path in m then Some(m[path])
    else if h in durable && Readable(h) then Some(Decoded(h, txKey))
    else None
  }

  /** walkToKey and findItem: loaded nodes first, then the store. A set branch with a zero
      hash and no node counts as absent; a node that cannot be read is an error. */
  function Reads(m: Loaded, durable: set<Hash>, txKey: Data -> Key, path: seq<Nibble>, h: Hash, k: Key,
                 d: nat): Option<Option<Data>>
    decreases 64 - d
  {
    match NodeAt(m, durable, txKey, path, h)
    case None => if h.Zero? then Some(None) else None
    case Some(LeafNode(_, key, data)) => Some(if key == k then Some(data) else None)
    case Some(InnerNode(hashes, bits)) =>
      if |hashes| != 16 || |bits| != 16 then None
      else if !bits[SelectBranch(k, d)] then Some(None)
      else if d >= 64 then None
      else Reads(m, durable, txKey, path + [k[d]], hashes[k[d]], k, d + 1)
  }

  /** selectBranch: depths past the last one select by the last nibble. */
  function SelectBranch(k: Key, d: nat): Nibble {
    if d < 64 then k[d] else k[63]
  }

  /** The items of a tree are keyed as the map type demands: a transaction by its own
      identifier. */
  ghost predicate Keyed(kind: LeafKind, t: Tree, txKey: Data -> Key)
    decreases t
  {
    match t
    case Empty => true
    case Leaf(k, v) => kind.Transaction? ==> k == txKey(v)
    case Inner(kids) => forall i :: 0 <= i < |kids| ==> Keyed(kind, kids[i], txKey)
  }

  /** What is read at a position whose node hashes like t. */
  ghost predicate Holds(m: Loaded, durable: set<Hash>, txKey: Data -> Key, path: seq<Nibble>, h: Hash) {
    match NodeAt(m, durable, txKey, path, h)
    case None => h.Zero?
    case Some(n) => NodeOk(n, txKey) && NodeHash(n) == h
  }

  lemma {:induction false} NodeAtHolds(m: Loaded, durable: set<Hash>, txKey: Data -> Key, path: seq<Nibble>, h: Hash)
    requires Safe(m, txKey) && (h.Zero? || (h in durable && Readable(h)))
    requires path in m ==> SafeHash(m, txKey, path) == h
    ensures Holds(m, durable, txKey, path, h)
  {
    if path !in m && h in durable && Readable(h) {
      DecodedIsOk(h, txKey);
    }
  }

  /** The records of a canonical subtree all decode to their nodes if they decode for a
      traversal. */
  lemma {:induction false} ClosedIsReadable(kind: LeafKind, t: Tree, path: seq<Nibble>, durable: set<Hash>)
    requires Canonical(t, path) && ScanModel.Closed(HashOf(kind, t), durable)
    ensures HashOf(kind, t).Zero? || (HashOf(kind, t) in durable && Readable(HashOf(kind, t)))
  {
    FanIsReadable(kind, t, path);
  }

  lemma {:induction false} FanIsReadable(kind: LeafKind, t: Tree, path: seq<Nibble>)
    requires Canonical(t, path)
    ensures t.Inner? ==> HashOf(kind, t).Zero? || Readable(HashOf(kind, t))
  {
    if t.Inner? && !AllEmpty(t.kids) {
      var i :| 0 <= i < 16 && t.kids[i] != Empty;
      ZeroMeansEmpty(kind, t.kids[i], path + [i]);
      assert HashOf(kind, t).pre.kids[i] == HashOf(kind, t.kids[i]);
    }
  }

  /** An acquired subtree reads like any canonical tree with its hash. */
  lemma {:induction false} ReadsTree(m: Loaded, durable: set<Hash>, txKey: Data -> Key, kind: LeafKind, t: Tree,
                                     path: seq<Nibble>, k: Key)
    requires Safe(m, txKey) && ScanModel.Closed(HashOf(kind, t), durable)
    requires Canonical(t, path) && Keyed(kind, t, txKey) && |path| <= 64 && path == k[..|path|]
    requires path in m ==> SafeHash(m, txKey, path) == HashOf(kind, t)
    ensures Reads(m, durable, txKey, path, HashOf(kind, t), k, |path|) == Some(Lookup(t, k, |path|))
    decreases t
  {
    hide Safe, ScanModel.Closed, Readable, HashOf, NodeHash;
    var h := HashOf(kind, t);
    ClosedIsReadable(kind, t, path, durable);
    NodeAtHolds(m, durable, txKey, path, h);
    var n := NodeAt(m, durable, txKey, path, h);
    if t.Inner? && n.Some? && n.value.InnerNode? && n.value.bits[k[|path|]] {
      KidFacts(m, durable, txKey, kind, t, path, k, n.value);
      ReadsTree(m, durable, txKey, kind, t.kids[k[|path|]], path + [k[|path|]], k);
      assert |path + [k[|path|]]| == |path| + 1;
    } else {
      ReadsHere(kind, t, path, k, n, txKey);
    }
  }

  /** What holds one level down. */
  lemma {:induction false} KidFacts(m: Loaded, durable: set<Hash>, txKey: Data -> Key, kind: LeafKind, t: Tree,
                                    path: seq<Nibble>, k: Key, n: Node)
    requires Safe(m, txKey) && ScanModel.Closed(HashOf(kind, t), durable)
    requires Canonical(t, path) && t.Inner? && |path| < 64 && path == k[..|path|]
    requires NodeAt(m, durable, txKey, path, HashOf(kind, t)) == Some(n) && n.InnerNode? && NodeOk(n, txKey)
    requires NodeHash(n) == HashOf(kind, t) && n.bits[k[|path|]]
    ensures var b := k[|path|];
      && n.hashes[b] == HashOf(kind, t.kids[b]) && ScanModel.Closed(n.hashes[b], durable)
      && path + [b] == k[..|path| + 1]
      && (path + [b] in m ==> SafeHash(m, txKey, path + [b]) == n.hashes[b])
  {
    hide Safe, Fits, NodeAt, HashOf, NodeHash, ScanModel.Closed;
    var b := k[|path|];
    KidHash(kind, t, n, b, txKey, durable);
    hide Canonical;
    if path + [b] in m {
      KidLoaded(m, durable, txKey, path, b, HashOf(kind, t), n);
    }
  }

  lemma {:induction false} KidHash(kind: LeafKind, t: Tree, n: Node, b: Nibble, txKey: Data -> Key, durable: set<Hash>)
    requires t.Inner? && |t.kids| == 16 && n.InnerNode? && NodeOk(n, txKey) && NodeHash(n) == HashOf(kind, t)
      && n.bits[b]
    requires ScanModel.Closed(HashOf(kind, t), durable)
    ensures n.hashes[b] == HashOf(kind, t.kids[b]) && ScanModel.Closed(n.hashes[b], durable)
  {
    assert HashKids(kind, t) == Masked(n);
    assert HashKids(kind, t)[b] == n.hashes[b];
  }

  lemma {:induction false} KidLoaded(m: Loaded, durable: set<Hash>, txKey: Data -> Key, path: seq<Nibble>, b: Nibble,
                                     h: Hash, n: Node)
    requires Safe(m, txKey) && NodeAt(m, durable, txKey, path, h) == Some(n) && n.InnerNode? && NodeOk(n, txKey)
      && path + [b] in m
    ensures SafeHash(m, txKey, path + [b]) == n.hashes[b]
  {
    SafeAt(m, txKey, path + [b]);
    assert (path + [b])[..|path|] == path;
  }

  /** The cases that end the walk. */
  lemma {:induction false} ReadsHere(kind: LeafKind, t: Tree, path: seq<Nibble>, k: Key, n: Option<Node>,
                                     txKey: Data -> Key)
    requires Canonical(t, path) && Keyed(kind, t, txKey) && |path| <= 64
    requires n.None? ==> HashOf(kind, t).Zero?
    requires n.Some? ==> NodeOk(n.value, txKey) && NodeHash(n.value) == HashOf(kind, t)
    requires !(t.Inner? && n.Some? && n.value.InnerNode? && n.value.bits[k[|path|]])
    ensures n.None? ==> Lookup(t, k, |path|) == None
    ensures n.Some? && n.value.LeafNode? ==>
      Lookup(t, k, |path|) == if n.value.key == k then Some(n.value.data) else None
    ensures n.Some? && n.value.InnerNode? ==> Lookup(t, k, |path|) == None && !n.value.bits[SelectBranch(k, |path|)]
  {
    if t.Inner? {
      if AllEmpty(t.kids) {
        assert t.kids[k[|path|]] == Empty;
      } else if n.Some? && n.value.InnerNode? {
        assert HashKids(kind, t)[k[|path|]] == Masked(n.value)[k[|path|]];
        ZeroMeansEmpty(kind, t.kids[k[|path|]], path + [k[|path|]]);
      }
    }
  }

  /** Once everything the root hash refers to is in the store, the acquired map holds
      exactly the items of the one canonical map that root hash can commit to. */
  lemma {:induction false} AcquiredContent(m: Loaded, durable: set<Hash>, txKey: Data -> Key, kind: LeafKind,
                                           t: Tree, k: Key)
    requires Safe(m, txKey) && [] in m
    requires CanonicalRoot(t) && Keyed(kind, t, txKey) && SafeHash(m, txKey, []) == HashOf(kind, t)
    requires ScanModel.Closed(HashOf(kind, t), durable)
    ensures Reads(m, durable, txKey, [], HashOf(kind, t), k, 0) == Some(Lookup(t, k, 0))
  {
    assert k[..0] == [];
    ReadsTree(m, durable, txKey, kind, t, [], k);
  }

  // ------------------------------------------------------- leaves that get lost

  /** Every leaf has a record that decodes. */
  ghost predicate Legible(kind: LeafKind, t: Tree)
    decreases t
  {
    match t
    case Empty => true
    case Leaf(k, v) => Readable(LeafHash(kind, k, v))
    case Inner(kids) => forall i :: 0 <= i < |kids| ==> Legible(kind, kids[i])
  }

  /** All records of a canonical tree are there and decode, exactly if they are there and
      the leaves decode. */
  lemma {:induction false} ClosedExactly(kind: LeafKind, t: Tree, path: seq<Nibble>, s: set<Hash>)
    requires Canonical(t, path)
    ensures ScanModel.Closed(HashOf(kind, t), s) <==> ScanModel.Filed(HashOf(kind, t), s) && Legible(kind, t)
    decreases t
  {
    if t.Inner? {
      forall i | 0 <= i < 16
        ensures ScanModel.Closed(HashOf(kind, t.kids[i]), s) <==>
                  ScanModel.Filed(HashOf(kind, t.kids[i]), s) && Legible(kind, t.kids[i])
      {
        ClosedExactly(kind, t.kids[i], path + [i], s);
      }
      if AllEmpty(t.kids) {
        assert forall i :: 0 <= i < 16 ==> t.kids[i] == Empty;
      } else {
        assert forall i :: 0 <= i < 16 ==> HashOf(kind, t).pre.kids[i] == HashOf(kind, t.kids[i]);
      }
    }
  }

  /** A leaf that does not decode cannot be loaded, so its key cannot be read. */
  lemma {:induction false} LostKey(m: Loaded, durable: set<Hash>, txKey: Data -> Key, kind: LeafKind, t: Tree,
                                   path: seq<Nibble>) returns (k: Key)
    requires Safe(m, txKey) && Canonical(t, path) && ScanModel.Filed(HashOf(kind, t), durable) && !Legible(kind, t)
    requires path in m ==> SafeHash(m, txKey, path) == HashOf(kind, t)
    ensures path <= k && Reads(m, durable, txKey, path, HashOf(kind, t), k, |path|) == None
    decreases t
  {
    if t.Leaf? {
      k := t.key;
      LostLeaf(m, durable, txKey, kind, t, path);
    } else {
      var i := LostBranch(kind, t, path);
      hide Safe, Legible, ScanModel.Filed, HashOf, NodeAt, Reads, SafeHash;
      LostBelow(m, durable, txKey, kind, t, path, i);
      k := LostKey(m, durable, txKey, kind, t.kids[i], path + [i]);
      OnTheWay(path, i, k);
      ReadsOn(m, durable, txKey, path, HashOf(kind, t), k);
    }
  }

  lemma {:induction false} LostBranch(kind: LeafKind, t: Tree, path: seq<Nibble>) returns (i: Nibble)
    requires Canonical(t, path) && !t.Leaf? && !Legible(kind, t)
    ensures t.Inner? && !Legible(kind, t.kids[i]) && Canonical(t.kids[i], path + [i])
  {
    i :| t.Inner? && !Legible(kind, t.kids[i]);
  }

  lemma {:induction false} OnTheWay(path: seq<Nibble>, i: Nibble, k: Key)
    requires |path| < 64 && path + [i] <= k
    ensures path <= k && k[|path|] == i && |path + [i]| == |path| + 1
  {
    assert path <= path + [i] && k[|path|] == (path + [i])[|path|];
  }

  /** A read goes on at the branch of its key. */
  lemma {:induction false} ReadsOn(m: Loaded, durable: set<Hash>, txKey: Data -> Key, path: seq<Nibble>, h: Hash,
                                   k: Key)
    requires |path| < 64
    requires var n := NodeAt(m, durable, txKey, path, h);
      n.Some? && n.value.InnerNode? && |n.value.hashes| == |n.value.bits| == 16 && n.value.bits[k[|path|]]
    ensures Reads(m, durable, txKey, path, h, k, |path|)
            == Reads(m, durable, txKey, path + [k[|path|]],
              NodeAt(m, durable, txKey, path, h).value.hashes[k[|path|]], k, |path| + 1)
  {
    hide NodeAt;
  }

  lemma {:induction false} LostLeaf(m: Loaded, durable: set<Hash>, txKey: Data -> Key, kind: LeafKind, t: Tree,
                                    path: seq<Nibble>)
    requires Safe(m, txKey) && t.Leaf? && !Legible(kind, t)
    requires path in m ==> SafeHash(m, txKey, path) == HashOf(kind, t)
    ensures NodeAt(m, durable, txKey, path, HashOf(kind, t)) == None
  {
    if path in m {
      SafeAt(m, txKey, path);
      LoadedIsReadable(m[path], txKey);
    }
  }

  lemma {:induction false} LoadedIsReadable(n: Node, txKey: Data -> Key)
    requires NodeOk(n, txKey) && n.LeafNode?
    ensures Readable(NodeHash(n))
  {
    hide Pack;
  }

  /** An inner node above such a leaf can be read and has its branch set. */
  lemma {:induction false} LostBelow(m: Loaded, durable: set<Hash>, txKey: Data -> Key, kind: LeafKind, t: Tree,
                                     path: seq<Nibble>, i: Nibble)
    requires Safe(m, txKey) && Canonical(t, path) && ScanModel.Filed(HashOf(kind, t), durable) && t.Inner?
      && !Legible(kind, t.kids[i])
    requires path in m ==> SafeHash(m, txKey, path) == HashOf(kind, t)
    ensures |path| < 64 && ScanModel.Filed(HashOf(kind, t.kids[i]), durable)
    ensures path + [i] in m ==> SafeHash(m, txKey, path + [i]) == HashOf(kind, t.kids[i])
    ensures var n := NodeAt(m, durable, txKey, path, HashOf(kind, t));
      && n.Some? && n.value.InnerNode? && |n.value.hashes| == |n.value.bits| == 16
      && n.value.bits[i] && n.value.hashes[i] == HashOf(kind, t.kids[i])
  {
    var h := HashOf(kind, t);
    assert t.kids[i] != Empty;
    ZeroMeansEmpty(kind, t.kids[i], path + [i]);
    FanIsReadable(kind, t, path);
    NodeAtHolds(m, durable, txKey, path, h);
    var n := NodeAt(m, durable, txKey, path, h).value;
    assert HashKids(kind, t)[i] == HashOf(kind, t.kids[i]);
    assert HashKids(kind, t) == Masked(n);
    hide Safe, Fits, Canonical, ScanModel.Filed, Legible, HashOf;
    if path + [i] in m {
      KidLoaded(m, durable, txKey, path, i, h, n);
    }
  }

  /** Once all records the root hash refers to are in the store, the map reads as the one
      canonical map its root hash can commit to if and only if every leaf of it has a
      record that decodes. */
  lemma {:induction false} ReadsExactly(m: Loaded, durable: set<Hash>, txKey: Data -> Key, kind: LeafKind, t: Tree)
    requires Safe(m, txKey) && ([] in m ==> SafeHash(m, txKey, []) == HashOf(kind, t))
    requires CanonicalRoot(t) && Keyed(kind, t, txKey) && ScanModel.Filed(HashOf(kind, t), durable)
    ensures (forall k: Key :: Reads(m, durable, txKey, [], HashOf(kind, t), k, 0) == Some(Lookup(t, k, 0))) <==>
      Legible(kind, t)
  {
    if Legible(kind, t) {
      ClosedExactly(kind, t, [], durable);
      forall k: Key
        ensures Reads(m, durable, txKey, [], HashOf(kind, t), k, 0) == Some(Lookup(t, k, 0))
      {
        assert k[..0] == [];
        ReadsTree(m, durable, txKey, kind, t, [], k);
      }
    } else {
      var k := LostKey(m, durable, txKey, kind, t, []);
    }
  }

  /** For a state map whose items have the size every put demands, that is every key but
      zero. */
  lemma {:induction false} LegibleExactly(t: Tree, path: seq<Nibble>)
    requires Canonical(t, path) && Weighty(t)
    ensures Legible(AccountState, t) <==> forall k :: k in Keys(t) ==> !IsZeroKey(Pack(k))
    decreases t
  {
    if t.Inner? {
      forall i | 0 <= i < 16
        ensures Legible(AccountState, t.kids[i]) <==> forall k :: k in Keys(t.kids[i]) ==> !IsZeroKey(Pack(k))
      {
        LegibleExactly(t.kids[i], path + [i]);
      }
    }
  }

  // --------------------------------------------------------------------- the end

  /** Attaching nodes is a move the scanner allows for. */
  lemma {:induction false} AttachIsLater(m: Loaded, m': Loaded, txKey: Data -> Key, durable: set<Hash>,
                                         staged: set<Hash>)
    requires Safe(m, txKey) && Safe(m', txKey) && [] in m && Extends(m, m')
    ensures [] in m' && SafeHash(m', txKey, []) == SafeHash(m, txKey, [])
    ensures ScanModel.Later(ScanModel.Env(durable, staged, Shadow(m, txKey)),
                            ScanModel.Env(durable, staged, Shadow(m', txKey)), SafeHash(m, txKey, []))
  {
    LoadedIsEnv(m, txKey, durable, staged);
    LoadedIsEnv(m', txKey, durable, staged);
    hide Safe, ScanModel.EnvOk, ScanModel.HashAt;
  }

  /** The search is about this map: its root, its root's flag and its nodes. */
  ghost predicate Watches(search: Scanner.Acquisition, sm: SyncMap)
    requires sm.Valid()
    reads sm, search
  {
    && search.rootHash == SafeHash(sm.loaded, sm.txKey, []) && search.nodes == Shadow(sm.loaded, sm.txKey)
    && (search.rootDirty <==> [] in sm.dirty)
  }

  /** A search that has seen nodes of the map has seen nodes of any extension of it. */
  lemma {:induction false} StillSees(seen: map<seq<Nibble>, ScanModel.Attached>, m: Loaded, m': Loaded,
                                     txKey: Data -> Key)
    requires Safe(m, txKey) && Safe(m', txKey) && [] in m && Extends(m, m')
    requires Scanner.Sees(seen, Shadow(m, txKey), SafeHash(m, txKey, []))
    ensures [] in m' && SafeHash(m', txKey, []) == SafeHash(m, txKey, [])
    ensures Scanner.Sees(seen, Shadow(m', txKey), SafeHash(m, txKey, []))
  {
    LoadedIsEnv(m', txKey, {}, {});
    hide Safe, ScanModel.EnvOk;
  }

  /** After a node was attached the search is told, however far its walk has come. */
  method Tell(sm: SyncMap, search: Scanner.Acquisition, ghost before: Loaded)
    requires sm.Valid() && search.Valid() && Safe(before, sm.txKey) && [] in before && Extends(before, sm.loaded)
    requires search.rootHash == SafeHash(before, sm.txKey, []) && search.nodes == Shadow(before, sm.txKey)
    modifies search`nodes, search`rootDirty, search`env, search`marks, search`past
    ensures search.Valid() && Watches(search, sm)
    ensures search.env == old(search.env).(attached := search.nodes)
  {
    hide Safe, DirtyOk, Extends, Shadow, SafeHash, Scanner.MarksOk, Scanner.Sees, Scanner.Acquisition.Accounted,
         Scanner.Acquisition.CursorOk;
    StillSees(search.env.attached, before, sm.loaded, sm.txKey);
    search.Attach(Shadow(sm.loaded, sm.txKey));
    search.SetRootDirty([] in sm.dirty);
    search.LookAround();
  }

  /** A reply arrives while a search is suspended: whatever it was, the search stays valid
      and looks at the map as it is now. */
  method Deliver(sm: SyncMap, search: Scanner.Acquisition, target: seq<Nibble>, blob: Blob, markDirty: bool)
    returns (result: AddResult, ghost refused: bool)
    requires sm.Valid() && search.Valid() && Watches(search, sm) && |target| <= 64
    modifies sm, search`nodes, search`rootDirty, search`env, search`marks, search`past
    ensures sm.Valid() && search.Valid() && Watches(search, sm) && Extends(old(sm.loaded), sm.loaded)
    ensures search.env == old(search.env).(attached := search.nodes) && sm.store == old(sm.store)
    ensures sm.state == old(sm.state) || sm.state == Invalid
    ensures var parsed := Deserialized(blob, sm.txKey);
      old(sm.state) == Syncing && parsed.Some? && Awaited(old(sm.loaded), target, parsed.value) && !refused ==>
        result == NodeUseful && sm.loaded == old(sm.loaded)[target := parsed.value]
  {
    hide Safe, DirtyOk, Extends, Shadow, SafeHash, Awaited, Deserialized, Scanner.Acquisition.Valid;
    ghost var before := sm.loaded;
    result, refused := sm.AddKnownNodeByID(target, blob, markDirty);
    Tell(sm, search, before);
  }

  /** The same for a reply in the form of a stored record. */
  method DeliverRecord(sm: SyncMap, search: Scanner.Acquisition, target: seq<Nibble>, record: Option<Preimage>,
                       markDirty: bool)
    returns (result: AddResult, ghost refused: bool)
    requires sm.Valid() && search.Valid() && Watches(search, sm) && |target| <= 64
    modifies sm, search`nodes, search`rootDirty, search`env, search`marks, search`past
    ensures sm.Valid() && search.Valid() && Watches(search, sm) && Extends(old(sm.loaded), sm.loaded)
    ensures search.env == old(search.env).(attached := search.nodes) && sm.store == old(sm.store)
    ensures sm.state == old(sm.state) || sm.state == Invalid
    ensures var parsed := FromPrefix(record, sm.txKey);
      old(sm.state) == Syncing && parsed.Some? && Awaited(old(sm.loaded), target, parsed.value) && !refused ==>
        result == NodeUseful && sm.loaded == old(sm.loaded)[target := parsed.value]
  {
    hide Safe, DirtyOk, Extends, Shadow, SafeHash, Awaited, FromPrefix, Scanner.Acquisition.Valid;
    ghost var before := sm.loaded;
    result, refused := sm.AddKnownNodeFromPrefix(target, record, markDirty);
    Tell(sm, search, before);
  }

  /** Every canonical map the root hash can commit to reads as it should. */
  ghost predicate Acquired(m: Loaded, store: set<Hash>, txKey: Data -> Key, h: Hash) {
    forall kind: LeafKind, t: Tree, k: Key :: CanonicalRoot(t) && Keyed(kind, t, txKey) && HashOf(kind, t) == h ==>
      Reads(m, store, txKey, [], h, k, 0) == Some(Lookup(t, k, 0))
  }

  lemma {:induction false} ClosedIsAcquired(m: Loaded, store: set<Hash>, txKey: Data -> Key)
    requires Safe(m, txKey) && [] in m && ScanModel.Closed(SafeHash(m, txKey, []), store)
    ensures Acquired(m, store, txKey, SafeHash(m, txKey, []))
  {
    var h := SafeHash(m, txKey, []);
    forall kind: LeafKind, t: Tree, k: Key | CanonicalRoot(t) && Keyed(kind, t, txKey) && HashOf(kind, t) == h
      ensures Reads(m, store, txKey, [], h, k, 0) == Some(Lookup(t, k, 0))
    {
      AcquiredContent(m, store, txKey, kind, t, k);
    }
  }

  /** FinishSyncContext: the search, whatever walks it has behind it, must report the map
      complete. Then the map reads as the one canonical map its root hash can commit to. */
  method FinishSync(sm: SyncMap, search: Scanner.Acquisition) returns (ok: bool, ghost reported: Option<Scanner.Status>)
    requires sm.Valid() && search.Valid() && search.rootHash == SafeHash(sm.loaded, sm.txKey, [])
    modifies sm`state, sm`store, search
    ensures sm.Valid() && search.Valid() && sm.loaded == old(sm.loaded)
      && sm.store == old(sm.store) + search.env.durable
    ensures sm.dirty == old(sm.dirty) && search.nodes == old(search.nodes) && search.rootHash == old(search.rootHash)
    ensures search.rootDirty == old(search.rootDirty)
      && (!old(search.open) && search.open ==> ScanModel.IsFan(search.rootHash))
    ensures ok <==> old(sm.state) == Syncing && reported == Some(Scanner.Complete)
    ensures sm.state == if ok then Modifying else old(sm.state)
    ensures ok ==> ScanModel.Closed(SafeHash(sm.loaded, sm.txKey, []), sm.store)
    ensures ok ==> Acquired(sm.loaded, sm.store, sm.txKey, SafeHash(sm.loaded, sm.txKey, []))
  {
    hide Safe, DirtyOk, ScanModel.Closed, Acquired, Scanner.Acquisition.Valid, Shadow, SafeHash;
    ok, reported := false, None;
    if sm.state == Syncing {
      var status, nodes;
      ghost var slice, cut;
      status, nodes, slice, cut := search.Scan(sm.state, (h: Hash) => true, 1, true);
      ok, reported := status == Some(Scanner.Complete), status;
    }
    sm.store := sm.store + search.env.durable;
    if ok {
      ScanModel.ClosedGrows(SafeHash(sm.loaded, sm.txKey, []), search.env.durable, sm.store);
      ClosedIsAcquired(sm.loaded, sm.store, sm.txKey);
      sm.state := Modifying;
    }
  }

  // ------------------------------------------------------ branches to nowhere

  /** A parsed inner node is the one its hash determines exactly when no branch is set
      with a zero hash. */
  lemma {:induction false} ParsedIsCanonic(n: Node, txKey: Data -> Key)
    requires NodeOk(n, txKey) && n.InnerNode? && Readable(NodeHash(n))
    ensures n == Decoded(NodeHash(n), txKey) <==> forall i :: 0 <= i < 16 && n.bits[i] ==> n.hashes[i] != Zero
  {
    var c := Decoded(NodeHash(n), txKey);
    assert c.hashes == Masked(n);
    if forall i :: 0 <= i < 16 && n.bits[i] ==> n.hashes[i] != Zero {
      assert n.hashes == c.hashes && n.bits == c.bits;
    }
  }

  /** The compressed encoding admits such branches: an entry whose hash is zero. The
      node passes every check made of it, hash included, but counts one branch too many. */
  lemma {:induction false} PhantomEntry(h: Hash, txKey: Data -> Key)
    requires h.Digest?
    ensures var blob := HashCells(h) + [Octet(0)] + HashCells(Zero) + [Octet(1)] + [Octet(WIRE_COMPRESSED_INNER)];
      var n := Deserialized(blob, txKey);
      && n.Some? && n.value.InnerNode? && n.value.bits[1] && n.value.hashes[1] == Zero
      && NodeHash(n.value) == NodeHash(InnerNode(NO_HASHES[0 := h], NO_BITS[0 := true]))
  {
    HashRoundTrip(h);
    HashRoundTrip(Zero);
    var body := HashCells(h) + [Octet(0)] + HashCells(Zero) + [Octet(1)];
    assert body[0..32] == HashCells(h) && body[33..65] == HashCells(Zero);
    assert Entries(body, 0) == Some(InnerNode(NO_HASHES, NO_BITS));
    assert Entries(body, 1) == Some(InnerNode(NO_HASHES[0 := h], NO_BITS[0 := true]));
    assert Entries(body, 2) == Some(InnerNode(NO_HASHES[0 := h][1 := Zero], NO_BITS[0 := true][1 := true]));
    DeserializedCompressed(body, txKey);
    var n := InnerNode(NO_HASHES[0 := h][1 := Zero], NO_BITS[0 := true][1 := true]);
    var c := InnerNode(NO_HASHES[0 := h], NO_BITS[0 := true]);
    assert n.bits[0] && c.bits[0];
    assert Masked(n) == Masked(c);
  }
}
