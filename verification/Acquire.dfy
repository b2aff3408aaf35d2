/** Whole acquisitions: a map, the search for its missing nodes, and everything that may
    happen to the two of them in any order until the map is declared complete. */
module Acquire {
  import opened KeyPath
  import opened Trie
  import opened Hashing
  import opened WireFormat
  import opened ScanModel
  import opened ScanSound
  import opened Scanner
  import opened Sync
  import Completeness

  /** What happens to a map that is being acquired: a root arrives, or a node, on the wire
      or as a record; the store gains records; a slice of the search runs; what was handed to the
      store is acknowledged, and nodes are let go of. */
  datatype Event =
    | ArrivesRoot(hash: Hash, blob: Blob, withEntry: bool)
    | Arrives(target: seq<Nibble>, blob: Blob, markDirty: bool)
    | ArrivesStored(target: seq<Nibble>, record: Option<Preimage>, markDirty: bool)
    | Persists(records: set<Hash>, durable: bool)
    | Searches(filter: Hash -> bool, maxNodes: int, probe: bool)
    | Acknowledges(release: bool)

  ghost predicate Sensible(e: Event) {
    e.Arrives? || e.ArrivesStored? ==> |e.target| <= 64
  }

  /** The map and its search belong together, and there is no search of a map without
      branches. */
  ghost predicate InStep(sm: SyncMap, search: Acquisition)
    reads sm, search
  {
    && sm.Valid() && search.Valid() && Watches(search, sm) && search.env.durable <= sm.store
    && (!sm.HasRoot() ==> !search.open)
  }

  ghost predicate SameRoot(m: Sync.Loaded, m': Sync.Loaded) {
    [] in m && [] in m' && m'[[]] == m[[]]
  }

  /** The hashes of the nodes that have a record. */
  function Records(nodes: map<seq<Nibble>, Attached>): set<Hash> {
    set p | p in nodes :: nodes[p].hash
  }

  /** A new map and its search. */
  method Begin(txKey: Data -> Key, backed: bool, budgeted: bool, limit: nat, sizes: ByteSizes)
    returns (sm: SyncMap, search: Acquisition)
    ensures fresh(sm) && fresh(search) && InStep(sm, search) && sm.state == Modifying
      && sm.loaded == map[[] := EMPTY_ROOT]
  {
    sm := new SyncMap(txKey, backed);
    hide Safe, EnvOk, Shadow, SafeHash;
    LoadedIsEnv(sm.loaded, txKey, {}, {});
    search := new Acquisition(Env({}, {}, Shadow(sm.loaded, txKey)), SafeHash(sm.loaded, txKey, []), budgeted, limit,
      sizes);
  }

  /** The records of everything attached have reached the store. */
  method Settle(sm: SyncMap, search: Acquisition)
    requires InStep(sm, search)
    modifies sm`store, search`env, search`marks, search`past
    ensures InStep(sm, search) && Persisted(search.env) && search.env.attached == search.nodes
      && sm.store >= old(sm.store)
  {
    hide Safe, DirtyOk, Shadow, SafeHash, Acquisition.Valid;
    search.LookAround();
    Stored(search, search.env.durable + search.env.staged + Records(search.nodes));
    sm.StoreGrows(search.env.durable);
  }

  /** The store of the search grows, and nothing is under way to it any more. */
  method Stored(search: Acquisition, durable: set<Hash>)
    requires search.Valid() && search.env.durable + search.env.staged <= durable
    modifies search`env, search`marks, search`past
    ensures search.Valid() && search.env == Env(durable, {}, old(search.env.attached))
  {
    hide HistoryOk, Sees, EnvOk, Later, LanesOk, Exact, Steady, MarksOk, Seated, Charge;
    HistoryNow(search.past, search.rootHash);
    ArrivalIsLater(search.env, search.rootHash, durable, {});
    MarksLater(search.marks, search.env.durable, durable);
    search.Move(search.env.(durable := durable, staged := {}), search.marks);
  }

  /** The store gains records: durable at once, or on their way. */
  method Persist(sm: SyncMap, search: Acquisition, records: set<Hash>, durable: bool)
    requires InStep(sm, search)
    modifies sm`store, search`env, search`marks, search`past
    ensures InStep(sm, search) && sm.store == old(sm.store) + records && search.rootHash == old(search.rootHash)
  {
    hide HistoryOk, Sees, EnvOk, Later, LanesOk, Exact, Steady, MarksOk, Seated, Charge, Safe, DirtyOk, Shadow,
         SafeHash;
    HistoryNow(search.past, search.rootHash);
    var durable' := search.env.durable + if durable then records else {};
    var staged' := search.env.staged + if durable then {} else records;
    ArrivalIsLater(search.env, search.rootHash, durable', staged');
    MarksLater(search.marks, search.env.durable, durable');
    search.Move(search.env.(durable := durable', staged := staged'), search.marks);
    sm.StoreGrows(records);
  }

  lemma {:induction false} NoBranches(sm: SyncMap)
    requires sm.Valid()
    ensures !sm.HasRoot() ==> SafeHash(sm.loaded, sm.txKey, []).Zero?
  {
  }

  /** A slice of the search, over the map as it is. */
  method Search(sm: SyncMap, search: Acquisition, filter: Hash -> bool, maxNodes: int, probe: bool)
    returns (status: Option<Status>, nodes: seq<MissingNode>)
    requires InStep(sm, search)
    modifies sm`store, search
    ensures InStep(sm, search) && search.rootHash == old(search.rootHash) && old(sm.store) <= sm.store
    ensures sm.state != Invalid && status == Some(Complete) ==> Closed(SafeHash(sm.loaded, sm.txKey, []), sm.store)
  {
    hide Safe, DirtyOk, Shadow, SafeHash, Acquisition.Valid, Closed, InOrder, Owed, Kept, Steady, NothingFound;
    ghost var slice, cut;
    NoBranches(sm);
    search.LookAround();
    status, nodes, slice, cut := search.Scan(sm.state, filter, maxNodes, probe);
    sm.StoreGrows(search.env.durable);
    if sm.state != Invalid && status == Some(Complete) {
      ClosedGrows(search.rootHash, search.env.durable, sm.store);
    }
  }

  /** Every attached node but the root has a record. */
  predicate AllRecorded(nodes: map<seq<Nibble>, Attached>) {
    forall p :: p in nodes && p != [] ==> !nodes[p].hash.Zero?
  }

  lemma {:induction false} RootAlone(m: Sync.Loaded, txKey: Data -> Key)
    requires Safe(m, txKey) && [] in m
    ensures Safe(map[[] := m[[]]], txKey) && SafeHash(map[[] := m[[]]], txKey, []) == SafeHash(m, txKey, [])
    ensures Shadow(map[[] := m[[]]], txKey) == Only(Shadow(m, txKey), {[]})
  {
  }

  lemma {:induction false} SeesRoot(nodes: map<seq<Nibble>, Attached>, root: Hash)
    requires Sees(nodes, nodes, root)
    ensures Sees(Only(nodes, {[]}), nodes, root) && Sees(Only(nodes, {[]}), Only(nodes, {[]}), root)
    ensures EnvOk(Env({}, {}, nodes), root) && EnvOk(Env({}, {}, Only(nodes, {[]})), root)
  {
  }

  /** The children of the root are let go of. A suspended walk can go on without them if
      all of them have a record, and there need be none if there is no walk. */
  method LetGo(sm: SyncMap, search: Acquisition)
    requires InStep(sm, search) && Persisted(search.env) && search.env.attached == search.nodes && sm.dirty == {}
    requires search.open ==> AllRecorded(search.nodes)
    modifies sm`loaded, search`env, search`marks, search`past, search`nodes, search`passStart
    ensures InStep(sm, search) && sm.loaded == map[[] := old(sm.loaded)[[]]]
  {
    hide Safe, DirtyOk, Shadow, SafeHash, Acquisition.Valid, EnvOk, Sees, Later;
    RootAlone(sm.loaded, sm.txKey);
    SearchSees(search);
    if search.open {
      Unsee(search);
      sm.ReleaseChildren();
      search.Attach(search.env.attached);
    } else {
      sm.ReleaseChildren();
      LoadedIsEnv(sm.loaded, sm.txKey, search.env.durable, search.env.staged);
      search.Forget(search.env.(attached := Shadow(sm.loaded, sm.txKey)));
    }
  }

  lemma {:induction false} SearchSees(search: Acquisition)
    requires search.Valid()
    ensures EnvOk(search.env, search.rootHash) && Sees(search.env.attached, search.nodes, search.rootHash)
  {
    HistoryNow(search.past, search.rootHash);
  }

  /** The walk no longer sees anything but the root. */
  method Unsee(search: Acquisition)
    requires search.Valid() && Persisted(search.env) && search.env.attached == search.nodes && AllRecorded(search.nodes)
    modifies search`env, search`marks, search`past
    ensures search.Valid() && search.env == old(search.env).(attached := Only(search.nodes, {[]}))
    ensures Sees(search.env.attached, search.env.attached, search.rootHash)
  {
    hide HistoryOk, Sees, EnvOk, Later, LanesOk, Exact, Steady, MarksOk, Seated, Charge;
    SearchSees(search);
    ReleaseIsLater(search.env, search.rootHash, {[]});
    SeesRoot(search.nodes, search.rootHash);
    search.Move(search.env.(attached := Only(search.nodes, {[]})), search.marks);
  }

  /** acknowledgePersistedContext on the map and its search. */
  method AcknowledgeAll(sm: SyncMap, search: Acquisition, release: bool) returns (ok: bool, complete: bool)
    requires InStep(sm, search)
    modifies sm, search
    ensures InStep(sm, search) && SameRoot(old(sm.loaded), sm.loaded) && sm.state == old(sm.state)
      && old(sm.store) <= sm.store
    ensures ok ==> sm.dirty == {}
    ensures complete ==> Closed(SafeHash(sm.loaded, sm.txKey, []), sm.store)
  {
    hide Safe, DirtyOk, Shadow, SafeHash, Acquisition.Valid, Closed, Persisted, AllRecorded, Sees;
    Settle(sm, search);
    ok, complete := search.Acknowledge();
    if !ok {
      return;
    }
    sm.Clean();
    if complete {
      ClosedGrows(search.rootHash, search.env.durable, sm.store);
    }
    if (release || complete) && (!search.open || AllRecorded(search.nodes)) {
      LetGo(sm, search);
    }
  }

  /** A root arrives. If it replaces one without branches the search turns to it. */
  method ReceiveRoot(sm: SyncMap, search: Acquisition, hash: Hash, blob: Blob, withEntry: bool) returns (ok: bool)
    requires InStep(sm, search)
    modifies sm, search
    ensures InStep(sm, search) && sm.store == old(sm.store)
    ensures old(sm.HasRoot()) ==> !ok && SameRoot(old(sm.loaded), sm.loaded) && sm.state == old(sm.state)
    ensures ok ==> sm.state == Syncing && SafeHash(sm.loaded, sm.txKey, []) == hash
  {
    hide Safe, DirtyOk, Shadow, SafeHash, Acquisition.Valid, EnvOk, Deserialized;
    var had := sm.HasRoot();
    ok := sm.AddRootNode(hash, blob, withEntry);
    if ok {
      RootHashIs(sm, hash);
    }
    if !had {
      LoadedIsEnv(sm.loaded, sm.txKey, search.env.durable, search.env.staged);
      search.ReplaceRoot(SafeHash(sm.loaded, sm.txKey, []),
                         Env(search.env.durable, search.env.staged, Shadow(sm.loaded, sm.txKey)), [] in sm.dirty);
    }
  }

  lemma {:induction false} RootHashIs(sm: SyncMap, hash: Hash)
    requires sm.Valid() && sm.loaded[[]].InnerNode? && |sm.loaded[[]].hashes| == |sm.loaded[[]].bits| == 16
    requires NodeHash(sm.loaded[[]]) == hash
    ensures SafeHash(sm.loaded, sm.txKey, []) == hash
  {
  }

  /** One thing happens. Whatever it is, the map and its search stay in step, and a root
      with branches stays what it was. */
  method Happen(sm: SyncMap, search: Acquisition, e: Event)
    requires InStep(sm, search) && Sensible(e)
    modifies sm, search
    ensures InStep(sm, search) && old(sm.store) <= sm.store
    ensures old(sm.HasRoot()) ==>
      SameRoot(old(sm.loaded), sm.loaded) && (sm.state == old(sm.state) || sm.state == Invalid)
  {
    hide Safe, DirtyOk, Shadow, SafeHash, Acquisition.Valid, Closed, Awaited, Deserialized, FromPrefix;
    match e
    case ArrivesRoot(hash, blob, withEntry) =>
      var ok := ReceiveRoot(sm, search, hash, blob, withEntry);
    case Arrives(target, blob, markDirty) =>
      var result;
      ghost var refused;
      result, refused := Deliver(sm, search, target, blob, markDirty);
    case ArrivesStored(target, record, markDirty) =>
      var result;
      ghost var refused;
      result, refused := DeliverRecord(sm, search, target, record, markDirty);
    case Persists(records, durable) => Persist(sm, search, records, durable);
    case Searches(filter, maxNodes, probe) =>
      var status, nodes := Search(sm, search, filter, maxNodes, probe);
    case Acknowledges(release) =>
      var ok, complete := AcknowledgeAll(sm, search, release);
  }

  /** Safety of whole acquisitions: over any events in any order, a root with branches stays
      what it was, every loaded node is the one the root hash commits to, and if the sync
      finishes, the map reads as the one canonical map that hash can commit to. */
  method Acquire(sm: SyncMap, search: Acquisition, events: seq<Event>) returns (ok: bool)
    requires InStep(sm, search) && forall i :: 0 <= i < |events| ==> Sensible(events[i])
    modifies sm, search
    ensures InStep(sm, search)
    ensures old(sm.HasRoot()) ==> SafeHash(sm.loaded, sm.txKey, []) == old(SafeHash(sm.loaded, sm.txKey, []))
    ensures old(sm.HasRoot()) && ok ==> old(sm.state) == Syncing
    ensures forall p :: p in sm.loaded ==>
      HashAt(SafeHash(sm.loaded, sm.txKey, []), p) == SafeHash(sm.loaded, sm.txKey, p)
    ensures ok ==> sm.state == Modifying && Closed(SafeHash(sm.loaded, sm.txKey, []), sm.store)
    ensures ok ==> Acquired(sm.loaded, sm.store, sm.txKey, SafeHash(sm.loaded, sm.txKey, []))
  {
    hide Safe, DirtyOk, Shadow, SafeHash, Acquisition.Valid, Closed, Acquired, HashAt, Sensible;
    for i := 0 to |events|
      invariant InStep(sm, search)
      invariant old(sm.HasRoot()) ==>
        SameRoot(old(sm.loaded), sm.loaded) && (sm.state == old(sm.state) || sm.state == Invalid)
    {
      Happen(sm, search, events[i]);
    }
    NoBranches(sm);
    search.LookAround();
    ghost var reported;
    ok, reported := FinishSync(sm, search);
    if old(sm.HasRoot()) {
      RootStays(old(sm.loaded), sm.loaded, sm.txKey);
    }
    forall p | p in sm.loaded
      ensures HashAt(SafeHash(sm.loaded, sm.txKey, []), p) == SafeHash(sm.loaded, sm.txKey, p)
    {
      LoadedIsCommitted(sm.loaded, sm.txKey, p);
    }
  }

  // ------------------------------------------------- what the reference walk says

  /** What CheckComplete resolves nodes from. */
  function Sources(sm: SyncMap): Env
    requires sm.Valid()
    reads sm
  {
    Env(sm.store, {}, Shadow(sm.loaded, sm.txKey))
  }

  /** The loaded nodes hang together. */
  lemma {:induction false} LoadedIsRooted(m: Sync.Loaded, txKey: Data -> Key, durable: set<Hash>, staged: set<Hash>)
    requires Safe(m, txKey) && [] in m
    ensures Completeness.Rooted(Env(durable, staged, Shadow(m, txKey)))
  {
    forall p | p in m && p != []
      ensures p[..|p| - 1] in m && IsFan(SafeHash(m, txKey, p[..|p| - 1]))
      ensures m[p[..|p| - 1]].InnerNode? && |BitsOf(m[p[..|p| - 1]])| == 16 && BitsOf(m[p[..|p| - 1]])[p[|p| - 1]]
    {
      ParentIsFan(m, txKey, p);
    }
    hide Safe, SafeHash;
  }

  lemma {:induction false} ParentIsFan(m: Sync.Loaded, txKey: Data -> Key, p: seq<Nibble>)
    requires Safe(m, txKey) && p in m && p != []
    ensures var up := p[..|p| - 1];
      && up in m && m[up].InnerNode? && IsFan(SafeHash(m, txKey, up))
      && |BitsOf(m[up])| == 16 && BitsOf(m[up])[p[|p| - 1]]
  {
    SafeAt(m, txKey, p);
    SafeAt(m, txKey, p[..|p| - 1]);
  }

  /** No loaded node has a branch set with a zero hash and nothing loaded there. */
  ghost predicate NoStray(m: Sync.Loaded) {
    forall p, b: Nibble :: p in m && Stray(m[p], b) ==> p + [b] in m
  }

  ghost predicate Stray(n: Node, b: Nibble) {
    n.InnerNode? && |n.bits| == |n.hashes| == 16 && n.bits[b] && n.hashes[b].Zero?
  }

  lemma {:induction false} StrayIsPhantom(m: Sync.Loaded, txKey: Data -> Key, durable: set<Hash>, p: seq<Nibble>,
                                          b: Nibble)
    requires Safe(m, txKey) && p in m
    ensures Completeness.Phantom(Env(durable, {}, Shadow(m, txKey)), p, b) <==> Stray(m[p], b) && p + [b] !in m
  {
    SafeAt(m, txKey, p);
    hide Safe, Fits;
  }

  lemma {:induction false} NoStrayNoPhantom(m: Sync.Loaded, txKey: Data -> Key, durable: set<Hash>)
    requires Safe(m, txKey)
    ensures Completeness.NoPhantom(Env(durable, {}, Shadow(m, txKey))) <==> NoStray(m)
  {
    hide Safe, Completeness.Phantom, Stray;
    forall p, b: Nibble | p in m
      ensures Completeness.Phantom(Env(durable, {}, Shadow(m, txKey)), p, b) <==> Stray(m[p], b) && p + [b] !in m
    {
      StrayIsPhantom(m, txKey, durable, p, b);
    }
  }

  /** CheckComplete. */
  method CheckComplete(sm: SyncMap) returns (ok: bool, report: Completeness.Report)
    requires sm.Valid()
    ensures ok ==> report == Whole(sm)
  {
    hide Safe, EnvOk, Shadow, SafeHash, Completeness.Walked;
    var env, root := Sources(sm), SafeHash(sm.loaded, sm.txKey, []);
    LoadedIsEnv(sm.loaded, sm.txKey, sm.store, {});
    ok, report := Completeness.CheckNode(env, root, root, [], AttachedView(env.attached[[]]), Completeness.NOTHING);
    NothingFirst(Whole(sm));
  }

  lemma {:induction false} NothingFirst(r: Completeness.Report)
    ensures Completeness.Plus(Completeness.NOTHING, r) == r
  {
    assert [] + r.missing == r.missing && [] + r.corrupt == r.corrupt;
  }

  /** What CheckComplete has to report of the whole map. */
  ghost function Whole(sm: SyncMap): Completeness.Report
    requires sm.Valid()
    reads sm
  {
    Completeness.Walked(Sources(sm), SafeHash(sm.loaded, sm.txKey, []), [], AttachedView(Sources(sm).attached[[]]))
  }

  /** Soundness of the search against the reference walk: if a slice reports a map that is
      not invalid complete, CheckComplete finds it clean if and only if no loaded node has
      a stray branch and no inner node without children has to be read from the store. For
      a root hash that a map of the code's own making can have, the stray branches alone
      decide. */
  method SearchThenCheck(sm: SyncMap, search: Acquisition)
    returns (status: Option<Status>, ok: bool, report: Completeness.Report)
    requires InStep(sm, search)
    modifies sm`store, search
    ensures InStep(sm, search)
    ensures sm.state != Invalid && status == Some(Complete) && ok ==>
      (Completeness.Clean(report) <==>
         NoStray(sm.loaded) && Completeness.NoHollow(Sources(sm), SafeHash(sm.loaded, sm.txKey, []), []))
    ensures sm.state != Invalid && status == Some(Complete) && ok && Canonized(SafeHash(sm.loaded, sm.txKey, [])) ==>
      (Completeness.Clean(report) <==> NoStray(sm.loaded))
  {
    hide Safe, DirtyOk, Shadow, SafeHash, Acquisition.Valid, Closed, NoStray, Whole, Completeness.NoHollow,
         Completeness.Clean, Canonized;
    var nodes;
    status, nodes := Search(sm, search, h => true, 1, true);
    ok, report := CheckComplete(sm);
    if sm.state != Invalid && status == Some(Complete) {
      WholeIsClean(sm);
    }
  }

  /** Some canonical map has this root hash. */
  ghost predicate Canonized(h: Hash) {
    exists kind: LeafKind, t: Tree :: CanonicalRoot(t) && HashOf(kind, t) == h
  }

  lemma {:induction false} WholeIsClean(sm: SyncMap)
    requires sm.Valid() && Closed(SafeHash(sm.loaded, sm.txKey, []), sm.store)
    ensures Completeness.Clean(Whole(sm)) <==>
      NoStray(sm.loaded) && Completeness.NoHollow(Sources(sm), SafeHash(sm.loaded, sm.txKey, []), [])
    ensures Canonized(SafeHash(sm.loaded, sm.txKey, [])) ==> (Completeness.Clean(Whole(sm)) <==> NoStray(sm.loaded))
  {
    hide Safe, Shadow, SafeHash, NoStray, Closed, Completeness.NoHollow, Completeness.Walked, Completeness.Rooted,
         Completeness.NoPhantom;
    var env, root := Sources(sm), SafeHash(sm.loaded, sm.txKey, []);
    LoadedIsEnv(sm.loaded, sm.txKey, sm.store, {});
    LoadedIsRooted(sm.loaded, sm.txKey, sm.store, {});
    NoStrayNoPhantom(sm.loaded, sm.txKey, sm.store);
    if IsFan(root) {
      Completeness.CompleteHasNoGaps(env, root);
    } else {
      EmptyIsClean(env, root);
    }
    if Canonized(root) {
      var kind: LeafKind, t: Tree :| CanonicalRoot(t) && HashOf(kind, t) == root;
      Completeness.CanonicalIsNotHollow(env, kind, t, [], []);
    }
  }

  /** A map without branches. */
  lemma {:induction false} EmptyIsClean(env: Env, root: Hash)
    requires EnvOk(env, root) && !IsFan(root) && Completeness.Rooted(env)
    ensures Completeness.Clean(Completeness.Walked(env, root, [], AttachedView(env.attached[[]])))
    ensures Completeness.NoPhantom(env) && Completeness.NoHollow(env, root, [])
  {
    hide Completeness.Rooted, EnvOk, HashAt, Completeness.Walked, Completeness.Clean, Completeness.NoHollow;
    RootIs(env, root);
    EmptyWalk(env, root, AttachedView(env.attached[[]]));
    forall p, b: Nibble | p in env.attached
      ensures !Completeness.Phantom(env, p, b)
    {
      OnlyRoot(env, root, p);
    }
  }

  lemma {:induction false} EmptyWalk(env: Env, root: Hash, v: View)
    requires !IsFan(root)
    ensures Completeness.Clean(Completeness.Walked(env, root, [], v)) && Completeness.NoHollow(env, root, [])
  {
    hide Completeness.WalkedKids, Completeness.Plus;
    Completeness.PlusGroups(Completeness.NOTHING.(inner := 1), Completeness.NOTHING, Completeness.NOTHING);
  }

  lemma {:induction false} RootIs(env: Env, root: Hash)
    requires EnvOk(env, root)
    ensures [] in env.attached && env.attached[[]].hash == root && (root.Zero? || IsFan(root))
  {
    assert HashAt(root, []) == root;
  }

  lemma {:induction false} OnlyRoot(env: Env, root: Hash, p: seq<Nibble>)
    requires EnvOk(env, root) && !IsFan(root) && Completeness.Rooted(env) && p in env.attached
    ensures p == []
    decreases |p|
  {
    RootIs(env, root);
    if p != [] {
      Completeness.RootedAt(env, p);
      OnlyRoot(env, root, p[..|p| - 1]);
    }
  }
}
