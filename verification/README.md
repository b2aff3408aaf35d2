# Verification of the SHAMap and its acquisition machinery

A Dafny model of the SHAMap, the authenticated 16-way radix tree behind every ledger
of go-xrpl (`shamap/`), of the machinery that acquires, flushes, caches and serves it,
and of the base58 and X-address codecs (`codec/addresscodec/`). The model follows the
Go code operation by operation; the theorems say what the code is for.

`dafny verify dfyconfig.toml` covers the whole project.

## How the model is built

- A hash is a datatype: zero, or the digest of a preimage. Two digests are equal exactly
  when their preimages are, and a digest is never zero. Nothing else is assumed of the
  hash function.
- A key is a sequence of 64 nibbles. `KeyPath` proves the packing into 32 bytes, the
  byte order and the node identifiers separately.
- What the source updates in place is a class or a loop here: inner nodes and maps on
  the heap with path copying and sharing (`MapNodes`, `ShaMap`), the resumable scanner
  (`Scanner`), acquisition (`Sync`), flushing (`Flush`), the budgets and caches
  (`Budget`, `FullBelow`, `Residency`, `Serving.WireBudget`). Their methods are proved
  against functions on values, and the theorems are about those functions.
- A method that takes a lock in the source is one atomic step. What other goroutines do
  between steps appears as a step of its own, with a contract that is all the code may
  rely on (`Scanner.Acquisition.Move`, `Flush.Flusher.Change`). Attaching a node,
  storing records and letting go of nodes that have a durable record are such steps
  (`Sync.AttachIsLater`, `Scanner.ArrivalIsLater`, `Scanner.ReleaseIsLater`). A walk sees
  nodes that are attached while it goes on at some time or other
  (`Scanner.SeeingIsLater`). Placing a node by its hash (`Sync.SyncMap.AddKnownNode`) can
  drop loaded nodes and is not such a step: the results about searches are for
  acquisition by position.
- Clocks, refused reservations, failed reads and cancellations are unconstrained
  choices.
- "In every run" is stated as an invariant: `Valid()` of a class holds of a new object,
  every method keeps it, and no method asks for more than it, apart from what the source
  demands of its callers.

| module | what it is about |
|---|---|
| `KeyPath`, `Trie`, `Mutation`, `Hashing` | keys, the canonical shape, put and delete as functions, what a root hash commits to |
| `MapNodes`, `ShaMap` | the same on the heap: split chains, consolidation, batches, snapshots |
| `Compare`, `Iteration`, `WireFormat`, `Proofs` | difference of two maps, ordered access, node encodings, Merkle proofs |
| `ScanModel`, `ScanSound`, `ScanExact`, `ScanAccount`, `ScanStep`, `Scanner`, `ScanPass`, `Completeness` | the 16-lane search for missing nodes: state, soundness, exactness, memory, single turns, the class, whole passes, the reference walk |
| `Sync`, `Acquire`, `Flush` | nodes arriving from peers; whole acquisitions in which replies, searches and acknowledgements mix; dirty nodes going to the store |
| `Budget`, `FullBelow`, `Residency`, `Serving` | allocators, caches, bounded replies |
| `Base58`, `XAddress` | chunked base conversion and the address format on top of it |

## What the proofs turned up

Where a promised property does not hold of the code as it is, the model keeps the code
and states exactly when the property holds.

- A transaction leaf without metadata hashes its data but not its key. Over the maps
  that can be built from a stock of items, equal root hashes mean equal maps if and only
  if no data is stocked under two keys with the same first nibble
  (`Hashing.KeylessHashExactly`, counterexample `Hashing.SameDataSameHash`). The
  structural comparison relies on that meaning, and is exact under the very same
  condition (`Compare.KeylessDiffExactly`, counterexample `Compare.SameDataNoReport`).
  Storing every transaction under its identifier satisfies it
  (`Hashing.IdentifiersSeparate`).
- For the same reason a proof path can be accepted for a key the map does not hold.
  Over all keys and all paths this does not happen if and only if no transaction is held
  where its identifier leads but under another key (`Proofs.KeylessProofExactly`,
  counterexample `Proofs.ImpostorAccepted`).
- The zero key is a legal state key, but the parsers refuse it. A leaf reads back from
  its wire form, and a proof for it verifies, if and only if the parser accepts its key
  (`WireFormat.LeafRoundTrip`, `Proofs.ProofIsComplete`, counterexample
  `Proofs.ZeroKeyHasNoProof`). Records in the store are read by a parser with the same
  tests: a map whose records are all there reads as it should, for all keys, if and only
  if every leaf record decodes (`Sync.ReadsExactly`), which for a state map of items that
  were put means that it does not hold the zero key (`Sync.LegibleExactly`). The same
  condition decides whether a flushed map can be read after it is opened again
  (`Flush.Reopened`, counterexample `Flush.ZeroKeyIsLost`).
- A map marked invalid is reported complete without a look at it, and an inner node sent
  for a leaf's depth marks a map so. Complete can be relied on exactly for maps that are
  not invalid: for those it means that everything is durable
  (`Scanner.Acquisition.Scan`), for an invalid one it is the answer whatever is absent
  (`ScanPass.InvalidLooksComplete`).
- The compressed inner encoding admits an entry with a zero hash. It sets a branch bit
  that no hash stands for, and the node's hash is that of the node without the bit
  (`Sync.PhantomEntry`). A parsed node is the one its hash determines if and only if it
  has no such branch (`Sync.ParsedIsCanonic`). Reads are not affected
  (`Sync.AcquiredContent`), but the reference walk CheckComplete agrees with a scanner
  that reported Complete if and only if no attached node has such a branch
  (`Completeness.CanonicalHasNoGaps`, counterexample `Completeness.PhantomDisagrees`).
  For root hashes no map of the code's own making has, there is one more way to disagree:
  an inner record without children passes the scanner's parser and not the walk's
  (`Completeness.CompleteHasNoGaps`, counterexample `Completeness.HollowDisagrees`).
  `Acquire.SearchThenCheck` states both for every map being acquired.
- A limited comparison that reports exactly as many differences as its limit calls itself
  incomplete even if there are no others; `Compare.CompareMaps` states the exact
  condition.
- The cold-read limit of bounded serving admits every node that fits if and only if the
  remaining bytes are at least 546 or fewer than 46 (`Serving.ColdLimitExactly`): between
  the two it can keep back a node that fits.
- Releasing a scan cursor also drops the verified base, whichever base the cursor was
  made for (`Scanner.Acquisition.ReleaseCursor`). If a slice replaces a stale cursor while
  there is a base, that base is lost with it, and the next slice throws the new cursor and
  its pass away. What one slice leaves unfinished the next goes on with if and only if no
  base was lost that way (`ScanPass.TwoSlices`, counterexample `ScanPass.LosesPass`).
- An acknowledgement may let go of all nodes below the root. A suspended walk can go on
  without them if and only if each of them has a record (`Scanner.ReleaseIsLater`): an
  inner node without branches, which a peer can have attached where the recorded hash is
  zero, has none.
- A root without branches is installed, and the map set to syncing, even if the call then
  fails because such a root has no store entry (`Sync.SyncMap.AddRootNode`).

## Model

| member | source | states |
|---|---|---|
| KeyPath.PackUnpack | shamap/keypath.go:27-40 | working on nibbles loses nothing: packing and unpacking are inverse in both directions |
| KeyPath.BranchAtDepth | shamap/keypath.go:27-40 | the nibble at a depth, and branch 0 for depths out of range |
| KeyPath.FindSplitDepth | shamap/keypath.go:44-51 | the first depth from the start on where two keys part; the fallback only for keys that agree from there on |
| KeyPath.SplitDepthParts | shamap/keypath.go:44-51 | for different keys that agree above the start, the depth found gives each leaf a branch of its own |
| KeyPath.ChildPathForBranch | shamap/keypath.go:54-63 | writing a branch into the packed path changes that nibble and no other |
| KeyPath.PathPrefixEq | shamap/keypath.go:75-82 | true exactly if the leading branches agree |
| KeyPath.CreateNodeID | shamap/node_id.go:31-56 | fails exactly past depth 64; otherwise the identifier is canonical and stands for the leading branches of the key |
| KeyPath.ChildNodeID | shamap/node_id.go:110-136 | fails exactly for bad branches and leaf depth; the child stands for the parent path and the branch, and stays canonical |
| KeyPath.ParseNodeID | shamap/node_id.go:79-100 | accepts exactly the encodings of canonical identifiers, and returns the one encoded |
| KeyPath.CanonicalIDUnique | shamap/node_id.go:31-56 | equal paths mean equal canonical identifiers, so identifiers can be compared for positions |
| KeyPath.RawOrderIsBranchOrder | shamap/iterator.go:275-277 | byte order on packed keys is branch order on nibbles |
| Trie.CanonicalIsBuild | shamap/mutation.go:86-144 | a canonical subtree is the reference tree of its content: the shape carries no trace of its history |
| Trie.BuildRootIsCanonical | shamap/mutation.go:39-145 | every finite map has a canonical tree with exactly that content |
| Trie.ContentDeterminesTree | shamap/mutation.go:345-374 | two canonical maps are the same tree if and only if they hold the same items |
| Mutation.InsertIsCanonical | shamap/mutation.go:39-145 | put keeps the canonical shape: leaves on their key's path, two leaves below every inner node but the root |
| Mutation.InsertLookup | shamap/mutation.go:39-145 | after put the key reads the new data and every other key reads as before |
| Mutation.RemoveIsCanonical | shamap/mutation.go:322-382 | delete with consolidation keeps the canonical shape |
| Mutation.RemoveLookup | shamap/mutation.go:322-382 | after delete the key is absent and every other key reads as before |
| Mutation.PutRefines | shamap/mutation.go:39-145 | put is finite-map update on the whole map |
| Mutation.DeleteRefines | shamap/mutation.go:259-284 | delete is finite-map removal on the whole map |
| Mutation.HistoryRefines | shamap/mutation.go:11-36 | over any history of puts and deletes the map stays canonical and holds what the same calls make of a finite map |
| Mutation.HistoryIndependence | shamap/mutation.go:345-374 | histories that end in the same finite map end in the same tree |
| Mutation.OnlyBelowIsOnly | shamap/traverse.go:204-247 | what onlyBelow finds is the only item of the subtree |
| Hashing.HashCommits | shamap/inner_node.go:200-217 | the whole subtree can be read back from its hash, if leaves hash their key |
| Hashing.RootHashIdentifiesContent | shamap/inner_node.go:200-217 | two canonical maps whose leaves hash their key have the same root hash if and only if they have the same content |
| Hashing.HistoryHash | shamap/leaf.go:135-144 | two histories of state-map calls end in the same root hash if and only if they end in the same finite map |
| Hashing.SameDataSameHash | shamap/leaf.go:135-144 | two different maps of keyless leaves with one root hash |
| Hashing.KeylessHashExactly | shamap/leaf.go:135-144 | for keyless leaves the root hash identifies the map if and only if no data is stocked under two keys on one first branch |
| Hashing.IdentifiersSeparate | shamap/leaf.go:135-144 | transactions stored under their own identifiers meet that condition |
| MapNodes.LeafNode.constructor | shamap/leaf.go:80-96 | a leaf of at least 12 bytes of data carries the hash of its key and data and starts dirty |
| MapNodes.InnerNode.constructor | shamap/inner_node.go:42-46 | a new inner node is consistent, empty and dirty |
| MapNodes.InnerNode.Clone | shamap/inner_node.go:427-439 | a copy with its own header and shared children stands for the same subtree |
| MapNodes.InnerNode.FromRecord | shamap/store.go:133-167 | a node decoded from its record stands for the subtree its hash commits to, clean and without loaded children |
| MapNodes.InnerNode.UpdateHash | shamap/inner_node.go:200-217 | recomputing the hash makes it the hash of the subtree, live children included |
| MapNodes.InnerNode.SetChild | shamap/inner_node.go:98-117 | whatever the slot held, afterwards pointer, cached hash, mask bit and own hash agree, and exactly that branch has changed |
| MapNodes.InnerNode.BranchCount | shamap/inner_node.go:80-84 | tells an empty node, a node with a single branch and any other apart |
| ShaMap.StateMap.constructor | shamap/shamap.go:87-121 | a new map is valid and empty with a zero root hash |
| ShaMap.StateMap.Shared | shamap/snapshot.go:200-234 | a snapshot shares the root pointer and is valid |
| ShaMap.StateMap.Descend | shamap/shamap.go:250-317 | loaded or read from the store, the child is the subtree recorded for the branch; it fails only on an unreadable record |
| ShaMap.StateMap.WalkToKey | shamap/traverse.go:63-107 | the nodes on the key's path, root first, and the leaf or empty slot it ends in |
| ShaMap.StateMap.Get | shamap/shamap.go:442-497 | answers what the finite map holds; fails only on an unreadable record |
| ShaMap.StateMap.DirtyUp | shamap/mutation.go:201-235 | a fresh, consistent path whose tree is the old one with the subtree replaced; no existing node changes |
| ShaMap.StateMap.BuildChain | shamap/mutation.go:104-116 | the chain from the current depth to the split depth, its cached hashes stale while children are still empty |
| ShaMap.StateMap.RefreshChain | shamap/mutation.go:129-136 | bottom-up re-linking makes every cached hash along the chain match again |
| ShaMap.StateMap.SplitLeaves | shamap/mutation.go:86-136 | the chain holds exactly the two leaves, consistent throughout |
| ShaMap.StateMap.PutUnsafe | shamap/mutation.go:39-145 | the tree becomes the put of the key, or the map is untouched; the only errors are store errors and short data |
| ShaMap.StateMap.FindOnlyBelow | shamap/traverse.go:204-247 | returns the only item below a node, or says there is more than one |
| ShaMap.StateMap.Consolidate | shamap/mutation.go:345-374 | an emptied node vanishes, a node with one item becomes its leaf, any other stays |
| ShaMap.StateMap.ConsolidateAfterDelete | shamap/mutation.go:322-382 | climbing from the leaf's parent to the root yields the tree without the key |
| ShaMap.StateMap.DeleteUnsafe | shamap/mutation.go:259-317 | the tree becomes the removal of the key, which was there; not-found only if it was not |
| ShaMap.StateMap.Put | shamap/mutation.go:11-36 | content update on success, the very same map otherwise; an unbacked map fails exactly as documented |
| ShaMap.StateMap.Delete | shamap/mutation.go:259-284 | content removal on success, the very same map otherwise; an unbacked map succeeds exactly if the key is there |
| ShaMap.StateMap.PutItemsAtomically | shamap/mutation.go:164-188 | all puts in order, or none: a failure part way leaves the map as it was |
| ShaMap.StateMap.Snapshot | shamap/snapshot.go:200-234 | fails exactly on an invalid map; the copy shares the root and has the state asked for |
| ShaMap.RunCall | shamap/mutation.go:11-36 | one call contributes exactly its own updates if it succeeds and nothing otherwise; on a modifiable map in memory it succeeds exactly if it is acceptable |
| ShaMap.RunIsolated | shamap/snapshot.go:200-234 | snapshot isolation over whole runs: any calls on one map leave another as it was; the first holds what the updates of its successful calls make of a finite map; on a modifiable map in memory the successful calls are exactly those without nil items, small items and missing keys |
| Compare.WalkBranch | shamap/compare.go:219-318 | emits the walk's list to its end, or the part that fits the limit |
| Compare.DiffInner | shamap/compare.go:154-214 | emits the one-sided branches and pushes the pairs that need a deeper look, neither losing nor repeating any |
| Compare.EmitLeafDiff | shamap/compare.go:120-149 | two leaves: a modification, or a removal and an addition, or nothing |
| Compare.DiffPair | shamap/compare.go:52-116 | one pair: emitted and still to do make up the whole list |
| Compare.CompareMaps | shamap/compare.go:18-116 | a prefix of the full report; complete exactly if unlimited or the differences are fewer than the limit |
| Compare.WalkExact | shamap/compare.go:219-318 | a subtree against nothing or one item: exactly the difference below that position |
| Compare.DiffListExact | shamap/compare.go:52-116 | the walk's list is the pointwise difference of two subtrees, each key once |
| Compare.FullDiffIsExact | shamap/compare.go:18-116 | the unlimited report is exactly the pointwise difference of the two finite maps, each key once |
| Compare.SameDataNoReport | shamap/compare.go:52-57 | two different maps of keyless leaves for which the comparison reports nothing |
| Compare.KeylessDiffExactly | shamap/compare.go:52-57 | for keyless leaves the report is exact if and only if no data is stocked under two keys on one first branch |
| WireFormat.ParseCompressed | shamap/inner_node.go:381-418 | the loop over 33-byte entries yields what the entries say, later ones overriding earlier |
| WireFormat.ParseFull | shamap/inner_node.go:348-378 | sixteen hashes, a bit for each that is not zero; any other length is refused |
| WireFormat.SerializeInner | shamap/inner_node.go:264-299 | refuses a node without branches; otherwise the compressed form below twelve branches and the full form from there |
| WireFormat.Deserialize | shamap/inner_node.go:329-345 | dispatches on the trailing type byte as the specification function does |
| WireFormat.CompressedRoundTrip | shamap/inner_node.go:381-418 | the compressed form reads back, branch by branch |
| WireFormat.FullRoundTrip | shamap/inner_node.go:348-378 | the full form reads back |
| WireFormat.InnerRoundTrip | shamap/inner_node.go:264-299 | a node's wire form reads back as the node, in either encoding |
| WireFormat.LeafRoundTrip | shamap/leaf.go:167-292 | a leaf reads back as itself if and only if its key survives parsing; whatever is read has its kind and data |
| WireFormat.LeafSizeAgrees | shamap/wire.go:91-115 | the size computed for a leaf is the size of its encoding |
| WireFormat.InnerSizeAgrees | shamap/wire.go:91-115 | the size computed for an inner node is the size of its encoding, and none exactly if it has no encoding |
| Proofs.VerifyProofPath | shamap/proof.go:92-175 | the loop from the root blob down decides as the specification function does |
| Proofs.GetProofPath | shamap/proof.go:27-76 | found exactly if the key is in the map; the path lists the nodes from the leaf up |
| Proofs.ProofIsSound | shamap/proof.go:92-175 | whatever the blobs and encodings, an accepted path proves that the map with this root hash holds the key with the returned data |
| Proofs.KeylessProofExactly | shamap/proof.go:92-175 | for keyless leaves all accepted paths are sound if and only if no leaf is held where its transaction's identifier leads but under another key |
| Proofs.ImpostorAccepted | shamap/proof.go:92-175 | a map with one such leaf, and an accepted path for the identifier it does not hold |
| Proofs.KeysBoundNoImpostor | shamap/proof.go:92-175 | storing every transaction under its identifier satisfies that condition |
| Proofs.PathSays | shamap/proof.go:28-175 | the path built along any key that leads to a leaf verifies exactly as that leaf, once sent, says |
| Proofs.ProofIsComplete | shamap/proof.go:27-76 | the path built for a present key verifies and yields its data if and only if its leaf reads back |
| Proofs.ZeroKeyHasNoProof | shamap/leaf.go:213-239 | the zero state key is in the map and its own proof is refused |
| Iteration.BoundBelow | shamap/traverse.go:254-281 | the first or last item of a subtree |
| Iteration.WalkBoundStack | shamap/iterator.go:75-124 | the inner nodes toward a key and what lies below the last of them |
| Iteration.BoundUnsafe | shamap/iterator.go:150-271 | upper bound: the least key above the argument; lower bound: the greatest below; none exactly if there is none |
| Iteration.CompareKeys | shamap/iterator.go:275-277 | negative, zero or positive exactly for below, equal and above |
| Iteration.WalkLeaves | shamap/traverse.go:120-153 | the items in ascending order up to the one the callback stops at |
| Iteration.Iterator.Next | shamap/iterator.go:35-54 | moves to the least key above the current one in the map as it is now |
| Iteration.ItemsAbove | shamap/iterator.go:35-54 | repeated Next from an upper bound enumerates exactly the items above, as the leaf walk lists them |
| Iteration.BoundIsListed | shamap/iterator.go:150-196 | in the list of all items the upper bound is the first above the key |
| Iteration.WalkListsContent | shamap/traverse.go:113-153 | the leaf walk lists exactly the items of the finite map, strictly ascending |
| ScanSound.StoredIsPresent | shamap/backed_walk.go:211-232 | what is completely in the durable store can all be loaded |
| ScanSound.PresentLater | shamap/backed_walk.go:211-232 | what can all be loaded still can be after any allowed move of the sources |
| ScanSound.PresentIsClosed | shamap/persistence_ack.go:20-64 | after a persistence barrier, what can all be loaded is completely in the durable store |
| ScanSound.FrameDone | shamap/missing_scanner.go:231-264 | a full frame with nothing left: all below can be loaded, and is durable if flagged stored |
| ScanSound.SkipOk | shamap/missing_scanner.go:284-295 | skipping a subtree for the base or the cache keeps the lane sound |
| ScanSound.LoadOk | shamap/missing_scanner.go:329-347 | taking a node's branches from the store or the tree keeps the lane sound |
| ScanSound.MissOk | shamap/missing_scanner.go:304-328 | meeting an absent node keeps the lane sound |
| ScanSound.PushOk | shamap/missing_scanner.go:349-386 | descending hands the branch and its proof to the child and keeps the lane sound |
| ScanSound.FinishOk | shamap/missing_scanner.go:231-264 | popping a frame keeps the lane sound, and the mark it publishes stands for a stored subtree |
| ScanSound.RetainOk | shamap/missing_scanner_proof.go:20-46 | a proof node added to a suspended frame says only what holds |
| ScanSound.RestartOk | shamap/missing_scanner.go:195-213 | starting a pass keeps what earlier passes proved and forgets the rest |
| ScanSound.LaneLater | shamap/missing_scanner.go:266-392 | a suspended lane stays sound while the store grows and nodes come and go |
| ScanExact.PresentIsNoneAbsent | shamap/missing_scanner.go:266-392 | nothing is absent below a position exactly if all of it can be loaded |
| ScanExact.StoredIsNoneAbsent | shamap/missing_scanner.go:284-295 | a subtree skipped by cache, proof or base holds no absent node |
| ScanExact.HandRest | shamap/missing_scanner.go:357-385 | descending splits what a frame has left into its child's part and the rest |
| ScanExact.AbsentIsFrontier | shamap/missing_scanner.go:304-328 | a position is owed exactly if it cannot be loaded and every position above it can and shows the branch |
| ScanExact.AbsentFields | shamap/missing_scanner.go:357-375 | depth, branch, hash and parent hash reported for a position are the ones the root commits to |
| ScanExact.AbsentOnce | shamap/missing_scanner.go:279-386 | no position is owed twice |
| ScanAccount.FinishProofs | shamap/missing_scanner_proof.go:59-73 | popping a full frame frees exactly the proof nodes it holds; popping another keeps them |
| ScanAccount.RetainProofs | shamap/missing_scanner_proof.go:20-46 | retaining adds exactly one proof node |
| ScanAccount.ProofsArePrefix | shamap/missing_scanner_proof.go:20-46 | the frames of a stack that have proof nodes are the lowest ones |
| ScanStep.SkipTurn | shamap/missing_scanner.go:284-295 | a skip finds nothing, frees nothing and lowers the work left |
| ScanStep.LoadTurn | shamap/missing_scanner.go:329-347 | a load finds nothing, frees nothing and lowers the work left |
| ScanStep.PushTurn | shamap/missing_scanner.go:349-386 | a descent finds nothing, frees nothing and lowers the work left |
| ScanStep.FinishTurn | shamap/missing_scanner.go:231-264 | a finished frame finds nothing, frees exactly its proofs and lowers the work left |
| ScanStep.MissTurn | shamap/missing_scanner.go:304-328 | an absent node is found, exactly that one, and the work left is lowered |
| ScanStep.RetainTurn | shamap/missing_scanner_proof.go:20-46 | retaining proofs changes neither what is left to find nor the work |
| Scanner.Acquisition.Move | shamap/backed_walk.go:257-322 | whatever moves the other components make within the rules, the suspended cursor stays valid; the walk sees nodes of the map only |
| Scanner.Acquisition.LookAround | shamap/backed_walk.go:257-322 | the walk comes to see the map as it is, and its cursor stays valid |
| Scanner.Acquisition.Forget | shamap/persistence_ack.go:50-62 | without a cursor the map may let go of any nodes |
| Scanner.Acquisition.Reserve | shamap/backed_walk.go:163-172 | charges exactly the bytes granted |
| Scanner.Acquisition.Release | shamap/backed_walk.go:184-198 | gives back exactly the bytes, which were charged |
| Scanner.Acquisition.RetainProofs | shamap/missing_scanner_proof.go:20-46 | proof nodes from the bottom up as far as limits and budget allow, each charged |
| Scanner.Acquisition.FinishTop | shamap/missing_scanner.go:231-264 | pops the top frame, frees what it held, publishes its mark only for a stored subtree |
| Scanner.Acquisition.TakeTurn | shamap/missing_scanner.go:266-392 | one turn: what it found and what is left make up what was owed; the list grows by what the filter accepts |
| Scanner.Acquisition.ScanLane | shamap/missing_scanner.go:266-392 | a lane walked until it yields, fails, is stopped or is done; at the end complete exactly if nothing was absent |
| Scanner.Acquisition.StartPass | shamap/missing_scanner.go:195-213 | a new pass begins with nothing found and idle lanes |
| Scanner.Acquisition.StartLane | shamap/missing_scanner.go:215-229 | a lane starts exactly if the budget admits its stack |
| Scanner.Acquisition.NewCursor | shamap/missing_scanner.go:70-120 | a cursor exists exactly if the budget admits it, bound to root, generation and base |
| Scanner.Acquisition.ReleaseCursor | shamap/missing_scanner.go:122-150 | every byte charged goes back, and the base is dropped if there was a cursor |
| Scanner.Acquisition.Sweep | shamap/missing_scanner.go:453-493 | over the lanes in turn: what each found is added to its own list; the pass is over exactly if no lane was stopped or blocked |
| Scanner.Acquisition.Prepare | shamap/missing_scanner.go:405-449 | answers Complete early only for a completely durable root; otherwise a current cursor with a pass under way: the one that was, or a new one with nothing found; the base stays and the next slice can go on with it exactly if no base is lost with a stale cursor |
| Scanner.Acquisition.EndPass | shamap/missing_scanner.go:495-509 | if the sources were the same throughout the pass, each lane has found exactly what is absent below its branch and is complete exactly if that is nothing |
| Scanner.Acquisition.Conclude | shamap/missing_scanner.go:495-547 | Complete only if every node is durable; Waiting exactly if a lane is incomplete; Persistence only if something is not durable |
| Scanner.Acquisition.WalkOn | shamap/missing_scanner.go:450-547 | the walking part of a slice: what each lane finds is added to its list, and what holds once the pass is over |
| Scanner.Acquisition.Scan | shamap/missing_scanner.go:394-604 | soundness and exactness of a slice: unless the map is invalid, Complete means every node under the root is durable in a record that decodes; an invalid map is Complete at once; a slice goes on with the pass under way or begins one, and leaves one under way exactly if no base was lost with a stale cursor; the nodes returned are the filter's choice of what the slice found; a pass over unchanged sources finds exactly the absent nodes and asks to wait exactly if there are any |
| Scanner.Acquisition.Acknowledge | shamap/persistence_ack.go:20-64 | after the barrier the root is clean; complete only if every node is durable, and then the cursor is gone with all its bytes |
| Scanner.Acquisition.PublishHints | shamap/persistence_ack.go:69-116 | lane hints become marks only for stored subtrees; complete only if every node is durable |
| Scanner.Acquisition.SetVerifiedBase | shamap/backed_walk.go:103-133 | accepts exactly an inner root, retires the cursor |
| Scanner.Acquisition.BeginMutation | shamap/fullbelow.go:273-292 | a destructive change of the store voids marks and suspended work |
| Scanner.Acquisition.ReplaceRoot | shamap/sync_acquire.go:357-404 | with another root nothing learned about the old one is used |
| Scanner.AllStored | shamap/missing_scanner.go:495-547 | all branches complete and durable and the root durable: every node under it is durable |
| Scanner.RestartExact | shamap/missing_scanner.go:195-213 | a lane that completed earlier owes nothing; any other owes everything absent below it |
| Scanner.ArrivalIsLater | shamap/persistence_ack.go:20-64 | new records, and staged ones that become durable, are moves the suspended search allows for |
| Scanner.SeeingIsLater | shamap/backed_walk.go:257-322 | coming to see further nodes of the map is such a move |
| Scanner.ReleaseIsLater | shamap/persistence_ack.go:50-62 | letting go of attached nodes, those with a record being durable, is such a move if and only if each of them has a record |
| ScanPass.PassReports | shamap/missing_scanner.go:394-547 | however a pass is sliced, its slices together return exactly what the filter accepts of what the lanes found |
| ScanPass.PassIsExact | shamap/missing_scanner.go:394-547 | if each lane found what is owed below its branch, the slices of the pass return, as a bag, exactly the filter's choice of the absent nodes with available ancestors |
| ScanPass.RunPass | shamap/missing_scanner.go:394-604 | a pass run to its end by repeated scans, with moves and acknowledgements in between: if the sources stayed the same, the nodes returned are as a bag exactly the filter's choice of the absent nodes with available ancestors |
| ScanPass.InvalidLooksComplete | shamap/missing_scanner.go:585-587 | a map marked invalid is reported complete with an absent node below its root |
| ScanPass.TwoSlices | shamap/missing_scanner.go:405-449 | what one slice leaves unfinished the next goes on with if and only if no base was lost with a stale cursor; otherwise it begins again with nothing |
| ScanPass.LosesPass | shamap/missing_scanner.go:405-449 | for any base and any two roots: a pass begun after the root changed is thrown away by the next slice |
| ScanPass.OwedIsFrontier | shamap/missing_scanner.go:312-318 | membership in what is owed, the fields reported, and no duplicates |
| ScanPass.AnyStart | shamap/missing_scanner.go:453-455 | the lane a slice starts with does not change what it returns, as a bag |
| Completeness.CheckNode | shamap/completeness.go:60-128 | the reference walk adds exactly the counts, gaps and corrupt records below a node to its report, if it is not cut short |
| Completeness.CompleteHasNoGaps | shamap/completeness.go:39-128 | for a completely durable root the reference walk reports nothing missing or corrupt if and only if no attached node has a branch set without a hash and no inner record without children has to be read |
| Completeness.CanonicalHasNoGaps | shamap/completeness.go:39-128 | for the root hash of a canonical map the first of the two conditions alone decides |
| Completeness.PhantomDisagrees | shamap/completeness.go:39-128 | a root with a branch set without a hash: complete for the scanner, not clean for the reference walk |
| Completeness.HollowDisagrees | shamap/completeness.go:39-128 | a root over an inner record without children: the same |
| Sync.SyncMap.StartSync | shamap/sync_state.go:140-151 | enters the syncing state exactly unless the map is invalid |
| Sync.SyncMap.AddRootNode | shamap/sync_acquire.go:357-404 | a well-formed inner node with the hash asked for goes in exactly if the present root has no branches, and syncing begins; otherwise nothing changes; the call succeeds exactly if the node goes in and has the entry asked for |
| Sync.SyncMap.AttachAt | shamap/sync_acquire.go:195-241 | a node goes in exactly if its hash is the recorded one, a leaf is on its path, an inner node is not too deep and memory is granted |
| Sync.SyncMap.LoadAncestor | shamap/sync_acquire.go:243-265 | an ancestor read on the way is the recorded one |
| Sync.SyncMap.AttachKnownNodeAt | shamap/sync_acquire.go:173-276 | whatever a peer sends, loaded nodes stay and every attached node is the one its parent records; an awaited node is attached unless memory is refused |
| Sync.SyncMap.AddKnownNodeByID | shamap/sync_acquire.go:126-159 | the same for raw bytes; outside the syncing state nothing happens |
| Sync.SyncMap.AddKnownNodeFromPrefix | shamap/sync_acquire.go:64-96 | the same for a record in the form the store keeps |
| Sync.SyncMap.InsertBelow | shamap/sync_acquire.go:290-334 | the first slot in branch order, depth first, that records the hash gets the node and everything below it goes; not found exactly if there is no such slot |
| Sync.SyncMap.AddKnownNode | shamap/sync_acquire.go:18-50 | a node is placed only under its own hash, in the first slot that records it, and the root stays |
| Sync.ReceiveAll | shamap/sync_acquire.go:18-404 | over any sequence of replies, on the wire or as records, with any bytes, the root stays and every loaded node is the one the root hash commits to at its position |
| Sync.LoadedIsCommitted | shamap/sync_acquire.go:173-276 | every loaded node is the one the root hash commits to at its position |
| Sync.LoadedIsEnv | shamap/backed_walk.go:257-322 | the loaded nodes and the store are sources the scanner's theorems apply to |
| Sync.ReadsTree | shamap/shamap.go:442-463 | a subtree acquired in records that decode reads like any canonical tree with its hash |
| Sync.AcquiredContent | shamap/sync_state.go:161-202 | once everything the root refers to is durable in records that decode, the map reads exactly as the one canonical map its root hash can commit to |
| Sync.ClosedExactly | shamap/store.go:73-167 | all records of a canonical tree are there and decode if and only if they are there and the leaf records decode |
| Sync.ReadsExactly | shamap/store.go:73-167 | with all records in the store, every key reads as in the canonical map if and only if every leaf record decodes |
| Sync.LegibleExactly | shamap/store.go:94-97 | for a state map of items that were put, every leaf record decodes if and only if the zero key is not held |
| Sync.AttachIsLater | shamap/sync_acquire.go:173-276 | attaching nodes is a move the suspended search allows for |
| Sync.Deliver | shamap/sync_acquire.go:126-276 | whatever reply arrives while a search is suspended, however far its walk has come, the search stays valid, sees the map as it then is and knows whether its root is dirty; an awaited node is attached unless memory is refused |
| Sync.DeliverRecord | shamap/sync_acquire.go:64-96 | the same for a reply in the form of a stored record |
| Sync.FinishSync | shamap/sync_state.go:161-202 | after any walks of the search: succeeds exactly if the map is syncing and the search reports it complete, and then every node under the root is durable in a record that decodes and the map reads as the canonical map its root hash can commit to; a failure changes no state |
| Acquire.Begin | shamap/sync_state.go:142-151 | a new map and a search that belongs to it |
| Acquire.ReceiveRoot | shamap/sync_acquire.go:357-404 | an accepted root has the hash asked for and the search turns to it; a root with branches stays |
| Acquire.Search | shamap/missing_scanner.go:561-604 | a slice over the map as it is keeps map and search together; Complete on a map that is not invalid means every node is in the store |
| Acquire.LetGo | shamap/persistence_ack.go:50-62 | letting go of the root's children keeps map and search together |
| Acquire.AcknowledgeAll | shamap/persistence_ack.go:20-64 | an acknowledgement, with or without release, keeps the root; after it the map is clean, and complete only if every node is in the store |
| Acquire.Happen | shamap/sync_state.go:140-202 | whatever happens next, map and search stay together and a root with branches stays what it was |
| Acquire.Acquire | shamap/sync_state.go:140-202 | safety of whole acquisitions: over roots, replies, records, searches and acknowledgements in any order, a root with branches keeps its hash, every loaded node is the one the root hash commits to, and if the sync finishes the map reads as the one canonical map that hash can commit to |
| Acquire.LoadedIsRooted | shamap/sync_acquire.go:173-276 | the loaded nodes hang together under branches that are set |
| Acquire.NoStrayNoPhantom | shamap/inner_node.go:381-418 | the condition on attached nodes, read off the map: no loaded node has a branch set with a zero hash and nothing loaded there |
| Acquire.CheckComplete | shamap/completeness.go:39-54 | the whole report of the reference walk, if it is not cut short |
| Acquire.SearchThenCheck | shamap/completeness.go:39-128 | if a slice reports a map that is not invalid complete, the reference walk finds it clean if and only if no loaded node has a stray branch and no inner record without children has to be read; for root hashes of canonical maps the stray branches alone decide |
| Sync.ParsedIsCanonic | shamap/inner_node.go:381-418 | a parsed inner node is the one its hash determines if and only if no branch is set with a zero hash |
| Sync.PhantomEntry | shamap/inner_node.go:381-418 | a compressed entry with a zero hash sets a branch and leaves the node hash as it was |
| Sync.DecodedIsOk | shamap/store.go:207-228 | a record that passes the parser's tests decodes to a well-formed node with the hash it is stored under |
| Flush.BatchClears | shamap/persistence_bounded.go:72-80 | clearing the flags of a stored batch keeps dirty ancestors above dirty nodes and clean subtrees in the store |
| Flush.Flusher.FlushBatch | shamap/persistence_bounded.go:64-81 | a stored batch becomes clean; a failed one stays dirty and its workspace goes back |
| Flush.Flusher.ReserveNode | shamap/persistence_bounded.go:82-129 | workspace for one more node within the limit, after a flush if need be; what is needed never exceeds the limit |
| Flush.Flusher.Emit | shamap/persistence_bounded.go:166-184 | a node joins the batch only after its dirty children; a full batch is flushed |
| Flush.Flusher.Visit | shamap/persistence_bounded.go:131-184 | everything dirty below a node ends in the store or the batch, and nothing outside it is touched |
| Flush.Flusher.StoreLocked | shamap/persistence_bounded.go:185-201 | one walk: success on a non-empty map leaves nothing dirty |
| Flush.Flusher.Change | shamap/persistence_bounded.go:202-212 | any change made while waiting keeps the invariants |
| Flush.Flusher.AwaitMemory | shamap/persistence_bounded.go:215-237 | holds what is needed, or nothing |
| Flush.Flusher.StoreDirtyBatched | shamap/persistence_bounded.go:31-213 | on every exit the invariants hold and the workspace is back; after success on a non-empty map nothing is dirty; after success every record is in the store, and the map opened again reads the same exactly if its leaf records decode |
| Flush.Flusher.Collect | shamap/persistence.go:81-146 | the dirty nodes at and below a position, children first, each once |
| Flush.Flusher.StoreDirty | shamap/persistence.go:32-79 | the same conclusion for the flush in one batch; a cut-off clean-up leaves dirty nodes under dirty ones |
| Flush.Flusher.AcknowledgeNode | shamap/persistence_ack.go:118-138 | flags are cleared children first, so a cut-off walk keeps dirty ancestors; a complete one leaves nothing dirty below |
| Flush.FlushedIsFiled | shamap/persistence.go:32-79 | with nothing dirty, every record the root refers to is in the store |
| Flush.Reopened | shamap/shamap.go:191-230 | a flushed map opened by its root hash alone reads the same items if and only if every leaf record decodes |
| Flush.ZeroKeyIsLost | shamap/store.go:94-97 | a state map with the zero key, completely in the store, cannot be read at that key after it is opened again |
| Budget.WithShare | shamap/acquisition_budget.go:230-250 | changing one category changes the total and the occupied space by exactly its share |
| Budget.IdleOccupies | shamap/acquisition_budget.go:93-107 | an idle protected budget occupies the sum of the minimums, the default limit |
| Budget.MinimumIsFree | shamap/acquisition_budget.go:230-250 | growth inside a category's minimum never changes the occupied space, whatever the others hold |
| Budget.AcquisitionBudget.Growth | shamap/acquisition_budget.go:252-282 | the space a request adds, computed as the source does, decides whether it is granted |
| Budget.AcquisitionBudget.Alone | shamap/acquisition_budget.go:76-81 | a budget without parent starts idle and unprotected |
| Budget.AcquisitionBudget.UnderParent | shamap/acquisition_budget.go:93-107 | protected exactly if the limit covers the minimums, and then charged for them |
| Budget.AcquisitionBudget.Reserve | shamap/acquisition_budget.go:252-282 | grants add exactly the bytes, refusals change nothing; inside the minimum an open protected budget never refuses; granted exactly if open, within the limit and the space added is admitted by the parent |
| Budget.AcquisitionBudget.Release | shamap/acquisition_budget.go:284-306 | gives back exactly the bytes, and the parent is never charged more |
| Budget.AcquisitionBudget.ReserveQuarter | shamap/acquisition_budget.go:355-373 | granted exactly if Reserve would and within a quarter of the limit, for cursor and loaded nodes |
| Budget.AcquisitionBudget.PromoteReplayHead | shamap/acquisition_budget.go:415-436 | moves bytes to the head exactly if they are there; the total stays and the parent is never charged more |
| Budget.AcquisitionBudget.Close | shamap/acquisition_budget.go:490-515 | closes exactly if nothing is held, and then the parent has everything back |
| FullBelow.WithinTarget | shamap/fullbelow.go:113-182 | the two generations of a shard are together within its target |
| FullBelow.ChargeBound | shamap/fullbelow.go:72-111 | a shard's charge stays under target times entry plus slot |
| FullBelow.Advance | shamap/fullbelow.go:113-136 | forgets the older marks after half the age and all after the whole, nothing before; the charge follows exactly |
| FullBelow.MakeRoom | shamap/fullbelow.go:138-182 | makes room for one mark without losing a current one; the charge follows exactly |
| FullBelow.TotalBound | shamap/fullbelow.go:215-251 | the whole cache is charged no more than its target allows |
| FullBelow.FullBelowCache.constructor | shamap/fullbelow.go:215-251 | the shards' targets sum to the target, nothing is charged |
| FullBelow.FullBelowCache.Bounded | shamap/fullbelow.go:97-111 | in every state the charge is within the target's bound |
| FullBelow.FullBelowCache.Has | shamap/fullbelow.go:373-413 | the shard ages, then the answer is whether the mark is there, and so was inserted in this generation; a mark found becomes a newer one without losing another; the other shards stay |
| FullBelow.FullBelowCache.Insert | shamap/fullbelow.go:417-460 | a stored mark is current afterwards; only a closed cache, another generation or the budget can refuse it |
| FullBelow.FullBelowCache.BeginMutation | shamap/fullbelow.go:273-292 | a new generation without marks and without a fingerprint |
| FullBelow.FullBelowCache.EnsureDurableFingerprint | shamap/fullbelow.go:298-328 | marks survive only in the store they were proven in |
| FullBelow.FullBelowCache.BindDurableFingerprint | shamap/fullbelow.go:335-351 | succeeds exactly for the current generation, a fingerprint, and no other one bound in it; otherwise nothing changes |
| FullBelow.FullBelowCache.Sweep | shamap/fullbelow.go:484-504 | every shard has aged: all marks gone after the whole age, the older ones after half of it, none before; the charge never rises |
| FullBelow.FullBelowCache.Close | shamap/fullbelow.go:464-481 | every byte goes back |
| Residency.RemovedOk | shamap/clean_residency.go:288-303 | removal gives back the payload; an emptied segment gives back everything |
| Residency.TouchedOk | shamap/clean_residency.go:152-198 | moving a record to the front changes neither contents nor use |
| Residency.AdmittedOk | shamap/clean_residency.go:232-277 | an admitted record is charged payload and, if new, one slot |
| Residency.CleanResidency.constructor | shamap/clean_residency.go:80-92 | an eighth of the limit is for peers if that holds one record |
| Residency.CleanResidency.InsertLocked | shamap/clean_residency.go:232-277 | the loop ends; exactly the most recent records stay, all of them if the new one fits; unbudgeted it succeeds exactly if an empty segment has room |
| Residency.CleanResidency.EvictOldest | shamap/clean_residency.go:279-286 | drops exactly the least recent record |
| Residency.CleanResidency.BeginMutation | shamap/clean_residency.go:98-113 | nothing stays resident, every charge goes back, a new generation begins |
| Residency.CleanResidency.InsertForPolicy | shamap/clean_residency.go:204-230 | only a record of the current generation is admitted; peers never touch the foreground segment; unbudgeted a fitting record is resident afterwards |
| Residency.CleanResidency.InsertForeground | shamap/clean_residency.go:204-230 | a record admitted to the foreground leaves the peer segment |
| Residency.CleanResidency.Lookup | shamap/clean_residency.go:152-198 | a hit exactly if resident and within the wire limit; what moves to which front; peers leave the foreground as it was |
| Residency.CleanResidency.Read | shamap/shamap.go:250-317 | with the cache in between a read finds a record exactly if the store has it |
| Residency.CleanResidency.Close | shamap/clean_residency.go:355-366 | every charge goes back |
| Serving.WireBytesAgree | shamap/wire.go:117-123 | the charge for a node is its identifier and the size of what is sent for it |
| Serving.ColdLimitExactly | shamap/wire.go:129-135 | the read limit keeps back no fitting node if and only if the remaining bytes are at least 546 or fewer than 46 |
| Serving.WireBudget.SpendWork | shamap/wire.go:71-77 | one unit of work, if there is any |
| Serving.WireBudget.ReserveNode | shamap/wire.go:79-89 | a node and its bytes, exactly if both are left |
| Serving.ReadChild | shamap/shamap.go:323-393 | the budget stops a read only if the node does not fit or the bytes do not cover the largest inner node; without faults no read fails |
| Serving.TakeTurn | shamap/wire.go:331-460 | one turn of the suspended walk: what is met and what is left make up the walk; nothing is overdrawn, a node met costs one work and its bytes, a branch looked at one work |
| Serving.KeptOn | shamap/wire.go:331-460 | a turn keeps the books: what was met so far has an encoding and is paid for in nodes, bytes and work |
| Serving.Serve | shamap/wire.go:331-460 | the bounded walk meets a prefix of the unbounded one and pays exactly for it without overdrawing nodes, bytes or work; it stops early only if one of them is short, a node has no encoding, or something fails |
| Serving.Locate | shamap/wire.go:275-329 | finds the node at the path at one work for each level and no cost in nodes or bytes; stops early only for lack of budget |
| Serving.GetNodeFatByPath | shamap/wire.go:238-460 | a bounded answer is a prefix of the unbounded answer, paid for exactly and within its allowance of nodes, bytes and work, and cut short only for lack of budget |
| Serving.PrefixServed | shamap/wire.go:231-236 | what the first nodes of a walk give is a prefix of what the whole walk gives |
| Base58.ConvertInverts | codec/addresscodec/base58.go:24-135 | changing the base and back is the identity on all digit sequences, leading zeros included |
| Base58.ChunkSplit | codec/addresscodec/base58.go:33-59 | ten digits at a time are the same digits |
| Base58.AppendDigits | codec/addresscodec/base58.go:33-59 | the chunked loop yields the digits of the number |
| Base58.EncodeBase58 | codec/addresscodec/base58.go:24-75 | the chunked encoder is digit-by-digit base conversion |
| Base58.DecodeChunk | codec/addresscodec/base58.go:99-113 | a chunk is refused exactly for a foreign character; its total fits 64 bits |
| Base58.DecodeNumber | codec/addresscodec/base58.go:99-120 | the chunked decoder reads the number the digits stand for |
| Base58.DecodeBase58 | codec/addresscodec/base58.go:78-135 | the decoder is digit-by-digit base conversion, and empty for foreign characters |
| Base58.AlphabetInverts | codec/addresscodec/base58.go:33-59 | every digit is read back from its character |
| Base58.ValueInverts | codec/addresscodec/base58.go:107-113 | every character of the alphabet is the character of its value |
| Base58.DecodeUndoesEncode | codec/addresscodec/base58.go:24-135 | decoding undoes encoding, for all bytes |
| Base58.EncodeUndoesDecode | codec/addresscodec/base58.go:24-135 | encoding undoes decoding, for all strings over the alphabet |
| XAddress.EncodeXAddress | codec/addresscodec/x_codec.go:48-87 | refuses accounts of other than twenty bytes; otherwise the checked encoding of the 31 payload bytes |
| XAddress.CheckDecode | codec/addresscodec/base58check.go:29-42 | what is returned is followed by its own checksum in the decoded bytes |
| XAddress.DecodeTag | codec/addresscodec/x_codec.go:180-204 | accepts exactly flag 0 with zero bytes and flag 1 with a 32-bit tag and zero reserved bytes |
| XAddress.DecodeXAddress | codec/addresscodec/x_codec.go:105-134 | yields exactly the parts of an accepted address, and the same refusals |
| XAddress.PayloadReads | codec/addresscodec/x_codec.go:48-134 | parsing the bytes of an address gives its parts back |
| XAddress.PayloadWrites | codec/addresscodec/x_codec.go:48-134 | accepted bytes are the bytes of the address they parse to |
| XAddress.CheckDecodeInverts | codec/addresscodec/base58check.go:18-42 | check-decoding undoes check-encoding |
| XAddress.AddressRoundTrip | codec/addresscodec/x_codec.go:48-134 | every address decodes to its account, tag presence, tag and network |
| XAddress.AcceptedIsEncoded | codec/addresscodec/x_codec.go:48-134 | every accepted X-address is the one its decoded parts encode to |

## Left out

- Goroutines, mutexes, atomics and channel wakeups: locked methods are atomic steps, and a wait is a nondeterministic retry.
- Generation wrap-around in the scanner and in clean residency, where generations are unbounded; the full-below cache's 32-bit wrap is modelled.
- Flush.Flusher.StoreDirtyBatched: gives up after a given number of waits, so that it terminates; the source waits as long as its context allows.
- Flush, Sync and the scanner see the tree as values by position, not as pointers: aliasing between maps is modelled in `ShaMap` only.
- Scanner.Acquisition.RetainProofs: proof nodes are values inside their frame, so that the source shares no proof node between frames is not part of the model.
- Memory retention of single acquired nodes (`shamap/acquisition_loaded.go:18-64`) is a choice the budget makes; the reservations behind it are in `Budget`.
- Acquire.AcknowledgeAll: with a walk suspended, attached nodes of zero hash are kept where the source would let go of them; what the walk then does with a branch it has noted for such a node is not modelled. A cancelled acknowledgement leaves all dirty flags here, some of them in the source (`Flush.Flusher.AcknowledgeNode` has the walk).
- Releasing loaded children after a flush or for residency: it changes memory, not content.
- The unbacked scan (`shamap/missing_scanner.go:549-559`), which is the same walk with nothing durable to check.
- The older walks walkFullBelow and walkMapParallel, superseded by the scanner.
- Statistics, peaks beyond the budget's own, visit counters and the seen and fresh counts of proof nodes.
- updateHashDeep: it recomputes hashes that agree already in every state of the model.
- DetachedMutable, and the flush a snapshot of a backed map performs first; sharing snapshots and forks are modelled.
- Maps that mix leaf kinds: consolidation rebuilds survivors with the map's default kind, so a map has one kind here; the heap model is the state map's.
- The memoised Size, fetch packs, memory reports, the overlay family, classic addresses and the length test of IsValidXAddress: easy once the tree and codec models exist.
- Real hash functions, checksums and stores: free constructors, an arbitrary four-byte function and a set of records.
