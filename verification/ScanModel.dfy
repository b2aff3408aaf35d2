/** The resumable search for missing nodes, shamap/missing_scanner.go and
    shamap/missing_scanner_proof.go: its data, and the steps on one lane as functions.

    Below each of the root's sixteen branches a lane walks depth first with an explicit
    stack that survives between calls. Branches known to be complete in the durable
    store are remembered in proof nodes, so that a later pass can skip them. A proof
    node is held by the frame that works on it and handed back to the parent's node
    when that frame is popped unfinished. */
module ScanModel {
  import opened KeyPath
  import opened Trie
  import opened Hashing

  /** What a traversal sees of a node: traversalNode. */
  datatype View = View(inner: bool, branches: seq<bool>, hashes: seq<Hash>)

  /** backedWalkItem: a position and what is expected there. The depth is the length
      of the path, the branch its last element. */
  datatype Item = Item(hash: Hash, baseHash: Hash, parentHash: Hash, path: seq<Nibble>)

  /** backedScanProof. */
  datatype Proof = Proof(children: seq<Option<Proof>>, complete: seq<bool>)

  /** backedScanFrame. */
  datatype Frame = Frame(
    item: Item,
    view: View,
    proof: Option<Proof>,
    baseView: View,
    next: nat,
    complete: seq<bool>,
    full: bool,
    stored: bool,
    loaded: bool,
    usedBase: bool)

  /** backedScanLane; `capacity` is the admitted size of the stack. */
  datatype Lane = Lane(
    root: Item,
    proof: Option<Proof>,
    stack: seq<Frame>,
    capacity: nat,
    complete: bool,
    incomplete: bool,
    started: bool,
    durable: bool,
    hint: Option<Hash>)

  datatype MissingNode = MissingNode(hash: Hash, depth: nat, parentHash: Hash, branch: nat, path: seq<Nibble>)

  const NO_BITS: seq<bool> := [false, false, false, false, false, false, false, false,
                               false, false, false, false, false, false, false, false]
  const NO_HASHES: seq<Hash> := [Zero, Zero, Zero, Zero, Zero, Zero, Zero, Zero,
                                 Zero, Zero, Zero, Zero, Zero, Zero, Zero, Zero]
  const NO_PROOFS: seq<Option<Proof>> := [None, None, None, None, None, None, None, None,
                                          None, None, None, None, None, None, None, None]
  const NO_VIEW: View := View(false, NO_BITS, NO_HASHES)

  /** The number of frames a lane's stack is admitted for. */
  const STACK_CAPACITY: nat := 65

  // ------------------------------------------------------- stores and closures

  /** A node held in memory at some position: its hash and the branches it has set.
      Peers may have encoded a set branch with a zero hash. */
  datatype Attached = Attached(hash: Hash, branches: seq<bool>)

  /** Where nodes can come from: the durable store, a store of nodes still on their way
      there, and the nodes attached to the tree, by position. The root is attached at
      the empty path. */
  datatype Env = Env(durable: set<Hash>, staged: set<Hash>, attached: map<seq<Nibble>, Attached>)

  /** The record of the hash, if there is one, decodes. */
  predicate Encodable(h: Hash) {
    h.Digest? && Decodable(h.pre)
  }

  /** The hash names an inner node. */
  predicate IsFan(h: Hash) {
    h.Digest? && h.pre.InnerPre? && |h.pre.kids| == 16
  }

  /** The node and everything it refers to is in the set, in records that decode. */
  ghost predicate Closed(h: Hash, s: set<Hash>)
    decreases h
  {
    h.Zero? || (h in s && Encodable(h) && (IsFan(h) ==> forall i :: 0 <= i < 16 ==> Closed(h.pre.kids[i], s)))
  }

  /** The same of the records alone, whether or not they decode. */
  ghost predicate Filed(h: Hash, s: set<Hash>)
    decreases h
  {
    || h.Zero?
    || (&& h in s && h.Digest?
        && (h.pre.InnerPre? ==> |h.pre.kids| == 16 && forall i :: 0 <= i < 16 ==> Filed(h.pre.kids[i], s)))
  }

  /** A node that is itself there, with everything it refers to. */
  ghost predicate Stored(h: Hash, s: set<Hash>) {
    h.Digest? && Closed(h, s)
  }

  lemma {:induction false} ClosedGrows(h: Hash, s: set<Hash>, s': set<Hash>)
    requires Closed(h, s) && s <= s'
    ensures Closed(h, s')
    decreases h
  {
    if IsFan(h) {
      forall i | 0 <= i < 16
        ensures Closed(h.pre.kids[i], s')
      {
        ClosedGrows(h.pre.kids[i], s, s');
      }
    }
  }

  /** decodeTraversalNode on the record of a hash. */
  function DecodedView(h: Hash): (v: View)
    ensures |v.branches| == |v.hashes| == 16
    ensures IsFan(h) ==> v.inner && v.hashes == h.pre.kids && forall i :: 0 <= i < 16 ==>
      (v.branches[i] <==> h.pre.kids[i] != Zero)
    ensures !IsFan(h) ==> v == NO_VIEW
  {
    if IsFan(h) then View(true, seq(16, i requires 0 <= i < 16 => h.pre.kids[i] != Zero), h.pre.kids) else NO_VIEW
  }

  /** traversalNodeFromNode. */
  function AttachedView(a: Attached): (v: View)
    ensures |a.branches| == 16 ==> |v.branches| == |v.hashes| == 16
  {
    if IsFan(a.hash) then View(true, a.branches, a.hash.pre.kids)
    else if a.hash.Zero? then View(true, NO_BITS, NO_HASHES)
    else NO_VIEW
  }

  /** A record of the hash is there and does not decode: reading it is an error. */
  predicate Spoilt(env: Env, h: Hash) {
    (h in env.durable || h in env.staged) && !Encodable(h)
  }

  /** loadTraversalNode: the durable record, else the staged one, else the attached
      node. */
  function ViewAt(env: Env, path: seq<Nibble>, h: Hash): Option<View> {
    if (h in env.durable || h in env.staged) && Encodable(h) then Some(DecodedView(h))
    else if path in env.attached then Some(AttachedView(env.attached[path]))
    else None
  }

  /** The view shows the children the hash commits to. */
  ghost predicate Shows(v: View, h: Hash) {
    && |v.branches| == |v.hashes| == 16
    && (IsFan(h) ==> v.hashes == h.pre.kids && forall i :: 0 <= i < 16 && h.pre.kids[i] != Zero ==> v.branches[i])
    && (!IsFan(h) ==> forall i :: 0 <= i < 16 ==> !v.branches[i])
    && !h.Foreign? && (h.Digest? ==> Encodable(h))
  }

  /** The hash a path leads to, following the committed children. */
  ghost function HashAt(h: Hash, path: seq<Nibble>): Hash
    decreases |path|
  {
    if path == [] then h
    else
      var up := HashAt(h, path[..|path| - 1]);
      if IsFan(up) then up.pre.kids[path[|path| - 1]] else Zero
  }

  /** A node held in memory is of a kind that has an encoding. An inner node with no
      branch set hashes to zero; another one has a branch set for every child it commits
      to. */
  ghost predicate AttachedOk(a: Attached) {
    && !a.hash.Foreign? && (a.hash.Digest? ==> Encodable(a.hash))
    && |a.branches| == 16
    && (!IsFan(a.hash) ==> forall i :: 0 <= i < 16 ==> !a.branches[i])
    && (IsFan(a.hash) ==>
          && (exists i :: 0 <= i < 16 && a.branches[i])
          && forall i :: 0 <= i < 16 && a.hash.pre.kids[i] != Zero ==> a.branches[i])
  }

  /** What the rest of the map guarantees about the sources: an attached node is the one
      its position calls for. The stores may hold any records. */
  ghost predicate EnvOk(env: Env, root: Hash) {
    && [] in env.attached && (root.Zero? || IsFan(root))
    && (forall p :: p in env.attached ==> env.attached[p].hash == HashAt(root, p) && AttachedOk(env.attached[p]))
  }

  /** Everything at and below a position can be loaded. */
  ghost predicate Present(env: Env, h: Hash, path: seq<Nibble>)
    decreases h
  {
    && ViewAt(env, path, h).Some?
    && (IsFan(h) ==>
          forall b: Nibble :: Shown(ViewAt(env, path, h).value, b) ==> Present(env, h.pre.kids[b], path + [b]))
  }

  ghost predicate Shown(v: View, b: nat) {
    b < |v.branches| && v.branches[b]
  }

  /** The sources as they may be later in the same store generation: the durable store
      has grown, and what could be loaded still can be, with no further branches. */
  ghost predicate Later(env: Env, env': Env, root: Hash) {
    && env.durable <= env'.durable
    && EnvOk(env, root) && EnvOk(env', root)
    && (forall p: seq<Nibble> :: ViewAt(env, p, HashAt(root, p)).Some? ==>
          && ViewAt(env', p, HashAt(root, p)).Some?
          && (forall b: nat :: Shown(ViewAt(env', p, HashAt(root, p)).value, b) ==>
            Shown(ViewAt(env, p, HashAt(root, p)).value, b)))
  }

  lemma {:induction false} HashAtChild(root: Hash, path: seq<Nibble>, b: Nibble)
    requires IsFan(HashAt(root, path))
    ensures HashAt(root, path + [b]) == HashAt(root, path).pre.kids[b]
  {
    assert (path + [b])[..|path|] == path;
  }

  lemma {:induction false} ViewShows(env: Env, root: Hash, path: seq<Nibble>, h: Hash)
    requires EnvOk(env, root) && h == HashAt(root, path) && ViewAt(env, path, h).Some?
    ensures Shows(ViewAt(env, path, h).value, h)
  {
  }

  // ---------------------------------------------------------- steps on a lane

  function NewFrame(item: Item, proof: Option<Proof>): Frame {
    Frame(item, NO_VIEW, proof, NO_VIEW, 0, NO_BITS, false, false, false, false)
  }

  /** A frame whose subtree is skipped as already complete in the durable store. */
  function Skipped(f: Frame, viaBase: bool): Frame {
    f.(full := true, stored := true, loaded := true, usedBase := viaBase)
  }

  function Loaded(f: Frame, view: View, stored: bool, baseView: View): Frame {
    f.(view := view, full := true, stored := stored, loaded := true, baseView := baseView,
       complete := if f.proof.Some? then f.proof.value.complete else f.complete)
  }

  function Missed(f: Frame): Frame {
    f.(full := false, stored := false, loaded := true)
  }

  ghost predicate Shaped(f: Frame) {
    && |f.view.branches| == |f.view.hashes| == |f.baseView.branches| == |f.baseView.hashes| == |f.complete| == 16
    && f.next <= 16
    && (f.proof.Some? ==> ProofShaped(f.proof.value))
  }

  ghost predicate AllShaped(stack: seq<Frame>) {
    forall j :: 0 <= j < |stack| ==> Shaped(stack[j])
  }

  ghost predicate ProofShaped(p: Proof)
    decreases p
  {
    && |p.children| == |p.complete| == 16
    && forall i :: 0 <= i < 16 && p.children[i].Some? ==> ProofShaped(p.children[i].value)
  }

  /** The branch the frame goes to next, 16 when there is none. */
  function NextBranch(f: Frame, b: nat): (r: nat)
    requires |f.view.branches| == |f.complete| == 16 && b <= 16
    ensures b <= r <= 16
    ensures r < 16 ==> f.view.branches[r] && !f.complete[r]
    ensures forall i :: b <= i < r ==> !(f.view.branches[i] && !f.complete[i])
    decreases 16 - b
  {
    if b == 16 then 16
    else if f.view.branches[b] && !f.complete[b] then b
    else NextBranch(f, b + 1)
  }

  function ChildItem(f: Frame, b: nat): Item
    requires b < 16 && |f.view.hashes| == |f.baseView.branches| == |f.baseView.hashes| == 16
  {
    Item(f.view.hashes[b],
         if f.baseView.inner && f.baseView.branches[b] then f.baseView.hashes[b] else Zero,
         f.item.hash,
         f.item.path + [b])
  }

  function ProofChild(p: Option<Proof>, b: nat): Option<Proof>
    requires b < 16 && (p.Some? ==> |p.value.children| == 16)
  {
    if p.Some? then p.value.children[b] else None
  }

  function WithChild(p: Option<Proof>, b: nat, child: Option<Proof>): Option<Proof>
    requires b < 16 && (p.Some? ==> |p.value.children| == 16)
  {
    if p.Some? then Some(p.value.(children := p.value.children[b := child])) else None
  }

  /** The frame after handing branch b to a child frame. */
  function Handed(f: Frame, b: nat): Frame
    requires b < 16 && (f.proof.Some? ==> |f.proof.value.children| == 16)
  {
    f.(next := b + 1, proof := WithChild(f.proof, b, None))
  }

  function ChildFrame(f: Frame, b: nat): Frame
    requires b < 16 && |f.view.hashes| == |f.baseView.branches| == |f.baseView.hashes| == 16
    requires f.proof.Some? ==> |f.proof.value.children| == 16
  {
    NewFrame(ChildItem(f, b), ProofChild(f.proof, b))
  }

  /** The parent's frame after its child frame f on branch b was popped:
      completeBackedScanProof for a full child, and the merged flags. */
  function Absorb(p: Frame, f: Frame, b: nat): Frame
    requires b < 16 && |p.complete| == 16 && (p.proof.Some? ==> |p.proof.value.children| == 16)
  {
    var complete := if f.full && f.stored && !f.usedBase then p.complete[b := true] else p.complete;
    var proof := if p.proof.None? then None
                 else if f.full then Some(p.proof.value.(complete := complete))
                 else WithChild(p.proof, b, f.proof);
    p.(complete := complete, proof := proof,
       full := p.full && f.full, stored := p.stored && f.stored, usedBase := p.usedBase || f.usedBase)
  }

  /** finishBackedScanFrame. */
  function Finish(l: Lane): Lane
    requires l.stack != []
    requires |l.stack| > 1 ==>
      var p := l.stack[|l.stack| - 2];
      1 <= p.next <= 16 && |p.complete| == 16 && (p.proof.Some? ==> |p.proof.value.children| == 16)
  {
    var n := |l.stack|;
    var f := l.stack[n - 1];
    if n == 1 then
      l.(stack := [], capacity := 0, proof := if f.full then None else f.proof,
         durable := l.durable && f.full && f.stored)
    else
      l.(stack := l.stack[..n - 2] + [Absorb(l.stack[n - 2], f, l.stack[n - 2].next - 1)])
  }

  /** The completeness mark finishBackedScanFrame publishes, if any. */
  function FinishMark(f: Frame): Option<Hash> {
    if f.full && f.stored && !f.usedBase && f.view.inner then Some(f.item.hash) else None
  }

  function SetTop(l: Lane, f: Frame): Lane
    requires l.stack != []
  {
    l.(stack := l.stack[..|l.stack| - 1] + [f])
  }

  function Top(l: Lane): Frame
    requires l.stack != []
  {
    l.stack[|l.stack| - 1]
  }

  /** Descend into branch b of the top frame. */
  function Push(l: Lane, b: nat): Lane
    requires l.stack != [] && b < 16 && Shaped(Top(l))
  {
    l.(stack := l.stack[..|l.stack| - 1] + [Handed(Top(l), b), ChildFrame(Top(l), b)])
  }

  /** One turn of retainBackedScanProofs: the frame at i gets a proof node. */
  function Retain(l: Lane, i: nat): Lane
    requires i < |l.stack|
  {
    l.(stack := l.stack[i := l.stack[i].(proof := Some(Proof(NO_PROOFS, l.stack[i].complete)))])
  }

  /** The lane's root frame; the lane's proof goes to it. */
  function Start(l: Lane): Lane {
    l.(stack := [NewFrame(l.root, l.proof)], proof := None, capacity := STACK_CAPACITY, started := true)
  }

  /** startBackedScanPass for one lane. */
  function Restart(l: Lane): Lane {
    if l.complete then l
    else l.(stack := [], incomplete := false, started := false, durable := true, hint := None,
            complete := l.root.hash.Zero?)
  }

  /** The end of scanBackedLane. */
  function Settle(l: Lane): Lane {
    var complete := !l.incomplete;
    l.(complete := complete,
       hint := if complete && !l.durable && !l.root.hash.Zero? then Some(l.root.hash) else l.hint)
  }

  function BranchOf(path: seq<Nibble>): nat {
    if path == [] then 0 else path[|path| - 1]
  }

  function Missing(i: Item): MissingNode {
    MissingNode(i.hash, |i.path|, i.parentHash, BranchOf(i.path), i.path)
  }
}
