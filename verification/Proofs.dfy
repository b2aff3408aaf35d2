/** Merkle proofs, shamap/proof.go: building the leaf-to-root list of serialized
    nodes for a key, and checking such a list against a root hash. */
module Proofs {
  import opened KeyPath
  import opened Trie
  import opened Mutation
  import opened Hashing
  import opened WireFormat

  // ------------------------------------------------------------------ verify

  datatype Verdict = Refuse | Accept(data: Data) | Follow(hash: Hash)

  /** What verifyProofPath makes of one node at a depth, given the hash it must have. */
  function Judge(node: Option<Node>, expected: Hash, depth: nat, last: bool, key: Key): Verdict
    requires node.Some? && node.value.InnerNode? ==> |node.value.hashes| == |node.value.bits| == 16
  {
    if node.None? || NodeHash(node.value) != expected then Refuse
    else if node.value.InnerNode? then
      if depth >= 64 || node.value.hashes[key[depth]] == Zero then Refuse
      else Follow(node.value.hashes[key[depth]])
    else if !last || node.value.key != key then Refuse
    else Accept(node.value.data)
  }

  /** The answer once the blobs from position n upward have been accepted and the next
      one must hash to `expected`. */
  function Accepted(path: seq<Blob>, n: nat, expected: Hash, key: Key, txKey: Data -> Key): Option<Data>
    requires n <= |path| <= 65
    decreases n
  {
    if n == 0 then None
    else
      match Judge(Deserialized(path[n - 1], txKey), expected, |path| - n, n == 1, key)
      case Refuse => None
      case Accept(data) => Some(data)
      case Follow(hash) => Accepted(path, n - 1, hash, key, txKey)
  }

  function Verified(rootHash: Hash, key: Key, path: seq<Blob>, txKey: Data -> Key): Option<Data> {
    if |path| == 0 || |path| > 65 then None else Accepted(path, |path|, rootHash, key, txKey)
  }

  /** verifyProofPath: from the root blob down, each node must hash to what its
      parent promised for the key's branch. */
  method VerifyProofPath(rootHash: Hash, key: Key, path: seq<Blob>, txKey: Data -> Key) returns (r: Option<Data>)
    ensures r == Verified(rootHash, key, path, txKey)
  {
    if |path| == 0 || |path| > 65 {
      return None;
    }
    var currentHash := rootHash;
    var i := |path|;
    while i > 0
      invariant 0 <= i <= |path|
      invariant Verified(rootHash, key, path, txKey) == Accepted(path, i, currentHash, key, txKey)
    {
      var node := Deserialize(path[i - 1], txKey);
      match Judge(node, currentHash, |path| - i, i == 1, key)
      case Refuse => return None;
      case Accept(data) => return Some(data);
      case Follow(hash) =>
        currentHash := hash;
        i := i - 1;
    }
    r := None;
  }

  /** The tree stores transactions under their own identifiers. */
  ghost predicate KeysBound(t: Tree, txKey: Data -> Key)
    decreases t
  {
    match t
    case Empty => true
    case Leaf(k, v) => k == txKey(v)
    case Inner(kids) => forall i :: 0 <= i < |kids| ==> KeysBound(kids[i], txKey)
  }

  /** No leaf is held where its transaction's identifier leads but under another key. */
  ghost predicate NoImpostor(t: Tree, txKey: Data -> Key, path: seq<Nibble>)
    decreases t
  {
    match t
    case Empty => true
    case Leaf(k, v) => |v| >= 12 && path <= txKey(v) ==> k == txKey(v)
    case Inner(kids) => forall i :: 0 <= i < |kids| && i < 16 ==> NoImpostor(kids[i], txKey, path + [i])
  }

  lemma {:induction false} KeysBoundNoImpostor(t: Tree, txKey: Data -> Key, path: seq<Nibble>)
    requires KeysBound(t, txKey)
    ensures NoImpostor(t, txKey, path)
    decreases t
  {
    if t.Inner? {
      forall i: Nibble | i < |t.kids|
        ensures NoImpostor(t.kids[i], txKey, path + [i])
      {
        KeysBoundNoImpostor(t.kids[i], txKey, path + [i]);
      }
    }
  }

  /** A parsed inner node that hashes like the top of a tree has its child hashes,
      however oddly it was encoded. */
  lemma {:induction false} SameHashSameKids(kind: LeafKind, t: Tree, node: Node, i: Nibble)
    requires node.InnerNode? && |node.hashes| == |node.bits| == 16
    requires forall j :: 0 <= j < 16 && !node.bits[j] ==> node.hashes[j] == Zero
    requires NodeHash(node) == HashOf(kind, t) && node.hashes[i] != Zero
    ensures t.Inner? && |t.kids| == 16 && HashOf(kind, t.kids[i]) == node.hashes[i]
  {
    assert node.bits[i];
    assert HashOf(kind, t) == Digest(InnerPre(Masked(node)));
    assert HashKids(kind, t) == Masked(node);
    assert HashKids(kind, t)[i] == Masked(node)[i];
  }

  lemma {:induction false} AcceptedIsSound(kind: LeafKind, t: Tree, key: Key, path: seq<Blob>, n: nat,
                                           txKey: Data -> Key)
    requires n <= |path| <= 65
    requires |path| - n <= 64 && (KeyOnWire(kind) || NoImpostor(t, txKey, key[..|path| - n]))
    requires Accepted(path, n, HashOf(kind, t), key, txKey).Some?
    ensures Lookup(t, key, |path| - n) == Accepted(path, n, HashOf(kind, t), key, txKey)
    decreases n
  {
    hide HashOf, NodeHash, Deserialized;
    var node := Deserialized(path[n - 1], txKey).value;
    var depth := |path| - n;
    if node.InnerNode? {
      SameHashSameKids(kind, t, node, key[depth]);
      assert key[..depth] + [key[depth]] == key[..depth + 1];
      AcceptedIsSound(kind, t.kids[key[depth]], key, path, n - 1, txKey);
    } else {
      SameHashSameLeaf(kind, t, path[n - 1], txKey);
    }
  }

  lemma {:induction false} SameHashSameLeaf(kind: LeafKind, t: Tree, b: Blob, txKey: Data -> Key)
    requires Deserialized(b, txKey).Some? && Deserialized(b, txKey).value.LeafNode?
    requires NodeHash(Deserialized(b, txKey).value) == HashOf(kind, t)
    ensures var node := Deserialized(b, txKey).value;
      t.Leaf? && t.data == node.data
        && (if KeyOnWire(kind) then t.key == node.key else node.key == txKey(node.data) && |node.data| >= 12)
  {
    var node := Deserialized(b, txKey).value;
    assert HashOf(kind, t) == LeafHash(node.kind, node.key, node.data);
    assert t.Leaf? && node.kind == kind && t.data == node.data;
  }

  /** Soundness: whatever blobs a peer sends, in whatever encoding, an accepted path
      proves that the map with this root hash holds the key with the returned data. */
  lemma {:induction false} ProofIsSound(kind: LeafKind, t: Tree, key: Key, path: seq<Blob>, txKey: Data -> Key)
    requires CanonicalRoot(t) && (KeyOnWire(kind) || NoImpostor(t, txKey, []))
    requires Verified(HashOf(kind, t), key, path, txKey).Some?
    ensures key in Content(t, 0) && Content(t, 0)[key] == Verified(HashOf(kind, t), key, path, txKey).value
  {
    assert key[..0] == [];
    AcceptedIsSound(kind, t, key, path, |path|, txKey);
    CanonicalPlaced(t, []);
    ContentIsLookup(t, [], key);
  }

  // ------------------------------------------------------------------- build

  /** The nodes on the key's path, leaf first, as GetProofPathContext lists them. */
  ghost function ProofOf(kind: LeafKind, t: Tree, key: Key, d: nat): seq<Blob>
    requires d <= 64 && Canonical(t, key[..d]) && t != Empty
    decreases t
  {
    if t.Leaf? then [Wire(kind, t)]
    else
      KidCanonical(t, key, d);
      if t.kids[key[d]] == Empty then [Wire(kind, t)]
      else ProofOf(kind, t.kids[key[d]], key, d + 1) + [Wire(kind, t)]
  }

  lemma {:induction false} KidCanonical(t: Tree, key: Key, d: nat)
    requires d <= 64 && t.Inner? && Canonical(t, key[..d])
    ensures d < 64 && Canonical(t.kids[key[d]], key[..d + 1])
  {
    assert key[..d] + [key[d]] == key[..d + 1];
  }

  lemma {:induction false} ProofLength(kind: LeafKind, t: Tree, key: Key, d: nat)
    requires d <= 64 && Canonical(t, key[..d]) && t != Empty
    ensures 1 <= |ProofOf(kind, t, key, d)| <= 65 - d
    decreases t
  {
    if t.Inner? {
      KidCanonical(t, key, d);
      if t.kids[key[d]] != Empty {
        ProofLength(kind, t.kids[key[d]], key, d + 1);
      }
    }
  }

  /** The walk of GetProofPathContext, keeping every node it passes. */
  method WalkTo(t: Tree, key: Key) returns (stack: seq<Tree>)
    requires CanonicalRoot(t)
    ensures stack == [] ==> Lookup(t, key, 0).None?
    ensures stack != [] ==> Visited(stack, key) && stack[0] == t
    ensures stack != [] ==> Lookup(t, key, 0) == Lookup(stack[|stack| - 1], key, |stack| - 1)
  {
    assert key[..0] == [];
    stack := [t];
    while stack[|stack| - 1].Inner?
      invariant Trail(stack, key) && stack[0] == t
      invariant Lookup(t, key, 0) == Lookup(stack[|stack| - 1], key, |stack| - 1)
      decreases stack[|stack| - 1]
    {
      var d := |stack| - 1;
      TrailGrows(stack, key);
      var kid := stack[d].kids[key[d]];
      if kid == Empty {
        return [];
      }
      stack := stack + [kid];
    }
    TrailEnd(stack, key);
  }

  ghost predicate Trail(stack: seq<Tree>, key: Key) {
    && 1 <= |stack| <= 65
    && (forall j :: 0 <= j < |stack| ==> stack[j] != Empty && Canonical(stack[j], key[..j]))
    && (forall j :: 0 <= j < |stack| - 1 ==> stack[j].Inner? && stack[j + 1] == stack[j].kids[key[j]])
  }

  lemma {:induction false} TrailGrows(stack: seq<Tree>, key: Key)
    requires Trail(stack, key) && stack[|stack| - 1].Inner?
    ensures |stack| <= 64 && |stack[|stack| - 1].kids| == 16
    ensures stack[|stack| - 1].kids[key[|stack| - 1]] != Empty ==>
              Trail(stack + [stack[|stack| - 1].kids[key[|stack| - 1]]], key)
  {
    TrailEnd(stack, key);
    KidCanonical(stack[|stack| - 1], key, |stack| - 1);
  }

  lemma {:induction false} TrailEnd(stack: seq<Tree>, key: Key)
    requires Trail(stack, key)
    ensures stack[|stack| - 1] != Empty && Canonical(stack[|stack| - 1], key[..|stack| - 1])
  {
  }

  /** The proof path of a key, leaf first. */
  ghost function RootProof(kind: LeafKind, t: Tree, key: Key): seq<Blob>
    requires CanonicalRoot(t)
  {
    assert key[..0] == [];
    ProofOf(kind, t, key, 0)
  }

  /** GetProofPathContext: walk to the key, then serialize the visited nodes from the
      leaf back to the root. */
  method GetProofPath(kind: LeafKind, t: Tree, key: Key) returns (found: bool, path: seq<Blob>)
    requires CanonicalRoot(t)
    ensures found <==> key in Content(t, 0)
    ensures found ==> path == RootProof(kind, t, key)
    ensures !found ==> path == []
  {
    CanonicalPlaced(t, []);
    ContentIsLookup(t, [], key);
    var stack := WalkTo(t, key);
    if stack == [] || stack[|stack| - 1].key != key {
      return false, [];
    }
    path := SerializeStack(kind, stack, key);
    found := true;
  }

  /** The visited nodes, root first. */
  ghost predicate Visited(stack: seq<Tree>, key: Key) {
    Trail(stack, key) && stack[|stack| - 1].Leaf?
  }

  method SerializeStack(kind: LeafKind, stack: seq<Tree>, key: Key) returns (path: seq<Blob>)
    requires Visited(stack, key)
    ensures path == ProofOf(kind, stack[0], key, 0)
  {
    assert Canonical(stack[|stack| - 1], key[..|stack| - 1]);
    path := [LeafBlob(kind, stack[|stack| - 1].key, stack[|stack| - 1].data)];
    var i := |stack| - 1;
    assert path == ProofOf(kind, stack[i], key, i);
    hide Canonical, ProofOf, Wire;
    while i > 0
      invariant 0 <= i < |stack| && Canonical(stack[i], key[..i])
      invariant path == ProofOf(kind, stack[i], key, i)
    {
      i := i - 1;
      var blob := SerializeAt(kind, stack, key, i);
      ProofGrows(kind, stack[i], key, i);
      path := path + [blob];
    }
  }

  lemma {:induction false} ProofGrows(kind: LeafKind, t: Tree, key: Key, d: nat)
    requires d < 64 && t.Inner? && Canonical(t, key[..d]) && t.kids[key[d]] != Empty
    ensures Canonical(t.kids[key[d]], key[..d + 1])
    ensures ProofOf(kind, t, key, d) == ProofOf(kind, t.kids[key[d]], key, d + 1) + [Wire(kind, t)]
  {
    KidCanonical(t, key, d);
  }

  method SerializeAt(kind: LeafKind, stack: seq<Tree>, key: Key, i: nat) returns (blob: Blob)
    requires Visited(stack, key) && i < |stack| - 1
    ensures Canonical(stack[i], key[..i]) && stack[i].Inner? && stack[i + 1] == stack[i].kids[key[i]] != Empty
    ensures blob == Wire(kind, stack[i])
  {
    var t := stack[i];
    assert Canonical(t, key[..i]) && stack[i + 1] != Empty;
    TreeIsTidy(kind, t, key[..i]);
    var hashes := HashKids(kind, t);
    var bits := seq(16, j requires 0 <= j < 16 => t.kids[j] != Empty);
    assert bits == Bits(t);
    SetBitCounts(bits, |bits|, key[i]);
    var r := SerializeInner(hashes, bits);
    blob := r.value;
  }

  lemma {:induction false} SetBitCounts(bits: seq<bool>, n: nat, i: nat)
    requires i < n <= |bits| && bits[i]
    ensures Count(bits, n) >= 1
    decreases n
  {
    if i < n - 1 {
      SetBitCounts(bits, n - 1, i);
    }
  }

  // ------------------------------------------------------------ completeness

  /** The blobs of one proof above the leaf are accepted one after the other. */
  lemma {:induction false} AcceptedDescends(kind: LeafKind, t: Tree, key: Key, d: nat, path: seq<Blob>, n: nat,
                                            txKey: Data -> Key, h: Hash)
    requires h == HashOf(kind, t) && d < 64 && t.Inner? && Canonical(t, key[..d]) && t.kids[key[d]] != Empty
    requires 1 <= n <= |path| <= 65 && |path| - n == d && path[n - 1] == Wire(kind, t)
    ensures Accepted(path, n, h, key, txKey) == Accepted(path, n - 1, HashOf(kind, t.kids[key[d]]), key, txKey)
  {
    TreeIsTidy(kind, t, key[..d]);
    InnerRoundTrip(HashKids(kind, t), Bits(t), txKey);
    KidCanonical(t, key, d);
    ZeroMeansEmpty(kind, t.kids[key[d]], key[..d + 1]);
  }

  /** Where the walk along a key ends. */
  ghost function Reached(t: Tree, key: Key, d: nat): Tree
    decreases t
  {
    if t.Inner? && d < 64 && |t.kids| == 16 then Reached(t.kids[key[d]], key, d + 1) else t
  }

  lemma {:induction false} LookupReached(t: Tree, key: Key, d: nat)
    ensures var l := Reached(t, key, d);
      Lookup(t, key, d) == if l.Leaf? && l.key == key then Some(l.data) else None
    decreases t
  {
    if t.Inner? && d < 64 && |t.kids| == 16 {
      LookupReached(t.kids[key[d]], key, d + 1);
    }
  }

  /** What a leaf says about a key once it has been sent. A leaf sent without its key
      speaks for its transaction's identifier. */
  function LeafSays(kind: LeafKind, leafKey: Key, data: Data, key: Key, txKey: Data -> Key): Option<Data> {
    if ReadsBack(kind, key, data, txKey) && (KeyOnWire(kind) ==> leafKey == key) then Some(data) else None
  }

  lemma {:induction false} LeafAccepted(kind: LeafKind, leafKey: Key, data: Data, key: Key, path: seq<Blob>, n: nat,
                                        txKey: Data -> Key, h: Hash)
    requires 1 == n <= |path| <= 65 && path[n - 1] == LeafBlob(kind, leafKey, data)
      && h == LeafHash(kind, leafKey, data)
    ensures Accepted(path, n, h, key, txKey) == LeafSays(kind, leafKey, data, key, txKey)
  {
    var sent := if KeyOnWire(kind) then leafKey else txKey(data);
    assert LeafBlob(kind, leafKey, data) == LeafBlob(kind, sent, data);
    hide LeafBlob, ParseLeaf, Entries, Deserialized;
    LeafRoundTrip(kind, sent, data, txKey);
    hide IsZeroKey, Pack;
  }

  /** The first n blobs are the nodes from this one down to the leaf the key leads to. */
  ghost predicate IsProof(kind: LeafKind, t: Tree, key: Key, d: nat, path: seq<Blob>, n: nat)
    requires n <= |path|
    decreases t
  {
    && 1 <= n && d <= 64 && t != Empty && (t.Inner? ==> |t.kids| == 16)
    && path[n - 1] == Wire(kind, t)
    && (t.Leaf? ==> n == 1)
    && (t.Inner? ==> d < 64 && t.kids[key[d]] != Empty && IsProof(kind, t.kids[key[d]], key, d + 1, path, n - 1))
  }

  lemma {:induction false} ProofOfIsProof(kind: LeafKind, t: Tree, key: Key, d: nat, path: seq<Blob>, n: nat)
    requires d <= 64 && t != Empty && Canonical(t, key[..d]) && Reached(t, key, d).Leaf?
    requires 1 <= n <= |path| && path[..n] == ProofOf(kind, t, key, d)
    ensures IsProof(kind, t, key, d, path, n)
    decreases t
  {
    ProofTail(kind, t, key, d, path, n);
    if t.Inner? {
      KidIsProof(kind, t, t.kids[key[d]], key, d, path, n);
    }
  }

  lemma {:induction false} KidIsProof(kind: LeafKind, t: Tree, kid: Tree, key: Key, d: nat, path: seq<Blob>, n: nat)
    requires d < 64 && t.Inner? && |t.kids| == 16 && kid == t.kids[key[d]] && kid != Empty
    requires Canonical(kid, key[..d + 1]) && Reached(t, key, d).Leaf?
    requires 2 <= n <= |path| && path[..n - 1] == ProofOf(kind, kid, key, d + 1)
    ensures IsProof(kind, kid, key, d + 1, path, n - 1)
    decreases t, 0
  {
    ProofOfIsProof(kind, kid, key, d + 1, path, n - 1);
  }

  /** What a reader makes of the leaf decides what it makes of the whole path. */
  lemma {:induction false} ProofAccepted(kind: LeafKind, t: Tree, key: Key, d: nat, path: seq<Blob>, n: nat,
                                         txKey: Data -> Key, leaf: Tree, out: Option<Data>)
    requires n <= |path| <= 65 && |path| - n == d && IsProof(kind, t, key, d, path, n)
    requires Canonical(t, key[..d]) && Reached(t, key, d) == leaf && leaf.Leaf?
      && out == LeafSays(kind, leaf.key, leaf.data, key, txKey)
    ensures Accepted(path, n, HashOf(kind, t), key, txKey) == out
    decreases t
  {
    hide Canonical, Accepted, HashOf, Wire, LeafSays;
    if t.Inner? {
      KidCanonical(t, key, d);
      ProofAccepted(kind, t.kids[key[d]], key, d + 1, path, n - 1, txKey, leaf, out);
      AcceptedAbove(kind, t, t.kids[key[d]], key, d, path, n, txKey, out);
    } else {
      EndAccepted(kind, t, key, d, path, n, txKey);
    }
  }

  lemma {:induction false} EndAccepted(kind: LeafKind, t: Tree, key: Key, d: nat, path: seq<Blob>, n: nat,
                                       txKey: Data -> Key)
    requires n <= |path| <= 65 && t.Leaf? && IsProof(kind, t, key, d, path, n)
    ensures Accepted(path, n, HashOf(kind, t), key, txKey) == LeafSays(kind, t.key, t.data, key, txKey)
  {
    hide Accepted, LeafSays, LeafBlob, LeafHash;
    LeafAccepted(kind, t.key, t.data, key, path, n, txKey, HashOf(kind, t));
  }

  lemma {:induction false} AcceptedAbove(kind: LeafKind, t: Tree, kid: Tree, key: Key, d: nat, path: seq<Blob>,
                                         n: nat, txKey: Data -> Key, out: Option<Data>)
    requires d < 64 && t.Inner? && Canonical(t, key[..d]) && kid == t.kids[key[d]] && kid != Empty
    requires 1 <= n <= |path| <= 65 && |path| - n == d && path[n - 1] == Wire(kind, t)
    requires Accepted(path, n - 1, HashOf(kind, kid), key, txKey) == out
    ensures Accepted(path, n, HashOf(kind, t), key, txKey) == out
  {
    AcceptedDescends(kind, t, key, d, path, n, txKey, HashOf(kind, t));
  }

  lemma {:induction false} ProofTail(kind: LeafKind, t: Tree, key: Key, d: nat, path: seq<Blob>, n: nat)
    requires d <= 64 && t != Empty && Canonical(t, key[..d]) && Reached(t, key, d).Leaf?
    requires 1 <= n <= |path| && path[..n] == ProofOf(kind, t, key, d)
    ensures path[n - 1] == Wire(kind, t)
    ensures t.Leaf? ==> n == 1
    ensures t.Inner? ==> d < 64 && |t.kids| == 16 && t.kids[key[d]] != Empty && Canonical(t.kids[key[d]], key[..d + 1])
    ensures t.Inner? ==> n >= 2 && path[..n - 1] == ProofOf(kind, t.kids[key[d]], key, d + 1)
  {
    hide Canonical, HashOf, Wire;
    assert path[n - 1] == path[..n][n - 1];
    if t.Inner? {
      KidCanonical(t, key, d);
      ProofLength(kind, t.kids[key[d]], key, d + 1);
      assert path[..n - 1] == path[..n][..n - 1];
    }
  }

  /** The path built along a key verifies as the leaf it ends in says. */
  lemma {:induction false} PathSays(kind: LeafKind, t: Tree, key: Key, txKey: Data -> Key)
    requires CanonicalRoot(t) && Reached(t, key, 0).Leaf?
    ensures var l := Reached(t, key, 0);
      Verified(HashOf(kind, t), key, RootProof(kind, t, key), txKey) == LeafSays(kind, l.key, l.data, key, txKey)
  {
    var path, l := ProofOf(kind, t, key, 0), Reached(t, key, 0);
    ProofLength(kind, t, key, 0);
    assert path[..|path|] == path;
    ProofOfIsProof(kind, t, key, 0, path, |path|);
    ProofAccepted(kind, t, key, 0, path, |path|, txKey, l, LeafSays(kind, l.key, l.data, key, txKey));
  }

  /** Completeness, exactly: the path built for a present key verifies against the
      root hash and yields the stored data if and only if its leaf can be read back.
      For a state map that is every key but zero; for a transaction map without
      metadata, every item stored under its identifier. */
  lemma {:induction false} ProofIsComplete(kind: LeafKind, t: Tree, key: Key, txKey: Data -> Key)
    requires CanonicalRoot(t) && key in Content(t, 0)
    ensures Verified(HashOf(kind, t), key, RootProof(kind, t, key), txKey) ==
              if ReadsBack(kind, key, Content(t, 0)[key], txKey) then Some(Content(t, 0)[key]) else None
  {
    CanonicalPlaced(t, []);
    ContentIsLookup(t, [], key);
    LookupReached(t, key, 0);
    PathSays(kind, t, key, txKey);
  }

  /** Every accepted path proves what the map holds. */
  ghost predicate Trustworthy(t: Tree, txKey: Data -> Key) {
    forall key: Key, path: seq<Blob> :: Verified(HashOf(Transaction, t), key, path, txKey).Some? ==>
      Lookup(t, key, 0) == Verified(HashOf(Transaction, t), key, path, txKey)
  }

  /** A leaf held under another key where its transaction's identifier leads. */
  lemma {:induction false} Impostor(t: Tree, txKey: Data -> Key, path: seq<Nibble>) returns (key: Key)
    requires Canonical(t, path) && !NoImpostor(t, txKey, path)
    ensures path <= key && |path| <= 64
    ensures var l := Reached(t, key, |path|); l.Leaf? && l.key != key && key == txKey(l.data) && |l.data| >= 12
    decreases t
  {
    if t.Leaf? {
      key := txKey(t.data);
    } else {
      var i :| 0 <= i < 16 && !NoImpostor(t.kids[i], txKey, path + [i]);
      key := Impostor(t.kids[i], txKey, path + [i]);
      assert key[|path|] == (path + [i])[|path|];
      assert path <= path + [i];
    }
  }

  /** Leaves sent without their key: every accepted path is sound if and only if no leaf
      is held where its transaction's identifier leads but under another key. */
  lemma {:induction false} KeylessProofExactly(t: Tree, txKey: Data -> Key)
    requires CanonicalRoot(t)
    ensures Trustworthy(t, txKey) <==> NoImpostor(t, txKey, [])
  {
    if NoImpostor(t, txKey, []) {
      forall key: Key, path | Verified(HashOf(Transaction, t), key, path, txKey).Some?
        ensures Lookup(t, key, 0) == Verified(HashOf(Transaction, t), key, path, txKey)
      {
        assert key[..0] == [];
        AcceptedIsSound(Transaction, t, key, path, |path|, txKey);
      }
    } else {
      var key := Impostor(t, txKey, []);
      PathSays(Transaction, t, key, txKey);
      LookupReached(t, key, 0);
    }
  }

  /** The zero state key: present in the map, yet its own proof is refused. */
  lemma {:induction false} ZeroKeyHasNoProof(zero: Key, data: Data, txKey: Data -> Key)
    requires IsZeroKey(Pack(zero))
    ensures CanonicalRoot(Insert(Inner(NO_KIDS), zero, data, 0))
    ensures zero in Content(Insert(Inner(NO_KIDS), zero, data, 0), 0)
    ensures Verified(HashOf(AccountState, Insert(Inner(NO_KIDS), zero, data, 0)), zero,
                     RootProof(AccountState, Insert(Inner(NO_KIDS), zero, data, 0), zero), txKey).None?
  {
    EmptyMapIsCanonical();
    PutRefines(Inner(NO_KIDS), zero, data);
    ProofIsComplete(AccountState, Insert(Inner(NO_KIDS), zero, data, 0), zero, txKey);
  }

  /** An impostor: a map that holds a transaction under another key with the same first
      branch, and an accepted path for the identifier, which it does not hold. */
  lemma {:induction false} ImpostorAccepted(k: Key, v: Data, txKey: Data -> Key)
    requires k[0] == txKey(v)[0] && k != txKey(v) && |v| >= 12
    ensures CanonicalRoot(OneItem(k, v)) && Lookup(OneItem(k, v), txKey(v), 0).None?
    ensures Verified(HashOf(Transaction, OneItem(k, v)), txKey(v), RootProof(Transaction, OneItem(k, v), txKey(v)),
      txKey) == Some(v)
  {
    var t, id := OneItem(k, v), txKey(v);
    OneItemMap(k, v);
    assert t.kids[id[0]] == Leaf(k, v) && Reached(t, id, 0) == Leaf(k, v);
    LookupReached(t, id, 0);
    hide CanonicalRoot, HashOf, Verified;
    PathSays(Transaction, t, id, txKey);
  }
}
