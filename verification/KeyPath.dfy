/** Keys and positions: the nibble arithmetic of shamap/keypath.go and the
    packed node identifiers of shamap/node_id.go.

    The source keeps a key as 32 bytes and reads it one 4-bit branch at a time.
    Everything above this module works on the unpacked form, a sequence of 64
    nibbles; the lemmas here show that the packed operations are the plain
    sequence operations on that form. */
module KeyPath {
  type Byte = b: int | 0 <= b < 256
  type Nibble = n: int | 0 <= n < 16

  /** A key as the source stores it. */
  type RawKey = s: seq<Byte> | |s| == 32 witness seq(32, _ => 0)

  /** A key as a path of 64 branches. */
  type Key = s: seq<Nibble> | |s| == 64 witness seq(64, _ => 0)

  /** A position in the tree: the branches followed from the root. */
  type Path = s: seq<Nibble> | |s| <= 64

  function Unpack(k: RawKey): (r: Key)
    ensures forall d :: 0 <= d < 64 ==> r[d] == if d % 2 == 0 then k[d / 2] / 16 else k[d / 2] % 16
  {
    seq(64, d requires 0 <= d < 64 => if d % 2 == 0 then k[d / 2] / 16 else k[d / 2] % 16)
  }

  function Join(hi: int, lo: int): int {
    16 * hi + lo
  }

  function Pack(k: Key): (r: RawKey)
    ensures forall i :: 0 <= i < 32 ==> r[i] == Join(k[2 * i], k[2 * i + 1])
  {
    seq(32, i requires 0 <= i < 32 => Join(k[2 * i], k[2 * i + 1]))
  }

  /** Unpacking and packing are inverse, so nothing is lost by working on nibbles. */
  lemma PackUnpack(raw: RawKey, k: Key)
    ensures Pack(Unpack(raw)) == raw
    ensures Unpack(Pack(k)) == k
  {
    forall i | 0 <= i < 32
      ensures Pack(Unpack(raw))[i] == raw[i]
    {
      assert (2 * i) % 2 == 0 && (2 * i) / 2 == i && (2 * i + 1) % 2 == 1 && (2 * i + 1) / 2 == i;
    }
    forall d | 0 <= d < 64
      ensures Unpack(Pack(k))[d] == k[d]
    {
      var i := d / 2;
      assert Pack(k)[i] == Join(k[2 * i], k[2 * i + 1]);
      assert d == 2 * i || d == 2 * i + 1;
    }
  }

  // ---------------------------------------------------------------- keypath.go

  /** isZeroHash on a key. */
  predicate IsZeroKey(k: RawKey) {
    forall i :: 0 <= i < 32 ==> k[i] == 0
  }

  /** getBranchAtDepth: out-of-range depths yield branch 0. */
  function BranchAtDepth(key: RawKey, depth: nat): (r: Nibble)
    ensures r == if depth < 64 then Unpack(key)[depth] else 0
  {
    if depth >= 64 then 0
    else if depth % 2 == 0 then key[depth / 2] / 16
    else key[depth / 2] % 16
  }

  /** findSplitDepth. Its answer is the first depth at or below the start where
      the keys part; the fallback is only reached by keys that agree from there on. */
  method FindSplitDepth(key1: RawKey, key2: RawKey, startDepth: nat) returns (depth: nat)
    ensures depth < 64
    ensures forall d :: startDepth <= d < depth ==> Unpack(key1)[d] == Unpack(key2)[d]
    ensures Unpack(key1)[depth] == Unpack(key2)[depth] || depth < startDepth ==>
              forall d :: startDepth <= d < 64 ==> Unpack(key1)[d] == Unpack(key2)[d]
  {
    depth := startDepth;
    while depth < 64
      invariant startDepth <= depth
      invariant forall d :: startDepth <= d < depth && d < 64 ==> Unpack(key1)[d] == Unpack(key2)[d]
    {
      if BranchAtDepth(key1, depth) != BranchAtDepth(key2, depth) {
        return;
      }
      depth := depth + 1;
    }
    depth := 63;
  }

  /** Two different keys that agree above the start really do part: the split
      depth found is a depth where both leaves get a branch of their own. */
  lemma SplitDepthParts(key1: RawKey, key2: RawKey, start: nat, depth: nat)
    requires key1 != key2 && start <= 64
    requires Unpack(key1)[..start] == Unpack(key2)[..start]
    requires depth < 64
    requires forall d :: start <= d < depth ==> Unpack(key1)[d] == Unpack(key2)[d]
    requires Unpack(key1)[depth] == Unpack(key2)[depth] || depth < start ==>
               forall d :: start <= d < 64 ==> Unpack(key1)[d] == Unpack(key2)[d]
    ensures start <= depth && Unpack(key1)[depth] != Unpack(key2)[depth]
  {
    if Unpack(key1)[depth] == Unpack(key2)[depth] || depth < start {
      forall d | 0 <= d < 64
        ensures Unpack(key1)[d] == Unpack(key2)[d]
      {
        if d < start {
          assert Unpack(key1)[..start][d] == Unpack(key2)[..start][d];
        }
      }
      assert Unpack(key1) == Unpack(key2);
      PackUnpack(key1, Unpack(key1));
      PackUnpack(key2, Unpack(key2));
      assert false;
    }
  }

  /** childPathForBranch: writing one nibble into the packed path. */
  function ChildPathForBranch(parentPath: RawKey, depth: nat, branch: Nibble): (r: RawKey)
    requires depth < 64
    ensures Unpack(r) == Unpack(parentPath)[depth := branch]
  {
    var i := depth / 2;
    var prior := parentPath[i];
    var byte: Byte := if depth % 2 == 0 then prior % 16 + 16 * branch else 16 * (prior / 16) + branch;
    NibbleWritten(parentPath, depth, branch, byte);
    parentPath[i := byte]
  }

  lemma {:induction false} NibbleWritten(path: RawKey, depth: nat, branch: Nibble, byte: Byte)
    requires depth < 64
    requires if depth % 2 == 0 then byte == path[depth / 2] % 16 + 16 * branch
      else byte == 16 * (path[depth / 2] / 16) + branch
    ensures Unpack(path[depth / 2 := byte]) == Unpack(path)[depth := branch]
  {
    var r: RawKey := path[depth / 2 := byte];
    forall d | 0 <= d < 64
      ensures Unpack(r)[d] == Unpack(path)[depth := branch][d]
    {
      if d / 2 != depth / 2 {
        assert r[d / 2] == path[d / 2];
      }
    }
  }

  /** pathPrefixEq: the loop compares exactly the leading branches. */
  method PathPrefixEq(a: RawKey, b: RawKey, depth: nat) returns (eq: bool)
    requires depth <= 64
    ensures eq <==> Unpack(a)[..depth] == Unpack(b)[..depth]
  {
    var d := 0;
    while d < depth
      invariant 0 <= d <= depth
      invariant Unpack(a)[..d] == Unpack(b)[..d]
    {
      if BranchAtDepth(a, d) != BranchAtDepth(b, d) {
        assert Unpack(a)[..depth][d] != Unpack(b)[..depth][d];
        return false;
      }
      assert Unpack(a)[..d + 1] == Unpack(a)[..d] + [Unpack(a)[d]];
      assert Unpack(b)[..d + 1] == Unpack(b)[..d] + [Unpack(b)[d]];
      d := d + 1;
    }
    return true;
  }

  // ---------------------------------------------------------------- node_id.go

  datatype NodeID = NodeID(depth: Byte, id: RawKey)

  datatype IdError = MaxDepthExceeded | InvalidBranch | InvalidLength | NonCanonical

  datatype IdResult = IdOk(id: NodeID) | IdErr(error: IdError)

  /** The path a node identifier stands for: its branches above its depth. */
  ghost function PathOf(n: NodeID): (p: Path)
    requires n.depth <= 64
  {
    Unpack(n.id)[..n.depth]
  }

  /** Below its depth a canonical identifier is all zeros. */
  ghost predicate CanonicalID(n: NodeID) {
    n.depth <= 64 && forall d :: n.depth <= d < 64 ==> Unpack(n.id)[d] == 0
  }

  /** createNodeID: copy the key, clear the half byte at the boundary, then clear
      every byte beyond it. */
  method CreateNodeID(depth: Byte, key: RawKey) returns (r: IdResult)
    ensures r.IdErr? <==> depth > 64
    ensures r.IdErr? ==> r.error == MaxDepthExceeded
    ensures r.IdOk? ==> r.id.depth == depth && CanonicalID(r.id) && PathOf(r.id) == Unpack(key)[..depth]
  {
    if depth > 64 {
      return IdErr(MaxDepthExceeded);
    }
    var id: RawKey := key;
    if depth < 64 {
      var byteIndex := depth / 2;
      if depth % 2 == 1 {
        id := id[byteIndex := 16 * (id[byteIndex] / 16)];
      }
      var i := (depth + 1) / 2;
      while i < 32
        invariant (depth + 1) / 2 <= i <= 32
        invariant forall j :: 0 <= j < depth / 2 ==> id[j] == key[j]
        invariant depth % 2 == 1 ==> id[depth / 2] == 16 * (key[depth / 2] / 16)
        invariant forall j :: (depth + 1) / 2 <= j < i ==> id[j] == 0
      {
        id := id[i := 0];
        i := i + 1;
      }
      forall d | depth <= d < 64
        ensures Unpack(id)[d] == 0
      {
        assert d / 2 >= (depth + 1) / 2 || (depth % 2 == 1 && d == depth && d % 2 == 1);
      }
      forall d | 0 <= d < depth
        ensures Unpack(id)[d] == Unpack(key)[d]
      {
        assert d / 2 < depth / 2 || (depth % 2 == 1 && d / 2 == depth / 2 && d % 2 == 0);
      }
      assert Unpack(id)[..depth] == Unpack(key)[..depth];
    }
    r := IdOk(NodeID(depth, id));
  }

  /** NodeID.childNodeID: the child's path is the parent's path and the branch. */
  function ChildNodeID(n: NodeID, branch: Byte): (r: IdResult)
    ensures r.IdErr? <==> branch > 15 || n.depth >= 64
    ensures r.IdOk? ==> r.id.depth == n.depth + 1 && PathOf(r.id) == PathOf(n) + [branch as Nibble]
    ensures r.IdOk? && CanonicalID(n) ==> CanonicalID(r.id)
  {
    if branch > 15 then IdErr(InvalidBranch)
    else if n.depth >= 64 then IdErr(MaxDepthExceeded)
    else
      var id := ChildPathForBranch(n.id, n.depth, branch);
      assert Unpack(id)[..n.depth + 1] == Unpack(n.id)[..n.depth] + [branch as Nibble];
      IdOk(NodeID(n.depth + 1, id))
  }

  /** NodeID.Bytes. */
  function IdBytes(n: NodeID): (r: seq<Byte>)
    ensures |r| == 33
  {
    n.id + [n.depth]
  }

  /** ParseNodeID accepts exactly the encodings of canonical identifiers. */
  method ParseNodeID(data: seq<Byte>) returns (r: IdResult)
    ensures r.IdOk? ==> CanonicalID(r.id) && IdBytes(r.id) == data
    ensures r.IdErr? ==> forall n: NodeID :: CanonicalID(n) ==> IdBytes(n) != data
  {
    if |data| != 33 {
      return IdErr(InvalidLength);
    }
    var depth := data[32];
    if depth > 64 {
      return IdErr(MaxDepthExceeded);
    }
    var id: RawKey := data[..32];
    var canonical := CreateNodeID(depth, id);
    if canonical.id.id != id {
      forall n: NodeID | CanonicalID(n)
        ensures IdBytes(n) != data
      {
        if IdBytes(n) == data {
          assert n.id == data[..32] && n.depth == data[32];
          CanonicalIDUnique(n, canonical.id);
          assert false;
        }
      }
      return IdErr(NonCanonical);
    }
    assert data == data[..32] + [data[32]];
    r := canonical;
  }

  /** A canonical identifier is determined by its path, so comparing identifiers
      compares positions. */
  lemma CanonicalIDUnique(a: NodeID, b: NodeID)
    requires CanonicalID(a) && CanonicalID(b) && PathOf(a) == PathOf(b)
    ensures a == b
  {
    assert a.depth == |PathOf(a)| == b.depth;
    forall d | 0 <= d < 64
      ensures Unpack(a.id)[d] == Unpack(b.id)[d]
    {
      if d < a.depth {
        assert PathOf(a)[d] == PathOf(b)[d];
      }
    }
    assert Unpack(a.id) == Unpack(b.id);
    PackUnpack(a.id, Unpack(a.id));
    PackUnpack(b.id, Unpack(b.id));
  }

  // ------------------------------------------------------------------ ordering

  /** Strict lexicographic order, the order of compareKeys (shamap/iterator.go). */
  ghost predicate Below(a: seq<int>, b: seq<int>)
    requires |a| == |b|
  {
    exists i :: 0 <= i < |a| && a[i] < b[i] && a[..i] == b[..i]
  }

  /** The order on packed bytes is the order on branches, so walking branches in
      ascending order visits keys in ascending byte order. */
  lemma RawOrderIsBranchOrder(a: RawKey, b: RawKey)
    ensures Below(a, b) <==> Below(Unpack(a), Unpack(b))
  {
    if Below(a, b) {
      RawBelowBranches(a, b);
    }
    if Below(Unpack(a), Unpack(b)) {
      var d :| 0 <= d < 64 && Unpack(a)[d] < Unpack(b)[d] && Unpack(a)[..d] == Unpack(b)[..d];
      var i := d / 2;
      forall j | 0 <= j < i
        ensures a[j] == b[j]
      {
        SameBranchesSameByte(a, b, d, j);
      }
      assert a[..i] == b[..i];
      assert d == 2 * i || d == 2 * i + 1;
      if d == 2 * i + 1 {
        assert Unpack(a)[..d][2 * i] == Unpack(b)[..d][2 * i];
      }
      assert a[i] < b[i];
    }
  }

  lemma SameBranchesSameByte(a: RawKey, b: RawKey, d: nat, j: nat)
    requires d <= 64 && Unpack(a)[..d] == Unpack(b)[..d] && 2 * j + 1 < d
    ensures a[j] == b[j]
  {
    assert Unpack(a)[..d][2 * j] == Unpack(b)[..d][2 * j];
    assert Unpack(a)[..d][2 * j + 1] == Unpack(b)[..d][2 * j + 1];
    assert Unpack(a)[2 * j] == a[j] / 16 && Unpack(a)[2 * j + 1] == a[j] % 16;
    assert Unpack(b)[2 * j] == b[j] / 16 && Unpack(b)[2 * j + 1] == b[j] % 16;
  }

  lemma RawBelowBranches(a: RawKey, b: RawKey)
    requires Below(a, b)
    ensures Below(Unpack(a), Unpack(b))
  {
    var i :| 0 <= i < 32 && a[i] < b[i] && a[..i] == b[..i];
    var d := if a[i] / 16 < b[i] / 16 then 2 * i else 2 * i + 1;
    assert Unpack(a)[2 * i] == a[i] / 16 && Unpack(a)[2 * i + 1] == a[i] % 16;
    assert Unpack(b)[2 * i] == b[i] / 16 && Unpack(b)[2 * i + 1] == b[i] % 16;
    forall e | 0 <= e < d
      ensures Unpack(a)[e] == Unpack(b)[e]
    {
      if e / 2 < i {
        assert a[..i][e / 2] == b[..i][e / 2];
      }
    }
    assert Unpack(a)[..d] == Unpack(b)[..d];
    assert Unpack(a)[d] < Unpack(b)[d];
  }
}
