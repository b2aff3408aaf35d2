/** The wire encodings of nodes: SerializeForWire and the fromWire parsers of
    shamap/inner_node.go, shamap/leaf.go and shamap/node.go.

    A blob is a sequence of cells. Octets are ordinary bytes; the 32 bytes of a
    digest are the 32 digest cells of its preimage. A byte string a peer sends is
    read with octets wherever a number is wanted (wire type, branch position, leaf
    key and data) and with digest cells wherever 32 bytes spell a digest. */
module WireFormat {
  import opened KeyPath
  import opened Trie
  import opened Mutation
  import opened Hashing

  type Blob = seq<Cell>

  const WIRE_TRANSACTION: Byte := 0
  const WIRE_ACCOUNT_STATE: Byte := 1
  const WIRE_INNER: Byte := 2
  const WIRE_COMPRESSED_INNER: Byte := 3
  const WIRE_TRANSACTION_WITH_META: Byte := 4

  /** A node as the parsers leave it: inner nodes know their branches by hash only. */
  datatype Node =
    | InnerNode(hashes: seq<Hash>, bits: seq<bool>)
    | LeafNode(kind: LeafKind, key: Key, data: Data)

  // -------------------------------------------------------------------- cells

  function Octets(bytes: seq<Byte>): (r: Blob)
    ensures |r| == |bytes| && forall i :: 0 <= i < |r| ==> r[i] == Octet(bytes[i])
  {
    seq(|bytes|, i requires 0 <= i < |bytes| => Octet(bytes[i]))
  }

  predicate AllOctets(b: Blob) {
    forall i :: 0 <= i < |b| ==> b[i].Octet?
  }

  function Bytes(b: Blob): (r: seq<Byte>)
    requires AllOctets(b)
    ensures |r| == |b| && forall i :: 0 <= i < |r| ==> b[i] == Octet(r[i])
  {
    seq(|b|, i requires 0 <= i < |b| => b[i].b)
  }

  function DigestCells(p: Preimage): (r: Blob)
    ensures |r| == 32 && forall i :: 0 <= i < 32 ==> r[i] == DigestCell(p, i)
  {
    seq(32, i requires 0 <= i < 32 => DigestCell(p, i))
  }

  function ZeroCells(): (r: Blob)
    ensures |r| == 32 && forall i :: 0 <= i < 32 ==> r[i] == Octet(0)
  {
    seq(32, i => Octet(0))
  }

  function HashCells(h: Hash): Blob {
    match h
    case Zero => ZeroCells()
    case Digest(p) => DigestCells(p)
    case Foreign(raw) => raw
  }

  function ParseHash(b: Blob): (h: Hash)
    requires |b| == 32
    ensures HashCells(h) == b
  {
    if b == ZeroCells() then Zero
    else if b[0].DigestCell? && b == DigestCells(b[0].pre) then Digest(b[0].pre)
    else Foreign(b)
  }

  /** The hashes nodes really have. */
  predicate Genuine(h: Hash) {
    h.Zero? || h.Digest?
  }

  lemma {:induction false} HashRoundTrip(h: Hash)
    requires Genuine(h)
    ensures |HashCells(h)| == 32 && ParseHash(HashCells(h)) == h
  {
    if h.Digest? {
      assert DigestCells(h.pre)[0] == DigestCell(h.pre, 0);
      assert DigestCells(h.pre)[0] != ZeroCells()[0];
    }
  }

  // ------------------------------------------------------------------- hashes

  function Masked(n: Node): (r: seq<Hash>)
    requires n.InnerNode? && |n.hashes| == |n.bits| == 16
    ensures |r| == 16 && forall i :: 0 <= i < 16 ==> r[i] == if n.bits[i] then n.hashes[i] else Zero
  {
    seq(16, i requires 0 <= i < 16 => if n.bits[i] then n.hashes[i] else Zero)
  }

  /** UpdateHash on a parsed node. */
  function NodeHash(n: Node): Hash
    requires n.InnerNode? ==> |n.hashes| == |n.bits| == 16
  {
    match n
    case LeafNode(kind, key, data) => LeafHash(kind, key, data)
    case InnerNode(hashes, bits) =>
      if forall i :: 0 <= i < 16 ==> !bits[i] then Zero else Digest(InnerPre(Masked(n)))
  }

  // -------------------------------------------------------- compressed bodies

  function Count(bits: seq<bool>, n: nat): (r: nat)
    requires n <= |bits|
    ensures r <= n
  {
    if n == 0 then 0 else Count(bits, n - 1) + if bits[n - 1] then 1 else 0
  }

  /** [hash, position] for each set branch below n. */
  function CompressedBody(hashes: seq<Hash>, bits: seq<bool>, n: nat): Blob
    requires n <= |hashes| && n <= |bits| <= 16
  {
    if n == 0 then []
    else CompressedBody(hashes, bits, n - 1) +
         if bits[n - 1] then HashCells(hashes[n - 1]) + [Octet(n - 1)] else []
  }

  function FullBody(hashes: seq<Hash>, n: nat): Blob
    requires n <= |hashes|
  {
    if n == 0 then [] else FullBody(hashes, n - 1) + HashCells(hashes[n - 1])
  }

  const NO_HASHES: seq<Hash> := [Zero, Zero, Zero, Zero, Zero, Zero, Zero, Zero, Zero, Zero, Zero, Zero, Zero, Zero,
    Zero, Zero]
  const NO_BITS: seq<bool> := [false, false, false, false, false, false, false, false,
                               false, false, false, false, false, false, false, false]

  /** The node after m entries of a compressed body, unless a position is out of
      range. Later entries override earlier ones at the same position. */
  function Entries(body: Blob, m: nat): (r: Option<Node>)
    requires 33 * m <= |body|
    ensures r.Some? ==> r.value.InnerNode? && |r.value.hashes| == |r.value.bits| == 16
    ensures r.Some? ==> forall i :: 0 <= i < 16 && !r.value.bits[i] ==> r.value.hashes[i] == Zero
    decreases m
  {
    if m == 0 then Some(InnerNode(NO_HASHES, NO_BITS))
    else
      var before := Entries(body, m - 1);
      var position := body[33 * m - 1];
      if before.None? || !position.Octet? || position.b >= 16 then None
      else
        Some(InnerNode(before.value.hashes[position.b := ParseHash(body[33 * m - 33..33 * m - 1])],
                       before.value.bits[position.b := true]))
  }

  /** parseCompressedInnerNode. */
  method ParseCompressed(body: Blob) returns (r: Option<Node>)
    ensures r == if |body| % 33 != 0 || |body| > 33 * 16 then None else Entries(body, |body| / 33)
  {
    if |body| % 33 != 0 || |body| > 33 * 16 {
      return None;
    }
    var hashes, bits := NO_HASHES, NO_BITS;
    var i := 0;
    ghost var m := 0;
    assert Entries(body, 0) == Some(InnerNode(hashes, bits));
    hide Entries, ParseHash;
    while i < |body|
      invariant i == 33 * m && i <= |body|
      invariant Entries(body, m) == Some(InnerNode(hashes, bits))
    {
      EntriesStep(body, m);
      var hash := ParseHash(body[i..i + 32]);
      var position := body[i + 32];
      if !position.Octet? || position.b >= 16 {
        EntriesFail(body, m + 1, |body| / 33);
        return None;
      }
      hashes, bits := hashes[position.b := hash], bits[position.b := true];
      i, m := i + 33, m + 1;
    }
    r := Some(InnerNode(hashes, bits));
  }

  lemma {:induction false} EntriesStep(body: Blob, m: nat)
    requires 33 * m < |body| && |body| % 33 == 0 && Entries(body, m).Some?
    ensures 33 * (m + 1) <= |body|
    ensures var n, position := Entries(body, m).value, body[33 * m + 32];
      Entries(body, m + 1) ==
        if !position.Octet? || position.b >= 16 then None
        else Some(InnerNode(n.hashes[position.b := ParseHash(body[33 * m..33 * m + 32])], n.bits[position.b := true]))
  {
    hide ParseHash;
  }

  lemma {:induction false} EntriesFail(body: Blob, m: nat, n: nat)
    requires m <= n && 33 * n <= |body| && Entries(body, m) == None
    ensures Entries(body, n) == None
    decreases n
  {
    if m < n {
      EntriesFail(body, m, n - 1);
    }
  }

  lemma {:induction false} EntriesOfPrefix(a: Blob, b: Blob, m: nat)
    requires 33 * m <= |a|
    ensures Entries(a + b, m) == Entries(a, m)
    decreases m
  {
    if m > 0 {
      EntriesOfPrefix(a, b, m - 1);
      assert (a + b)[33 * m - 33..33 * m - 1] == a[33 * m - 33..33 * m - 1];
    }
  }

  ghost predicate Tidy(hashes: seq<Hash>, bits: seq<bool>) {
    && |hashes| == |bits| == 16
    && forall i :: 0 <= i < 16 ==> Genuine(hashes[i]) && (bits[i] <==> hashes[i] != Zero)
  }

  function Upto(hashes: seq<Hash>, n: nat): (r: seq<Hash>)
    requires |hashes| == 16 && n <= 16
    ensures |r| == 16 && forall i :: 0 <= i < 16 ==> r[i] == if i < n then hashes[i] else Zero
  {
    seq(16, i requires 0 <= i < 16 => if i < n then hashes[i] else Zero)
  }

  function UptoBits(bits: seq<bool>, n: nat): (r: seq<bool>)
    requires |bits| == 16 && n <= 16
    ensures |r| == 16 && forall i :: 0 <= i < 16 ==> r[i] == (i < n && bits[i])
  {
    seq(16, i requires 0 <= i < 16 => i < n && bits[i])
  }

  lemma {:induction false} UptoStep(hashes: seq<Hash>, bits: seq<bool>, n: nat)
    requires Tidy(hashes, bits) && 0 < n <= 16
    ensures Upto(hashes, n) == Upto(hashes, n - 1)[n - 1 := hashes[n - 1]]
    ensures UptoBits(bits, n) == UptoBits(bits, n - 1)[n - 1 := bits[n - 1]]
    ensures !bits[n - 1] ==> Upto(hashes, n) == Upto(hashes, n - 1) && UptoBits(bits, n) == UptoBits(bits, n - 1)
  {
  }

  /** Parsing what was serialized gives the node back, branch by branch. */
  lemma {:induction false} CompressedRoundTrip(hashes: seq<Hash>, bits: seq<bool>, n: nat)
    requires Tidy(hashes, bits) && n <= 16
    ensures |CompressedBody(hashes, bits, n)| == 33 * Count(bits, n)
    ensures Entries(CompressedBody(hashes, bits, n), Count(bits, n))
      == Some(InnerNode(Upto(hashes, n), UptoBits(bits, n)))
    decreases n
  {
    if n == 0 {
      assert Upto(hashes, 0) == NO_HASHES && UptoBits(bits, 0) == NO_BITS;
    } else {
      hide Entries, HashCells, Upto, UptoBits;
      CompressedRoundTrip(hashes, bits, n - 1);
      UptoStep(hashes, bits, n);
      if bits[n - 1] {
        EntryAppended(CompressedBody(hashes, bits, n - 1), Count(bits, n - 1), hashes[n - 1], n - 1);
      } else {
        assert CompressedBody(hashes, bits, n) == CompressedBody(hashes, bits, n - 1);
      }
    }
  }

  lemma {:induction false} EntryAppended(body: Blob, m: nat, h: Hash, position: Nibble)
    requires |body| == 33 * m && Entries(body, m).Some? && Genuine(h)
    ensures |HashCells(h)| == 32
    ensures Entries(body + (HashCells(h) + [Octet(position)]), m + 1) ==
              Some(InnerNode(Entries(body, m).value.hashes[position := h],
                Entries(body, m).value.bits[position := true]))
  {
    HashRoundTrip(h);
    var longer := body + (HashCells(h) + [Octet(position)]);
    EntriesOfPrefix(body, HashCells(h) + [Octet(position)], m);
    assert longer[33 * (m + 1) - 33..33 * (m + 1) - 1] == HashCells(h);
    assert longer[33 * (m + 1) - 1] == Octet(position);
  }

  // -------------------------------------------------------------- full bodies

  /** parseFullInnerNode. */
  method ParseFull(body: Blob) returns (r: Option<Node>)
    ensures r == if |body| != 512 then None else Some(FullNode(body))
  {
    if |body| != 512 {
      return None;
    }
    var hashes, bits := NO_HASHES, NO_BITS;
    var i := 0;
    while i < 16
      invariant 0 <= i <= 16 && |hashes| == |bits| == 16
      invariant forall j :: 0 <= j < 16 ==> hashes[j] == if j < i then FullNode(body).hashes[j] else Zero
      invariant forall j :: 0 <= j < 16 ==> bits[j] == (j < i && FullNode(body).bits[j])
    {
      var hash := ParseHash(body[i * 32..i * 32 + 32]);
      if hash != Zero {
        hashes, bits := hashes[i := hash], bits[i := true];
      }
      i := i + 1;
    }
    assert hashes == FullNode(body).hashes && bits == FullNode(body).bits;
    r := Some(InnerNode(hashes, bits));
  }

  function FullNode(body: Blob): (n: Node)
    requires |body| == 512
    ensures n.InnerNode? && |n.hashes| == |n.bits| == 16
    ensures forall i :: 0 <= i < 16 ==>
      n.hashes[i] == ParseHash(body[i * 32..i * 32 + 32]) && n.bits[i] == (n.hashes[i] != Zero)
  {
    InnerNode(seq(16, i requires 0 <= i < 16 => ParseHash(body[i * 32..i * 32 + 32])),
              seq(16, i requires 0 <= i < 16 => ParseHash(body[i * 32..i * 32 + 32]) != Zero))
  }

  lemma {:induction false} FullBodyAt(hashes: seq<Hash>, n: nat, i: nat)
    requires i < n <= |hashes| && forall j :: 0 <= j < |hashes| ==> Genuine(hashes[j])
    ensures |FullBody(hashes, n)| == 32 * n
    ensures FullBody(hashes, n)[i * 32..i * 32 + 32] == HashCells(hashes[i])
    decreases n
  {
    HashRoundTrip(hashes[n - 1]);
    FullBodyLength(hashes, n - 1);
    var before := FullBody(hashes, n - 1);
    if i < n - 1 {
      FullBodyAt(hashes, n - 1, i);
      assert FullBody(hashes, n)[i * 32..i * 32 + 32] == before[i * 32..i * 32 + 32];
    } else {
      assert (before + HashCells(hashes[n - 1]))[|before|..] == HashCells(hashes[n - 1]);
    }
  }

  lemma {:induction false} FullBodyLength(hashes: seq<Hash>, n: nat)
    requires n <= |hashes| && forall j :: 0 <= j < |hashes| ==> Genuine(hashes[j])
    ensures |FullBody(hashes, n)| == 32 * n
    decreases n
  {
    if n > 0 {
      HashRoundTrip(hashes[n - 1]);
      FullBodyLength(hashes, n - 1);
    }
  }

  lemma {:induction false} FullRoundTrip(hashes: seq<Hash>, bits: seq<bool>)
    requires Tidy(hashes, bits)
    ensures |FullBody(hashes, |hashes|)| == 512
    ensures FullNode(FullBody(hashes, |hashes|)) == InnerNode(hashes, bits)
  {
    FullBodyLength(hashes, |hashes|);
    var n := FullNode(FullBody(hashes, |hashes|));
    forall i | 0 <= i < 16
      ensures n.hashes[i] == hashes[i]
    {
      FullBodyAt(hashes, |hashes|, i);
      HashRoundTrip(hashes[i]);
    }
    assert n.hashes == hashes && n.bits == bits;
  }

  // -------------------------------------------------------------- whole blobs

  function WireType(kind: LeafKind): Byte {
    match kind
    case AccountState => WIRE_ACCOUNT_STATE
    case Transaction => WIRE_TRANSACTION
    case TransactionWithMeta => WIRE_TRANSACTION_WITH_META
  }

  function LeafBlob(kind: LeafKind, key: Key, data: Data): Blob {
    LeafBody(kind, key, data) + [Octet(WireType(kind))]
  }

  function InnerBlob(hashes: seq<Hash>, bits: seq<bool>): Blob
    requires |hashes| == |bits| == 16
  {
    if Count(bits, |bits|) < 12 then CompressedBody(hashes, bits, |bits|) + [Octet(WIRE_COMPRESSED_INNER)]
    else FullBody(hashes, |hashes|) + [Octet(WIRE_INNER)]
  }

  /** innerNode.SerializeForWire; an inner node without branches has no encoding. */
  method SerializeInner(hashes: seq<Hash>, bits: seq<bool>) returns (r: Option<Blob>)
    requires Tidy(hashes, bits)
    ensures r == if Count(bits, |bits|) == 0 then None else Some(InnerBlob(hashes, bits))
  {
    var count := Count(bits, |bits|);
    if count == 0 {
      return None;
    }
    var result: Blob := [];
    if count < 12 {
      for i := 0 to 16
        invariant result == CompressedBody(hashes, bits, i)
      {
        if bits[i] {
          result := result + (HashCells(hashes[i]) + [Octet(i)]);
        }
      }
      return Some(result + [Octet(WIRE_COMPRESSED_INNER)]);
    }
    for i := 0 to 16
      invariant result == FullBody(hashes, i)
    {
      result := result + if bits[i] then HashCells(hashes[i]) else ZeroCells();
    }
    return Some(result + [Octet(WIRE_INNER)]);
  }

  /** The leaf parsers. A leaf that carries its key must have room for it; a state
      leaf must not have the zero key; a transaction's key is the hash of its data,
      here an arbitrary function. Items of less than twelve bytes are refused. */
  function ParseLeaf(kind: LeafKind, body: Blob, txKey: Data -> Key): Option<Node> {
    if !AllOctets(body) then None
    else if !KeyOnWire(kind) then
      if |body| < 12 then None else Some(LeafNode(kind, txKey(Bytes(body)), Bytes(body)))
    else if |body| < 32 then None
    else
      var raw: RawKey := Bytes(body)[|body| - 32..];
      if kind.AccountState? && IsZeroKey(raw) then None
      else if |body| - 32 < 12 then None
      else Some(LeafNode(kind, Unpack(raw), Bytes(body)[..|body| - 32]))
  }

  /** deserializeNodeFromWire. */
  function Deserialized(b: Blob, txKey: Data -> Key): (r: Option<Node>)
    ensures r.Some? && r.value.InnerNode? ==> |r.value.hashes| == |r.value.bits| == 16
    ensures r.Some? && r.value.InnerNode? ==> forall i :: 0 <= i < 16 && !r.value.bits[i] ==> r.value.hashes[i] == Zero
  {
    if b == [] || !b[|b| - 1].Octet? then None
    else
      var body, wireType := b[..|b| - 1], b[|b| - 1].b;
      if wireType == WIRE_INNER then
        if |body| != 512 then None else Some(FullNode(body))
      else if wireType == WIRE_COMPRESSED_INNER then
        if |body| % 33 != 0 || |body| > 33 * 16 then None else Entries(body, |body| / 33)
      else if wireType == WIRE_ACCOUNT_STATE then ParseLeaf(AccountState, body, txKey)
      else if wireType == WIRE_TRANSACTION then ParseLeaf(Transaction, body, txKey)
      else if wireType == WIRE_TRANSACTION_WITH_META then ParseLeaf(TransactionWithMeta, body, txKey)
      else None
  }

  method Deserialize(b: Blob, txKey: Data -> Key) returns (r: Option<Node>)
    ensures r == Deserialized(b, txKey)
  {
    if b == [] || !b[|b| - 1].Octet? {
      return None;
    }
    var body, wireType := b[..|b| - 1], b[|b| - 1].b;
    if wireType == WIRE_INNER {
      r := ParseFull(body);
    } else if wireType == WIRE_COMPRESSED_INNER {
      r := ParseCompressed(body);
    } else if wireType == WIRE_ACCOUNT_STATE {
      r := ParseLeaf(AccountState, body, txKey);
    } else if wireType == WIRE_TRANSACTION {
      r := ParseLeaf(Transaction, body, txKey);
    } else if wireType == WIRE_TRANSACTION_WITH_META {
      r := ParseLeaf(TransactionWithMeta, body, txKey);
    } else {
      r := None;
    }
  }

  /** The leaves that read back as themselves. */
  predicate ReadsBack(kind: LeafKind, key: Key, data: Data, txKey: Data -> Key) {
    && |data| >= 12
    && (kind.AccountState? ==> !IsZeroKey(Pack(key)))
    && (kind.Transaction? ==> key == txKey(data))
  }

  function LeafBody(kind: LeafKind, key: Key, data: Data): Blob {
    Octets(data) + if KeyOnWire(kind) then Octets(Pack(key)) else []
  }

  lemma {:induction false} ParsedLeaf(kind: LeafKind, key: Key, data: Data, txKey: Data -> Key)
    ensures ParseLeaf(kind, LeafBody(kind, key, data), txKey) == Some(LeafNode(kind, key, data)) <==>
              ReadsBack(kind, key, data, txKey)
    ensures var r := ParseLeaf(kind, LeafBody(kind, key, data), txKey);
            r.Some? ==> r.value.LeafNode? && r.value.kind == kind && r.value.data == data
                        && r.value.key == if KeyOnWire(kind) then key else txKey(data)
  {
    var body := LeafBody(kind, key, data);
    assert AllOctets(body);
    if KeyOnWire(kind) {
      PackUnpack(Pack(key), key);
      hide Unpack, Pack;
      assert Bytes(body)[|body| - 32..] == Pack(key);
      assert Bytes(body)[..|body| - 32] == data;
    } else {
      assert Bytes(body) == data;
    }
  }

  lemma {:induction false} LeafRoundTrip(kind: LeafKind, key: Key, data: Data, txKey: Data -> Key)
    ensures Deserialized(LeafBlob(kind, key, data), txKey) == Some(LeafNode(kind, key, data)) <==>
              ReadsBack(kind, key, data, txKey)
    ensures var r := Deserialized(LeafBlob(kind, key, data), txKey);
            r.Some? ==> r.value.LeafNode? && r.value.kind == kind && r.value.data == data
                        && r.value.key == if KeyOnWire(kind) then key else txKey(data)
  {
    hide ParseLeaf, ReadsBack, Deserialized, LeafBody;
    ParsedLeaf(kind, key, data, txKey);
    DeserializedLeaf(kind, LeafBody(kind, key, data), txKey);
  }

  lemma {:induction false} DeserializedLeaf(kind: LeafKind, body: Blob, txKey: Data -> Key)
    ensures Deserialized(body + [Octet(WireType(kind))], txKey) == ParseLeaf(kind, body, txKey)
  {
    hide ParseLeaf, Entries, FullNode;
    var b := body + [Octet(WireType(kind))];
    assert b[..|b| - 1] == body;
  }

  lemma {:induction false} DeserializedCompressed(body: Blob, txKey: Data -> Key)
    requires |body| % 33 == 0 && |body| <= 33 * 16
    ensures Deserialized(body + [Octet(WIRE_COMPRESSED_INNER)], txKey) == Entries(body, |body| / 33)
  {
    var b := body + [Octet(WIRE_COMPRESSED_INNER)];
    assert b[..|b| - 1] == body;
  }

  lemma {:induction false} DeserializedFull(body: Blob, txKey: Data -> Key)
    requires |body| == 512
    ensures Deserialized(body + [Octet(WIRE_INNER)], txKey) == Some(FullNode(body))
  {
    var b := body + [Octet(WIRE_INNER)];
    assert b[..|b| - 1] == body;
  }

  lemma {:induction false} CompressedBlobRoundTrip(hashes: seq<Hash>, bits: seq<bool>, txKey: Data -> Key)
    requires Tidy(hashes, bits)
    ensures Deserialized(CompressedBody(hashes, bits, |bits|) + [Octet(WIRE_COMPRESSED_INNER)], txKey)
      == Some(InnerNode(hashes, bits))
  {
    var body, count := CompressedBody(hashes, bits, |bits|), Count(bits, |bits|);
    CompressedRoundTrip(hashes, bits, |bits|);
    assert |body| == 33 * count && |body| / 33 == count;
    assert Upto(hashes, |bits|) == hashes && UptoBits(bits, |bits|) == bits;
    DeserializedCompressed(body, txKey);
  }

  /** A node's wire form reads back as the node, in either encoding. */
  lemma {:induction false} InnerRoundTrip(hashes: seq<Hash>, bits: seq<bool>, txKey: Data -> Key)
    requires Tidy(hashes, bits)
    ensures Deserialized(InnerBlob(hashes, bits), txKey) == Some(InnerNode(hashes, bits))
  {
    CompressedBlobRoundTrip(hashes, bits, txKey);
    FullRoundTrip(hashes, bits);
    DeserializedFull(FullBody(hashes, |hashes|), txKey);
  }

  // ------------------------------------------------------- encodings of trees

  function Bits(t: Tree): (r: seq<bool>)
    requires t.Inner? && |t.kids| == 16
    ensures |r| == 16 && forall i :: 0 <= i < 16 ==> r[i] == (t.kids[i] != Empty)
  {
    seq(16, i requires 0 <= i < 16 => t.kids[i] != Empty)
  }

  /** The wire form of the node at the top of a tree. */
  ghost function Wire(kind: LeafKind, t: Tree): Blob
    requires t != Empty && (t.Inner? ==> |t.kids| == 16)
  {
    if t.Leaf? then LeafBlob(kind, t.key, t.data) else InnerBlob(HashKids(kind, t), Bits(t))
  }

  lemma {:induction false} TreeIsTidy(kind: LeafKind, t: Tree, path: seq<Nibble>)
    requires t.Inner? && Canonical(t, path)
    ensures Tidy(HashKids(kind, t), Bits(t))
    ensures NodeHash(InnerNode(HashKids(kind, t), Bits(t))) == HashOf(kind, t)
  {
    forall i | 0 <= i < 16
      ensures Genuine(HashKids(kind, t)[i]) && (Bits(t)[i] <==> HashKids(kind, t)[i] != Zero)
    {
      ZeroMeansEmpty(kind, t.kids[i], path + [i]);
    }
    assert Masked(InnerNode(HashKids(kind, t), Bits(t))) == HashKids(kind, t);
    if AllEmpty(t.kids) {
      assert forall i :: 0 <= i < 16 ==> !Bits(t)[i];
    } else {
      var j :| 0 <= j < 16 && t.kids[j] != Empty;
      assert Bits(t)[j];
    }
  }

  // -------------------------------------------------------------------- sizes

  /** wireDataSize and wireSizeForPrefixBody. */
  function WireDataSize(n: Node): Option<nat>
    requires n.InnerNode? ==> |n.bits| == 16
  {
    match n
    case LeafNode(kind, _, data) => Some(|data| + if KeyOnWire(kind) then 33 else 1)
    case InnerNode(_, bits) =>
      var branches := Count(bits, |bits|);
      if branches == 0 then None else if branches < 12 then Some(branches * 33 + 1) else Some(513)
  }

  /** The size functions agree with the real encodings. */
  lemma {:induction false} LeafSizeAgrees(kind: LeafKind, key: Key, data: Data)
    ensures WireDataSize(LeafNode(kind, key, data)) == Some(|LeafBlob(kind, key, data)|)
  {
    assert |LeafBody(kind, key, data)| == |data| + if KeyOnWire(kind) then 32 else 0;
  }

  lemma {:induction false} InnerSizeAgrees(hashes: seq<Hash>, bits: seq<bool>)
    requires Tidy(hashes, bits)
    ensures WireDataSize(InnerNode(hashes, bits)) ==
              if Count(bits, |bits|) == 0 then None else Some(|InnerBlob(hashes, bits)|)
  {
    hide Entries, FullNode, Count, CompressedBody, FullBody, Upto, UptoBits;
    CompressedRoundTrip(hashes, bits, |bits|);
    FullRoundTrip(hashes, bits);
  }
}
