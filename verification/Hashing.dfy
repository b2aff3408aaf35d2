/** Node hashes (shamap/inner_node.go, shamap/leaf.go) and what a root hash says
    about the map under it.

    SHA-512Half is modelled as a free constructor over its preimage: a digest is
    never zero and two digests agree only if their preimages do. `Foreign` is any
    other 32-byte value, which a peer may send but nothing hashes to. */
module Hashing {
  import opened KeyPath
  import opened Trie
  import opened Mutation

  datatype LeafKind = AccountState | Transaction | TransactionWithMeta

  /** Whether the preimage and the wire form of a leaf carry its key. */
  predicate KeyOnWire(kind: LeafKind) {
    !kind.Transaction?
  }

  /** One byte of serialized data: a plain octet, or byte `at` of a digest. */
  datatype Cell = Octet(b: Byte) | DigestCell(pre: Preimage, at: nat)

  datatype Preimage =
    | InnerPre(kids: seq<Hash>)
    | LeafPre(kind: LeafKind, data: Data, key: Option<Key>)

  datatype Hash = Zero | Digest(pre: Preimage) | Foreign(raw: seq<Cell>)

  function LeafHash(kind: LeafKind, key: Key, data: Data): Hash {
    Digest(LeafPre(kind, data, if KeyOnWire(kind) then Some(key) else None))
  }

  /** decodePrefixBody, and the size tests behind it: a full inner record, or a leaf with
      at least twelve bytes of data, its key if it carries one, and not the zero key if
      it is a state leaf. */
  predicate Decodable(pre: Preimage) {
    match pre
    case InnerPre(kids) => |kids| == 16
    case LeafPre(kind, data, key) =>
      && |data| >= 12 && (KeyOnWire(kind) <==> key.Some?)
      && (kind.AccountState? ==> !IsZeroKey(Pack(key.value)))
  }

  /** decodeAndVerifyPrefixNode: an inner record without branches would materialize to a
      node whose hash is zero, and is refused. */
  predicate Materializes(pre: Preimage) {
    Decodable(pre) && (pre.InnerPre? ==> exists i :: 0 <= i < 16 && pre.kids[i] != Zero)
  }

  /** updateHashUnsafe: no branch set hashes to zero, otherwise all sixteen child
      hashes enter the preimage in order, zeros for the unset ones. */
  function HashOf(kind: LeafKind, t: Tree): (h: Hash)
    decreases t, 1
  {
    match t
    case Empty => Zero
    case Leaf(k, v) => LeafHash(kind, k, v)
    case Inner(kids) => if AllEmpty(kids) then Zero else Digest(InnerPre(HashKids(kind, t)))
  }

  function HashKids(kind: LeafKind, t: Tree): (hs: seq<Hash>)
    requires t.Inner?
    ensures |hs| == |t.kids|
    ensures forall i :: 0 <= i < |hs| ==> hs[i] == HashOf(kind, t.kids[i])
    decreases t, 0
  {
    seq(|t.kids|, i requires 0 <= i < |t.kids| => HashOf(kind, t.kids[i]))
  }

  /** The tree a hash commits to, read off its preimage. */
  ghost function Committed(h: Hash): Tree
    decreases h, 1
  {
    match h
    case Zero => Empty
    case Foreign(_) => Empty
    case Digest(InnerPre(kids)) => Inner(CommittedKids(h))
    case Digest(LeafPre(_, v, Some(k))) => Leaf(k, v)
    case Digest(LeafPre(_, _, None)) => Empty
  }

  ghost function CommittedKids(h: Hash): (ts: seq<Tree>)
    requires h.Digest? && h.pre.InnerPre?
    ensures |ts| == |h.pre.kids|
    ensures forall i :: 0 <= i < |ts| ==> ts[i] == Committed(h.pre.kids[i])
    decreases h, 0
  {
    seq(|h.pre.kids|, i requires 0 <= i < |h.pre.kids| => Committed(h.pre.kids[i]))
  }

  ghost function CommittedRoot(h: Hash): Tree {
    if h.Zero? then Inner(NO_KIDS) else Committed(h)
  }

  /** Below the root only an unset branch hashes to zero. */
  lemma {:induction false} ZeroMeansEmpty(kind: LeafKind, t: Tree, path: seq<Nibble>)
    requires Canonical(t, path) && path != []
    ensures HashOf(kind, t) == Zero <==> t == Empty
  {
    if t.Inner? {
      CanonicalFanNotEmpty(t, path);
    }
  }

  lemma {:induction false} CanonicalFanNotEmpty(t: Tree, path: seq<Nibble>)
    requires Canonical(t, path) && path != [] && t.Inner?
    ensures !AllEmpty(t.kids)
  {
    var a :| a in Keys(t);
    var i :| 0 <= i < 16 && a in Keys(t.kids[i]);
    assert t.kids[i] != Empty;
  }

  /** Hashing loses nothing: the tree can be read back from its hash. */
  lemma {:induction false} HashCommits(kind: LeafKind, t: Tree, path: seq<Nibble>)
    requires KeyOnWire(kind) && Canonical(t, path) && path != []
    ensures Committed(HashOf(kind, t)) == t
    decreases t
  {
    if t.Inner? {
      CanonicalFanNotEmpty(t, path);
      HashCommitsKids(kind, t, path);
    }
  }

  lemma {:induction false} HashCommitsKids(kind: LeafKind, t: Tree, path: seq<Nibble>)
    requires KeyOnWire(kind) && Canonical(t, path) && t.Inner?
    ensures CommittedKids(Digest(InnerPre(HashKids(kind, t)))) == t.kids
    decreases t, 0
  {
    var hs := HashKids(kind, t);
    forall i | 0 <= i < 16
      ensures Committed(hs[i]) == t.kids[i]
    {
      HashCommits(kind, t.kids[i], path + [i]);
    }
  }

  lemma {:induction false} RootHashCommits(kind: LeafKind, t: Tree)
    requires KeyOnWire(kind) && CanonicalRoot(t)
    ensures CommittedRoot(HashOf(kind, t)) == t
  {
    if AllEmpty(t.kids) {
      assert t.kids == NO_KIDS;
    } else {
      HashCommitsKids(kind, t, []);
    }
  }

  /** For leaves that carry their key: two canonical maps have the same root hash
      exactly when they have the same content. */
  lemma {:induction false} RootHashIdentifiesContent(kind: LeafKind, t: Tree, u: Tree)
    requires KeyOnWire(kind) && CanonicalRoot(t) && CanonicalRoot(u)
    ensures HashOf(kind, t) == HashOf(kind, u) <==> Content(t, 0) == Content(u, 0)
  {
    RootHashCommits(kind, t);
    RootHashCommits(kind, u);
    ContentDeterminesTree(t, u);
  }

  /** Any two call histories on state maps end in the same root hash exactly when
      they end in the same finite map. */
  lemma {:induction false} HistoryHash(t: Tree, u: Tree, ops1: seq<Op>, ops2: seq<Op>)
    requires CanonicalRoot(t) && CanonicalRoot(u)
    ensures HashOf(AccountState, ApplyAll(t, ops1)) == HashOf(AccountState, ApplyAll(u, ops2)) <==>
              MapAfterAll(Content(t, 0), ops1) == MapAfterAll(Content(u, 0), ops2)
  {
    HistoryRefines(t, ops1);
    HistoryRefines(u, ops2);
    RootHashIdentifiesContent(AccountState, ApplyAll(t, ops1), ApplyAll(u, ops2));
  }

  // ------------------------------------------- leaves whose preimage has no key

  /** All items of the tree come from a given stock of items. */
  ghost predicate Drawn(t: Tree, stock: iset<(Key, Data)>)
    decreases t
  {
    match t
    case Empty => true
    case Leaf(k, v) => (k, v) in stock
    case Inner(kids) => forall i :: 0 <= i < |kids| ==> Drawn(kids[i], stock)
  }

  /** No data is stocked under two keys that share their first branch. */
  ghost predicate Separated(stock: iset<(Key, Data)>) {
    forall k1: Key, k2: Key, v: Data ::
      (k1, v) in stock && (k2, v) in stock && k1[0] == k2[0] ==> k1 == k2
  }

  /** Transactions stored under their own identifiers are separated. */
  lemma {:induction false} IdentifiersSeparate(stock: iset<(Key, Data)>, txKey: Data -> Key)
    requires forall k: Key, v: Data :: (k, v) in stock ==> k == txKey(v)
    ensures Separated(stock)
  {
    forall k1: Key, k2: Key, v: Data | (k1, v) in stock && (k2, v) in stock && k1[0] == k2[0]
      ensures k1 == k2
    {
      assert k1 == txKey(v) && k2 == txKey(v);
    }
  }

  ghost predicate HashIdentifies(stock: iset<(Key, Data)>) {
    forall t, u ::
      (CanonicalRoot(t) && CanonicalRoot(u) && Drawn(t, stock) && Drawn(u, stock) &&
       HashOf(Transaction, t) == HashOf(Transaction, u)) ==> t == u
  }

  lemma {:induction false} KeylessInjective(t: Tree, u: Tree, path: seq<Nibble>, stock: iset<(Key, Data)>)
    requires Canonical(t, path) && Canonical(u, path) && path != []
    requires Drawn(t, stock) && Drawn(u, stock) && Separated(stock)
    requires HashOf(Transaction, t) == HashOf(Transaction, u)
    ensures t == u
    decreases t
  {
    if t.Inner? {
      CanonicalFanNotEmpty(t, path);
    }
    if u.Inner? {
      CanonicalFanNotEmpty(u, path);
    }
    if t.Leaf? {
      assert t.key[0] == path[0] == u.key[0];
    } else if t.Inner? {
      KeylessKids(t, u, path, stock);
    }
  }

  lemma {:induction false} KeylessKids(t: Tree, u: Tree, path: seq<Nibble>, stock: iset<(Key, Data)>)
    requires Canonical(t, path) && Canonical(u, path) && t.Inner? && u.Inner?
    requires Drawn(t, stock) && Drawn(u, stock) && Separated(stock)
    requires HashKids(Transaction, t) == HashKids(Transaction, u)
    ensures t == u
    decreases t, 0
  {
    forall i | 0 <= i < 16
      ensures t.kids[i] == u.kids[i]
    {
      assert HashKids(Transaction, t)[i] == HashKids(Transaction, u)[i];
      KeylessInjective(t.kids[i], u.kids[i], path + [i], stock);
    }
  }

  ghost function OneItem(k: Key, v: Data): Tree {
    Inner(NO_KIDS[k[0] := Leaf(k, v)])
  }

  lemma {:induction false} OneItemMap(k: Key, v: Data)
    ensures CanonicalRoot(OneItem(k, v))
  {
    NoKids([]);
    assert [] + [k[0]] <= k;
  }

  lemma {:induction false} OneItemDrawn(k: Key, v: Data, stock: iset<(Key, Data)>)
    requires (k, v) in stock
    ensures Drawn(OneItem(k, v), stock)
  {
    assert Drawn(Leaf(k, v), stock) && Drawn(Empty, stock);
  }

  /** Two maps holding the same transaction under different keys on one branch:
      their root hashes cannot tell them apart. */
  lemma {:induction false} SameDataSameHash(k1: Key, k2: Key, v: Data)
    requires k1[0] == k2[0] && k1 != k2
    ensures HashOf(Transaction, OneItem(k1, v)) == HashOf(Transaction, OneItem(k2, v))
    ensures OneItem(k1, v) != OneItem(k2, v)
  {
    var t, u := OneItem(k1, v), OneItem(k2, v);
    assert t.kids[k1[0]] == Leaf(k1, v) && u.kids[k1[0]] == Leaf(k2, v);
    assert HashKids(Transaction, t) == HashKids(Transaction, u);
  }

  /** A transaction leaf without metadata hashes its data only, so the root hash
      of such maps does not determine their content in general. It does exactly
      when no data occurs under two keys with the same first branch; storing every
      transaction under its own identifier ensures that. */
  lemma {:induction false} KeylessHashExactly(stock: iset<(Key, Data)>)
    ensures HashIdentifies(stock) <==> Separated(stock)
  {
    if Separated(stock) {
      forall t, u | CanonicalRoot(t) && CanonicalRoot(u) && Drawn(t, stock) && Drawn(u, stock) &&
        HashOf(Transaction, t) == HashOf(Transaction, u)
        ensures t == u
      {
        if AllEmpty(t.kids) {
          assert t.kids == NO_KIDS && u.kids == NO_KIDS;
        } else {
          KeylessKids(t, u, [], stock);
        }
      }
    } else {
      var k1: Key, k2: Key, v: Data :|
        (k1, v) in stock && (k2, v) in stock && k1[0] == k2[0] && k1 != k2;
      SameDataSameHash(k1, k2, v);
      OneItemMap(k1, v);
      OneItemMap(k2, v);
      OneItemDrawn(k1, v, stock);
      OneItemDrawn(k2, v, stock);
      assert !HashIdentifies(stock);
    }
  }
}
