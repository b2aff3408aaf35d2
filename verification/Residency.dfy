/** The cache of clean records: shamap/clean_residency.go, and the read that uses it,
    readChild in shamap/shamap.go. Two segments, one for foreground reads and one for
    peers, each with its own limit and recency order. */
module Residency {
  import opened Hashing

  datatype Policy = Foreground | Peer

  /** cleanResidencySegment: records by recency, newest first, known by their hash. */
  datatype Segment = Segment(limit: nat, used: nat, order: seq<Hash>, slots: nat)

  /** wireNodeIDSize. */
  const NODE_ID_BYTES: int := 33

  /** n times the structural charge. */
  function Times(n: nat, size: nat): nat {
    if n == 0 then 0 else size + Times(n - 1, size)
  }

  function Payloads(order: seq<Hash>, size: Hash -> nat): nat {
    if order == [] then 0 else size(order[0]) + Payloads(order[1..], size)
  }

  ghost predicate Distinct(order: seq<Hash>) {
    forall i, j :: 0 <= i < j < |order| ==> order[i] != order[j]
  }

  /** What a segment uses is its payloads and its structural slots, within its limit; an
      empty segment uses nothing. */
  ghost predicate SegmentOk(s: Segment, size: Hash -> nat, fixed: nat) {
    && Distinct(s.order) && |s.order| <= s.slots
    && s.used == Payloads(s.order, size) + Times(s.slots, fixed)
    && s.used <= s.limit
    && (s.order == [] ==> s.slots == 0)
  }

  function Without(order: seq<Hash>, h: Hash): (r: seq<Hash>)
    ensures forall x :: x in r <==> x in order && x != h
  {
    if order == [] then [] else (if order[0] == h then [] else [order[0]]) + Without(order[1..], h)
  }

  lemma {:induction false} WithoutKeeps(order: seq<Hash>, h: Hash, size: Hash -> nat)
    requires Distinct(order)
    ensures Distinct(Without(order, h))
    ensures h in order ==>
      && |Without(order, h)| == |order| - 1
      && Payloads(Without(order, h), size) == Payloads(order, size) - size(h)
    ensures h !in order ==> Without(order, h) == order
  {
    if order != [] {
      var rest := order[1..];
      WithoutKeeps(rest, h, size);
      assert order[0] !in rest;
      if order[0] == h {
        assert Without(order, h) == rest;
      } else {
        FrontKeeps(Without(rest, h), order[0], size);
        assert Without(order, h) == [order[0]] + Without(rest, h);
        assert order == [order[0]] + rest;
      }
    }
  }

  lemma {:induction false} FrontKeeps(order: seq<Hash>, h: Hash, size: Hash -> nat)
    requires Distinct(order) && h !in order
    ensures Distinct([h] + order) && Payloads([h] + order, size) == size(h) + Payloads(order, size)
  {
    assert ([h] + order)[1..] == order;
  }

  lemma {:induction false} TimesGrows(n: nat, size: nat)
    ensures Times(n + 1, size) == Times(n, size) + size
  {
  }

  lemma {:induction false} WithoutLast(order: seq<Hash>)
    requires Distinct(order) && order != []
    ensures Without(order, order[|order| - 1]) == order[..|order| - 1]
    decreases |order|
  {
    if |order| > 1 {
      var rest := order[1..];
      WithoutLast(rest);
      assert rest[|rest| - 1] == order[|order| - 1] && order[0] != order[|order| - 1];
      assert order[..|order| - 1] == [order[0]] + rest[..|rest| - 1];
    }
  }

  /** removeLocked: the payload is given back; an emptied segment gives back everything. */
  function Removed(s: Segment, h: Hash, size: Hash -> nat): Segment
    requires h in s.order && size(h) <= s.used
  {
    var order := Without(s.order, h);
    if order == [] then s.(order := [], used := 0, slots := 0) else s.(order := order, used := s.used - size(h))
  }

  lemma {:induction false} RemovedOk(s: Segment, h: Hash, size: Hash -> nat, fixed: nat)
    requires SegmentOk(s, size, fixed) && h in s.order
    ensures size(h) <= s.used && SegmentOk(Removed(s, h, size), size, fixed)
    ensures |Removed(s, h, size).order| == |s.order| - 1 && Removed(s, h, size).used <= s.used
  {
    WithoutKeeps(s.order, h, size);
  }

  /** A lookup moves the record to the front. */
  function Touched(s: Segment, h: Hash): Segment {
    s.(order := [h] + Without(s.order, h))
  }

  lemma {:induction false} TouchedOk(s: Segment, h: Hash, size: Hash -> nat, fixed: nat)
    requires SegmentOk(s, size, fixed) && h in s.order
    ensures SegmentOk(Touched(s, h), size, fixed)
    ensures forall x :: x in Touched(s, h).order <==> x in s.order
  {
    WithoutKeeps(s.order, h, size);
    FrontKeeps(Without(s.order, h), h, size);
  }

  /** An admitted record goes to the front and may need one more slot. */
  function Admitted(s: Segment, h: Hash, size: Hash -> nat, fixed: nat): Segment {
    var structural := if |s.order| >= s.slots then 1 else 0;
    s.(order := [h] + s.order, slots := s.slots + structural, used := s.used + Additional(s, h, size, fixed))
  }

  function Additional(s: Segment, h: Hash, size: Hash -> nat, fixed: nat): nat {
    size(h) + if |s.order| >= s.slots then fixed else 0
  }

  lemma {:induction false} AdmittedOk(s: Segment, h: Hash, size: Hash -> nat, fixed: nat)
    requires SegmentOk(s, size, fixed) && h !in s.order && s.used + Additional(s, h, size, fixed) <= s.limit
    ensures SegmentOk(Admitted(s, h, size, fixed), size, fixed)
  {
    FrontKeeps(s.order, h, size);
    TimesGrows(s.slots, fixed);
  }

  lemma {:induction false} AdmittedFields(s: Segment, h: Hash, size: Hash -> nat, fixed: nat)
    ensures Admitted(s, h, size, fixed).order == [h] + s.order && Admitted(s, h, size, fixed).limit == s.limit
    ensures Admitted(s, h, size, fixed).used == s.used + Additional(s, h, size, fixed)
  {
  }

  lemma {:induction false} EmptyUses(s: Segment, size: Hash -> nat, fixed: nat)
    requires SegmentOk(s, size, fixed)
    ensures s.used <= s.limit && |s.order| <= s.slots && (s.order == [] ==> s.used == 0 && s.slots == 0)
  {
  }

  class CleanResidency {
    const fixed: nat
    const size: Hash -> nat
    const wireSize: Hash -> nat
    const budgeted: bool

    var generation: nat
    var closed: bool
    var foreground: Segment
    var peer: Segment
    /** What the budget has been charged. */
    var charged: nat
    /** The records the store has, and which record was fetched in which generation. */
    var store: set<Hash>
    ghost var fetched: set<(nat, Hash)>

    /** An empty segment has room for the record. */
    predicate Fits(s: Segment, h: Hash) {
      s.limit > 0 && size(h) + fixed <= s.limit
    }

    ghost predicate Segments()
      reads this
    {
      && SegmentOk(foreground, size, fixed) && SegmentOk(peer, size, fixed)
      && (forall h :: h in foreground.order ==> h !in peer.order)
      && charged == if budgeted then foreground.used + peer.used else 0
    }

    /** The cache holds nothing the store does not have. */
    ghost predicate Agrees()
      reads this
    {
      && (forall h :: h in foreground.order || h in peer.order ==> h in store)
      && (forall g, h :: (g, h) in fetched ==> g <= generation && (g == generation ==> h in store))
    }

    ghost predicate Valid()
      reads this
    {
      Segments() && Agrees() && generation >= 1 && (closed ==> foreground.order == [] && peer.order == [])
    }

    /** NewCleanResidency: an eighth of the limit is for peers, if that is enough for one
        record. */
    constructor (limit: nat, fixed: nat, size: Hash -> nat, wireSize: Hash -> nat, budgeted: bool, store: set<Hash>)
      ensures Valid() && !closed && charged == 0 && this.store == store
      ensures foreground.limit + peer.limit == limit && peer.limit == if limit / 8 < fixed then 0 else limit / 8
    {
      var peerLimit := if limit / 8 < fixed then 0 else limit / 8;
      this.fixed, this.size, this.wireSize, this.budgeted := fixed, size, wireSize, budgeted;
      generation, closed, charged := 1, false, 0;
      foreground, peer := Segment(limit - peerLimit, 0, [], 0), Segment(peerLimit, 0, [], 0);
      this.store, fetched := store, {};
    }

    /** The store gains records. */
    method StoreGrows(more: set<Hash>)
      requires Valid()
      modifies `store
      ensures Valid() && store == old(store) + more
    {
      store := store + more;
    }

    /** insertLocked's loop: the oldest records make way until the new one fits, or nothing
        is left. What stays are the `kept` most recent records, all of them if the new one
        fits beside them. */
    method InsertLocked(s: Segment, h: Hash, evict: bool) returns (ok: bool, r: Segment, ghost kept: nat)
      requires SegmentOk(s, size, fixed) && (budgeted ==> s.used <= charged)
      modifies `charged
      ensures SegmentOk(r, size, fixed) && r.limit == s.limit
      ensures budgeted ==> charged - r.used == old(charged) - s.used && r.used <= charged
      ensures !budgeted ==> charged == old(charged)
      ensures (ok ==> h in r.order) && (h in s.order ==> ok && r == s)
      ensures forall x :: x in r.order ==> x in s.order || (ok && x == h)
      ensures !evict ==> if ok then r == s || r == Admitted(s, h, size, fixed) else r == s
      ensures kept <= |s.order| && r.order == (if ok && h !in s.order then [h] else []) + s.order[..kept]
      ensures !budgeted && evict ==> ok == (h in s.order || Fits(s, h))
      ensures !budgeted && h !in s.order && Fits(s, h) && s.used + Additional(s, h, size, fixed) <= s.limit ==>
        ok && kept == |s.order|
    {
      hide SegmentOk, Admitted;
      r, kept := s, |s.order|;
      assert s.order == [] + s.order[..kept];
      if h in s.order {
        return true, s, kept;
      }
      if s.limit == 0 || size(h) > s.limit || fixed > s.limit - size(h) {
        return false, s, kept;
      }
      ok := false;
      while true
        invariant SegmentOk(r, size, fixed) && r.limit == s.limit && h !in r.order
        invariant budgeted ==> charged - r.used == old(charged) - s.used && r.used <= charged
        invariant !budgeted ==> charged == old(charged)
        invariant forall x :: x in r.order ==> x in s.order
        invariant (kept == |s.order| ==> r == s) && (!evict ==> kept == |s.order|)
        invariant kept <= |s.order| && r.order == s.order[..kept]
        invariant !budgeted && kept < |s.order| ==> s.used + Additional(s, h, size, fixed) > s.limit
        decreases |r.order|
      {
        EmptyUses(r, size, fixed);
        var additional := Additional(r, h, size, fixed);
        var refused: bool := *;
        if r.used + additional <= r.limit && !(budgeted && refused) {
          AdmittedOk(r, h, size, fixed);
          AdmittedFields(r, h, size, fixed);
          r := Admitted(r, h, size, fixed);
          if budgeted {
            charged := charged + additional;
          }
          return true, r, kept;
        }
        if !evict || r.order == [] {
          assert r.order == [] + s.order[..kept];
          return false, r, kept;
        }
        r := EvictOldest(r);
        kept := kept - 1;
      }
    }

    method EvictOldest(s: Segment) returns (r: Segment)
      requires SegmentOk(s, size, fixed) && s.order != [] && (budgeted ==> s.used <= charged)
      modifies `charged
      ensures SegmentOk(r, size, fixed) && r.limit == s.limit && |r.order| == |s.order| - 1
      ensures budgeted ==> charged - r.used == old(charged) - s.used && r.used <= charged
      ensures !budgeted ==> charged == old(charged)
      ensures r.order == s.order[..|s.order| - 1]
    {
      var oldest := s.order[|s.order| - 1];
      RemovedOk(s, oldest, size, fixed);
      WithoutLast(s.order);
      r := Removed(s, oldest, size);
      if budgeted {
        charged := charged - (s.used - r.used);
      }
    }

    /** The generation a read belongs to. */
    method BeginRead() returns (gen: nat)
      ensures gen == generation
    {
      gen := generation;
    }

    /** A fetch from the store. */
    method Fetch(h: Hash) returns (found: bool)
      requires Valid()
      modifies `fetched
      ensures Valid() && found == (h in store)
      ensures fetched == old(fetched) + if found then {(generation, h)} else {}
    {
      found := h in store;
      if found {
        fetched := fetched + {(generation, h)};
      }
    }

    /** BeginMutation: the store may change arbitrarily; nothing stays resident. */
    method BeginMutation(store': set<Hash>)
      requires Valid()
      modifies `generation, `foreground, `peer, `charged, `store
      ensures Valid() && store == store' && foreground.order == [] && peer.order == [] && charged == 0
      ensures generation == old(generation) + 1
    {
      foreground, peer, charged := foreground.(used := 0, order := [], slots := 0),
        peer.(used := 0, order := [], slots := 0), 0;
      generation, store := generation + 1, store';
    }

    /** Close: every charge goes back. */
    method Close()
      requires Valid()
      modifies `closed, `foreground, `peer, `charged
      ensures Valid() && closed && charged == 0
    {
      foreground, peer, charged := foreground.(used := 0, order := [], slots := 0),
        peer.(used := 0, order := [], slots := 0), 0;
      closed := true;
    }

    /** insertForPolicy: only a record read in the current generation is admitted, so no
        record read before a mutation is resident after it. Peers never touch the
        foreground segment, and a record is in at most one segment. */
    method InsertForPolicy(gen: nat, h: Hash, policy: Policy)
      requires Valid() && (gen == 0 ==> h in store) && (gen != 0 ==> exists g :: g >= gen && (g, h) in fetched)
      modifies `foreground, `peer, `charged
      ensures Valid()
      ensures policy == Peer ==> foreground == old(foreground)
      ensures closed || (gen != 0 && gen != generation) ==> foreground == old(foreground) && peer == old(peer)
      ensures (&& !closed && !budgeted && (gen == 0 || gen == generation)
               && Fits(old(if policy == Peer then peer else foreground), h)) ==>
                h in foreground.order || (policy == Peer && h in peer.order)
    {
      if closed || (gen != 0 && gen != generation) {
        return;
      }
      assert h in store;
      if policy == Peer {
        if h in foreground.order {
          return;
        }
        InsertPeer(h);
      } else {
        InsertForeground(h, true);
      }
    }

    method InsertPeer(h: Hash)
      requires Valid() && !closed && h in store && h !in foreground.order
      modifies `peer, `charged
      ensures Valid()
      ensures !budgeted && Fits(old(peer), h) ==> h in peer.order
    {
      hide SegmentOk;
      ghost var kept;
      var ok, s;
      ok, s, kept := InsertLocked(peer, h, true);
      peer := s;
    }

    /** A record admitted to the foreground leaves the peer segment. */
    method InsertForeground(h: Hash, evict: bool)
      requires Valid() && !closed && h in store
      modifies `foreground, `peer, `charged
      ensures Valid()
      ensures !evict && h !in old(foreground.order) && h in foreground.order ==>
        foreground.order == [h] + old(foreground.order)
      ensures !evict && h !in foreground.order ==> foreground == old(foreground)
      ensures h in old(foreground.order) && !evict ==> foreground == old(foreground)
      ensures evict && !budgeted && Fits(old(foreground), h) ==> h in foreground.order
    {
      hide SegmentOk;
      ghost var kept;
      var ok, s;
      ok, s, kept := InsertLocked(foreground, h, evict);
      foreground := s;
      if ok && h in peer.order {
        RemovedOk(peer, h, size, fixed);
        var p := Removed(peer, h, size);
        RemovedOrder(peer, h, size);
        if budgeted {
          charged := charged - (peer.used - p.used);
        }
        peer := p;
      } else if !ok {
        NotBoth(old(foreground), s, peer, h);
      }
    }

    /** The record fits the caller's remaining bytes, its node identifier included; a
        negative limit stands for none. */
    predicate FitsWire(h: Hash, maxWire: int) {
      maxWire < 0 || (maxWire >= NODE_ID_BYTES && wireSize(h) <= maxWire - NODE_ID_BYTES)
    }

    /** lookupForPolicyBounded: a hit is a record the store has. A foreground hit on a peer
        record moves it over if there is room; a peer hit leaves the foreground alone. */
    method Lookup(h: Hash, policy: Policy, maxWire: int) returns (hit: bool, tooLarge: bool)
      requires Valid()
      modifies `foreground, `peer, `charged
      ensures Valid() && (hit || tooLarge ==> h in store)
      ensures hit == (h in old(foreground.order + peer.order) && FitsWire(h, maxWire))
      ensures tooLarge == (h in old(foreground.order + peer.order) && !FitsWire(h, maxWire))
      ensures policy == Peer ==> foreground == old(foreground)
      ensures !hit ==> foreground == old(foreground) && peer == old(peer)
      ensures hit && h in old(foreground.order) ==>
                peer == old(peer) && foreground == if policy == Peer then old(foreground)
                  else Touched(old(foreground), h)
      ensures hit && h !in old(foreground.order) && policy == Peer ==> peer == Touched(old(peer), h)
      ensures hit && h !in old(foreground.order) && policy == Foreground && h in foreground.order ==>
                foreground.order == [h] + old(foreground.order)
    {
      hit, tooLarge := false, false;
      if h !in foreground.order && h !in peer.order {
        return;
      }
      if !FitsWire(h, maxWire) {
        return false, true;
      }
      hit := true;
      if h in foreground.order {
        if policy == Foreground {
          TouchedOk(foreground, h, size, fixed);
          hide SegmentOk;
          foreground := Touched(foreground, h);
        }
      } else if policy == Peer {
        TouchedOk(peer, h, size, fixed);
        hide SegmentOk;
        peer := Touched(peer, h);
      } else {
        InsertForeground(h, false);
      }
    }

    /** readChild without attaching: with the cache in between, a read finds a record
        exactly when the store has it. */
    method Read(h: Hash, policy: Policy) returns (found: bool)
      requires Valid()
      modifies `foreground, `peer, `charged, `fetched
      ensures Valid() && found == (h in store)
      ensures policy == Peer ==> foreground == old(foreground)
    {
      hide Segments, Agrees;
      var gen := BeginRead();
      var hit, tooLarge := Lookup(h, policy, -1);
      if hit {
        return true;
      }
      found := Fetch(h);
      if found {
        assert (gen, h) in fetched;
        InsertForPolicy(gen, h, policy);
      }
    }
  }

  lemma {:induction false} RemovedOrder(s: Segment, h: Hash, size: Hash -> nat)
    requires h in s.order && size(h) <= s.used
    ensures forall x :: x in Removed(s, h, size).order <==> x in s.order && x != h
  {
  }

  lemma {:induction false} NotBoth(s: Segment, r: Segment, p: Segment, h: Hash)
    requires forall x :: x in r.order ==> x in s.order
    requires forall x :: x in s.order ==> x !in p.order
    ensures forall x :: x in r.order ==> x !in p.order
  {
  }
}
