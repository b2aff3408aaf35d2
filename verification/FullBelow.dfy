/** The shared cache of subtrees proven complete: shamap/fullbelow.go. Each shard keeps
    two generations of marks and forgets the older one as time passes or space runs
    out. */
module FullBelow {
  import opened Hashing

  const ENTRY_BYTES: nat := 64
  const STRUCTURAL_BYTES: nat := 128
  const SHARDS: nat := 16
  const MAX_GENERATION: nat := 0xFFFF_FFFF

  /** fullBelowShard. */
  datatype Shard = Shard(
    target: nat,
    current: set<Hash>,
    previous: set<Hash>,
    lastRotation: int,
    slots: nat)

  function CurrentLimit(target: nat): nat {
    if target / 2 == 0 then 1 else target / 2
  }

  function Live(s: Shard): set<Hash> {
    s.current + s.previous
  }

  /** The two generations are disjoint and together within the target. */
  ghost predicate ShardOk(s: Shard) {
    && s.target > 0 && s.current !! s.previous
    && |s.current| <= CurrentLimit(s.target) && |s.previous| <= CurrentLimit(s.target)
    && (s.target == 1 ==> s.previous == {})
    && s.slots <= s.target
  }

  lemma {:induction false} WithinTarget(s: Shard)
    requires ShardOk(s)
    ensures |Live(s)| == |s.current| + |s.previous| <= s.target
  {
    DisjointSize(s.current, s.previous);
  }

  lemma {:induction false} DisjointSize<T>(a: set<T>, b: set<T>)
    requires a !! b
    ensures |a + b| == |a| + |b|
    decreases |a|
  {
    if a == {} {
      assert a + b == b;
    } else {
      var x :| x in a;
      DisjointSize(a - {x}, b);
      assert a + b == (a - {x} + b) + {x};
    }
  }

  /** What a shard is charged: its live marks and the slots its tables have grown to. */
  function ShardCharge(s: Shard): nat {
    ENTRY_BYTES * (|s.current| + |s.previous|) + STRUCTURAL_BYTES * s.slots
  }

  lemma {:induction false} ChargeBound(s: Shard)
    requires ShardOk(s)
    ensures ShardCharge(s) <= s.target * (ENTRY_BYTES + STRUCTURAL_BYTES)
  {
    WithinTarget(s);
  }

  /** advance: after half the target age the older generation is forgotten, after the
      whole age both are. A clock that went back only resets the timer. */
  method Advance(s: Shard, now: int, targetAge: nat) returns (r: Shard, evicted: nat)
    requires ShardOk(s) && targetAge > 0
    ensures ShardOk(r) && Aged(s, r, now, targetAge)
    ensures ShardCharge(r) == ShardCharge(s) - ENTRY_BYTES * evicted
  {
    if now < s.lastRotation {
      return s.(lastRotation := now), 0;
    }
    if now - s.lastRotation >= targetAge {
      return s.(current := {}, previous := {}, lastRotation := now), |s.current| + |s.previous|;
    }
    if s.target == 1 || now - s.lastRotation < targetAge / 2 {
      return s, 0;
    }
    return s.(current := {}, previous := s.current, lastRotation := now), |s.previous|;
  }

  /** What time does to a shard: nothing before half the target age, then the older marks
      go, and after the whole age all of them. */
  ghost predicate Aged(s: Shard, r: Shard, now: int, targetAge: nat) {
    && r.target == s.target && r.slots == s.slots
    && (now - s.lastRotation >= targetAge ==> Live(r) == {})
    && (now - s.lastRotation < targetAge ==> s.current <= Live(r) <= Live(s))
    && (now - s.lastRotation < targetAge / 2 ==> Live(r) == Live(s))
    && (s.target > 1 && targetAge / 2 <= now - s.lastRotation < targetAge ==> Live(r) == s.current)
  }

  /** makeRoom: a full current generation becomes the older one. */
  method MakeRoom(s: Shard, now: int) returns (r: Shard, evicted: nat)
    requires ShardOk(s)
    ensures ShardOk(r) && r.target == s.target && r.slots == s.slots && Live(r) <= Live(s)
    ensures |r.current| < CurrentLimit(r.target)
    ensures ShardCharge(r) == ShardCharge(s) - ENTRY_BYTES * evicted
    ensures s.target > 1 ==> s.current <= Live(r)
    ensures |s.current| < CurrentLimit(s.target) ==> r == s
  {
    if |s.current| < CurrentLimit(s.target) {
      return s, 0;
    }
    if s.target == 1 {
      return s.(current := {}, lastRotation := now), |s.current|;
    }
    return s.(current := {}, previous := s.current, lastRotation := now), |s.previous|;
  }

  // -------------------------------------------------------------------- the cache

  function TotalCharge(shards: seq<Shard>): nat {
    if shards == [] then 0 else ShardCharge(shards[0]) + TotalCharge(shards[1..])
  }

  lemma {:induction false} TotalUpdate(shards: seq<Shard>, i: nat, s: Shard)
    requires i < |shards|
    ensures TotalCharge(shards[i := s]) == TotalCharge(shards) - ShardCharge(shards[i]) + ShardCharge(s)
    ensures ShardCharge(shards[i]) <= TotalCharge(shards)
    decreases |shards|
  {
    hide ShardCharge;
    if i == 0 {
      assert shards[i := s][1..] == shards[1..];
    } else {
      assert shards[i := s][1..] == shards[1..][i - 1 := s];
      TotalUpdate(shards[1..], i - 1, s);
    }
  }

  function Targets(shards: seq<Shard>): nat {
    if shards == [] then 0 else shards[0].target + Targets(shards[1..])
  }

  /** The whole cache is never charged more than its target allows. */
  lemma {:induction false} TotalBound(shards: seq<Shard>)
    requires forall i :: 0 <= i < |shards| ==> ShardOk(shards[i])
    ensures TotalCharge(shards) <= Targets(shards) * (ENTRY_BYTES + STRUCTURAL_BYTES)
    decreases |shards|
  {
    if shards != [] {
      ChargeBound(shards[0]);
      TotalBound(shards[1..]);
    }
  }

  /** The shards newFullBelowCacheWithClockAndBudget makes: the target is spread evenly. */
  function NewShards(target: nat, count: nat, n: nat, now: int): (r: seq<Shard>)
    requires 0 < count <= target && n <= count
    ensures |r| == n && forall i :: 0 <= i < n ==>
      r[i] == Shard(target / count + (if i < target % count then 1 else 0), {}, {}, now, 0)
  {
    seq(n, i requires 0 <= i < n => Shard(target / count + (if i < target % count then 1 else 0), {}, {}, now, 0))
  }

  lemma {:induction false} NewTargets(shards: seq<Shard>, q: nat, r: nat)
    requires forall i :: 0 <= i < |shards| ==> shards[i].target == q + if i < r then 1 else 0
    requires r <= |shards|
    ensures Targets(shards) == q * |shards| + r
    decreases |shards|
  {
    if shards != [] {
      NewTargets(shards[1..], q, if r > 0 then r - 1 else 0);
    }
  }

  lemma {:induction false} NewTotal(shards: seq<Shard>)
    requires forall i :: 0 <= i < |shards| ==> Live(shards[i]) == {} && shards[i].slots == 0
    ensures TotalCharge(shards) == 0
    decreases |shards|
  {
    if shards != [] {
      NewTotal(shards[1..]);
    }
  }

  ghost predicate AllOk(shards: seq<Shard>, inserted: set<Hash>) {
    forall i :: 0 <= i < |shards| ==> ShardOk(shards[i]) && Live(shards[i]) <= inserted
  }

  lemma {:induction false} TargetsUpdate(shards: seq<Shard>, i: nat, s: Shard)
    requires i < |shards| && s.target == shards[i].target
    ensures Targets(shards[i := s]) == Targets(shards)
    decreases |shards|
  {
    if i == 0 {
      assert shards[i := s][1..] == shards[1..];
    } else {
      assert shards[i := s][1..] == shards[1..][i - 1 := s];
      TargetsUpdate(shards[1..], i - 1, s);
    }
  }

  function NextGeneration(g: nat): nat {
    if g >= MAX_GENERATION then 1 else g + 1
  }

  const NO_SHARD: Shard := Shard(0, {}, {}, 0, 0)

  /** No newer mark is lost, and none at all if there was room. */
  ghost predicate KeepsNewer(s: Shard, r: Shard) {
    s.current <= Live(r) && (|s.current| < CurrentLimit(s.target) ==> Live(s) <= Live(r))
  }

  /** The first n shards have aged, the others are as they were. */
  ghost predicate AllAged(was: seq<Shard>, shards: seq<Shard>, n: nat, now: int, targetAge: nat) {
    && |shards| == |was|
    && forall i :: 0 <= i < |was| ==> if i < n then Aged(was[i], shards[i], now, targetAge) else shards[i] == was[i]
  }

  class FullBelowCache {
    const targetSize: nat
    const targetAge: nat
    const budgeted: bool
    /** The byte of a hash that selects its shard. */
    const pick: Hash -> nat

    var generation: nat
    var closed: bool
    var shards: seq<Shard>
    /** The durable store's fingerprint, zero if none, and the generation it was bound in. */
    var fingerprint: int
    var fingerprintGeneration: nat
    /** What the budget has been charged. */
    var charged: nat
    /** The marks inserted since the generation began. */
    ghost var inserted: set<Hash>

    ghost predicate Valid()
      reads this
    {
      && targetAge > 0 && targetSize > 0 && 1 <= generation <= MAX_GENERATION
      && (closed ==> charged == 0)
      && (!closed ==>
            && shards != [] && AllOk(shards, inserted) && Targets(shards) == targetSize
            && charged == if budgeted then TotalCharge(shards) else 0)
    }

    constructor (targetSize: nat, targetAge: nat, budgeted: bool, pick: Hash -> nat, now: int)
      requires targetSize > 0 && targetAge > 0
      ensures Valid() && !closed && generation == 1 && charged == 0 && inserted == {} && this.targetSize == targetSize
    {
      var count := if SHARDS < targetSize then SHARDS else targetSize;
      var fresh0 := NewShards(targetSize, count, count, now);
      NewTargets(fresh0, targetSize / count, targetSize % count);
      NewTotal(fresh0);
      assert targetSize / count >= 1;
      this.targetSize, this.targetAge, this.budgeted, this.pick := targetSize, targetAge, budgeted, pick;
      generation, closed, shards, fingerprint, fingerprintGeneration, charged := 1, false, fresh0, 0, 0, 0;
      inserted := {};
    }

    /** The cache never holds more than it was given room for. */
    lemma {:induction false} Bounded()
      requires Valid()
      ensures charged <= targetSize * (ENTRY_BYTES + STRUCTURAL_BYTES)
    {
      if !closed {
        TotalBound(shards);
      }
    }

    /** Puts a shard back; what it let go is released. */
    method Store(i: nat, s: Shard)
      requires Valid() && !closed && i < |shards| && ShardOk(s) && s.target == shards[i].target
      requires Live(s) <= inserted && ShardCharge(s) <= ShardCharge(shards[i])
      modifies `shards, `charged
      ensures Valid() && shards == old(shards)[i := s] && charged <= old(charged)
    {
      TotalUpdate(shards, i, s);
      TargetsUpdate(shards, i, s);
      hide ShardCharge, ShardOk, Live, TotalCharge, Targets;
      if budgeted {
        charged := charged - (ShardCharge(shards[i]) - ShardCharge(s));
      }
      shards := shards[i := s];
    }

    /** The shard of a hash. */
    function ShardOf(hash: Hash, n: nat): (i: nat)
      requires n > 0
      ensures i < n
    {
      pick(hash) % n
    }

    /** A lookup in an advanced shard; a mark found is moved to the newer generation. */
    method Refresh(s: Shard, hash: Hash, now: int) returns (hit: bool, r: Shard)
      requires ShardOk(s)
      ensures ShardOk(r) && r.target == s.target && r.slots == s.slots && Live(r) <= Live(s)
        && ShardCharge(r) <= ShardCharge(s)
      ensures hit == (hash in Live(s)) && (if hit then hash in r.current && KeepsNewer(s, r) else r == s)
    {
      if hash in s.current {
        return true, s.(lastRotation := if s.target == 1 then now else s.lastRotation);
      }
      if hash in s.previous {
        r := Promote(s, hash, now);
        return true, r;
      }
      return false, s;
    }

    /** Has: the shard of the mark ages first; then a hit means that the mark is there, and
        so was inserted in this very generation. It is moved to the newer marks. The other
        shards stay. */
    method Has(gen: nat, hash: Hash, now: int) returns (hit: bool, ghost aged: Shard)
      requires Valid()
      modifies `shards, `charged
      ensures Valid() && (hit ==> !closed && gen == generation && hash in inserted)
      ensures closed || gen != generation ==> !hit && shards == old(shards) && charged == old(charged)
      ensures |shards| == |old(shards)|
      ensures !closed && gen == generation ==>
        var i := ShardOf(hash, |shards|);
        && Aged(old(shards)[i], aged, now, targetAge) && hit == (hash in Live(aged))
          && shards == old(shards)[i := shards[i]]
        && if hit then hash in shards[i].current && Live(shards[i]) <= Live(aged) && KeepsNewer(aged, shards[i])
           else shards[i] == aged
    {
      aged := NO_SHARD;
      if closed || gen != generation {
        return false, aged;
      }
      hide ShardCharge, ShardOk, TotalCharge, Targets;
      var i := ShardOf(hash, |shards|);
      hide ShardOf;
      var s, evicted := Advance(shards[i], now, targetAge);
      aged := s;
      hit, s := Refresh(s, hash, now);
      Store(i, s);
    }

    /** Moves a mark from the older to the newer generation. */
    method Promote(s: Shard, hash: Hash, now: int) returns (r: Shard)
      requires ShardOk(s) && hash in s.previous
      ensures ShardOk(r) && r.target == s.target && r.slots == s.slots && Live(r) <= Live(s)
      ensures ShardCharge(r) <= ShardCharge(s) && hash in r.current && KeepsNewer(s, r)
    {
      var without := s.(previous := s.previous - {hash});
      var evicted;
      r, evicted := MakeRoom(without, now);
      r := r.(current := r.current + {hash});
    }

    /** Insert: a known mark is refreshed; a new one needs room, and the budget's leave. */
    method Insert(gen: nat, hash: Hash, now: int) returns (stored: bool)
      requires Valid()
      modifies `shards, `charged, `inserted
      ensures Valid() && generation == old(generation)
      ensures inserted == old(inserted) + if stored then {hash} else {}
      ensures stored ==> !closed && gen == generation && hash in shards[ShardOf(hash, |shards|)].current
      ensures !budgeted && !closed && gen == generation ==> stored
    {
      hide ShardCharge, ShardOk, TotalCharge, Targets, AllOk;
      if closed || gen != generation {
        return false;
      }
      var i := ShardOf(hash, |shards|);
      hide ShardOf;
      ShardIsOk(shards, inserted, i);
      var s, evicted := Advance(shards[i], now, targetAge);
      var hit;
      hit, s := Refresh(s, hash, now);
      if hit {
        Store(i, s);
        assert inserted + {hash} == inserted;
        return true;
      }
      stored := InsertNew(i, s, hash, now);
    }

    method InsertNew(i: nat, s: Shard, hash: Hash, now: int) returns (stored: bool)
      requires Valid() && !closed && i < |shards| && ShardOk(s) && s.target == shards[i].target
      requires Live(s) <= Live(shards[i]) && ShardCharge(s) <= ShardCharge(shards[i]) && hash !in Live(s)
      modifies `shards, `charged, `inserted
      ensures Valid() && inserted == old(inserted) + if stored then {hash} else {}
      ensures |shards| == |old(shards)| && (stored ==> hash in shards[i].current) && (!budgeted ==> stored)
    {
      hide ShardCharge, ShardOk, TotalCharge, Targets;
      assert Live(shards[i]) <= inserted;
      var r, evicted := MakeRoom(s, now);
      Store(i, r);
      stored := Admit(i, hash);
    }

    method Admit(i: nat, hash: Hash) returns (stored: bool)
      requires Valid() && !closed && i < |shards| && hash !in Live(shards[i])
        && |shards[i].current| < CurrentLimit(shards[i].target)
      modifies `shards, `charged, `inserted
      ensures Valid() && inserted == old(inserted) + if stored then {hash} else {}
      ensures |shards| == |old(shards)| && (stored ==> hash in shards[i].current) && (!budgeted ==> stored)
    {
      hide ShardOk, Live, TotalCharge, Targets, AllOk, ShardCharge;
      var s := shards[i];
      var structural := if s.slots < s.target then 1 else 0;
      var refused: bool := *;
      if budgeted && refused {
        return false;
      }
      var s' := s.(current := s.current + {hash}, slots := s.slots + structural);
      AdmitOk(shards, inserted, i, hash, structural);
      if budgeted {
        charged := charged + ENTRY_BYTES + STRUCTURAL_BYTES * structural;
      }
      shards, inserted := shards[i := s'], inserted + {hash};
      stored := true;
    }

    /** BeginMutation: a new generation without marks, bound to no store. */
    method BeginMutation(now: int)
      requires Valid()
      modifies `generation, `shards, `charged, `inserted, `fingerprint, `fingerprintGeneration
      ensures Valid() && generation == NextGeneration(old(generation)) && inserted == {} && fingerprint == 0
      ensures !closed ==> forall i :: 0 <= i < |shards| ==> Live(shards[i]) == {}
    {
      Reset(now);
      fingerprint, fingerprintGeneration := 0, 0;
    }

    method Reset(now: int)
      requires Valid()
      modifies `generation, `shards, `charged, `inserted
      ensures Valid() && generation == NextGeneration(old(generation)) && inserted == {}
      ensures !closed ==> forall i :: 0 <= i < |shards| ==> Live(shards[i]) == {}
    {
      generation := NextGeneration(generation);
      if closed {
        inserted := {};
        return;
      }
      for i := 0 to |shards|
        invariant Valid() && !closed && |shards| == |old(shards)| && generation == NextGeneration(old(generation))
        invariant forall j :: 0 <= j < i ==> Live(shards[j]) == {}
      {
        Store(i, shards[i].(current := {}, previous := {}, lastRotation := now));
      }
      inserted := {};
    }

    /** EnsureDurableFingerprint: marks survive only in the store they were proven in. */
    method EnsureDurableFingerprint(f: int, now: int) returns (gen: nat)
      requires Valid()
      modifies `generation, `shards, `charged, `inserted, `fingerprint, `fingerprintGeneration
      ensures Valid()
      ensures f == 0 ==> gen == 0 && inserted == old(inserted) && generation == old(generation)
      ensures f != 0 ==> gen == generation && fingerprint == f && fingerprintGeneration == generation
      ensures f != 0 && (old(fingerprint) != f || old(fingerprintGeneration) != old(generation)) ==> inserted == {}
    {
      if f == 0 {
        return 0;
      }
      if fingerprintGeneration == generation && fingerprint == f {
        return generation;
      }
      Reset(now);
      fingerprintGeneration, fingerprint := generation, f;
      gen := generation;
    }

    /** BindDurableFingerprint: one generation is bound to at most one store. */
    method BindDurableFingerprint(gen: nat, f: int) returns (ok: bool)
      requires Valid()
      modifies `fingerprint, `fingerprintGeneration
      ensures Valid()
      ensures ok <==>
        && gen == generation && f != 0
        && old(fingerprintGeneration == generation && fingerprint != 0 ==> fingerprint == f)
      ensures if ok then fingerprintGeneration == generation && fingerprint == f
              else fingerprintGeneration == old(fingerprintGeneration) && fingerprint == old(fingerprint)
    {
      if gen == 0 || f == 0 || gen != generation {
        return false;
      }
      if fingerprintGeneration == gen && fingerprint != 0 && fingerprint != f {
        return false;
      }
      fingerprintGeneration, fingerprint := gen, f;
      ok := true;
    }

    /** Sweep: every shard's clock is advanced, and the charge follows. */
    method Sweep(now: int)
      requires Valid()
      modifies `shards, `charged
      ensures Valid() && charged <= old(charged)
      ensures if closed then shards == old(shards) else AllAged(old(shards), shards, |shards|, now, targetAge)
    {
      if closed {
        return;
      }
      for i := 0 to |shards|
        invariant Valid() && !closed && charged <= old(charged)
        invariant AllAged(old(shards), shards, i, now, targetAge)
      {
        var s, evicted := Advance(shards[i], now, targetAge);
        Store(i, s);
      }
    }

    /** Close: every byte goes back. */
    method Close()
      requires Valid()
      modifies `closed, `shards, `charged
      ensures Valid() && closed && charged == 0
    {
      if closed {
        return;
      }
      ghost var n := |shards|;
      while shards != []
        invariant charged == if budgeted then TotalCharge(shards) else 0
      {
        if budgeted {
          charged := charged - ShardCharge(shards[0]);
        }
        shards := shards[1..];
      }
      closed := true;
    }
  }

  lemma {:induction false} ShardIsOk(shards: seq<Shard>, inserted: set<Hash>, i: nat)
    requires AllOk(shards, inserted) && i < |shards|
    ensures ShardOk(shards[i]) && Live(shards[i]) <= inserted
  {
  }

  lemma {:induction false} AdmitOk(shards: seq<Shard>, inserted: set<Hash>, i: nat, hash: Hash, structural: nat)
    requires AllOk(shards, inserted) && i < |shards|
    requires hash !in Live(shards[i]) && |shards[i].current| < CurrentLimit(shards[i].target)
    requires structural == if shards[i].slots < shards[i].target then 1 else 0
    ensures var s' := shards[i].(current := shards[i].current + {hash}, slots := shards[i].slots + structural);
      && AllOk(shards[i := s'], inserted + {hash}) && Targets(shards[i := s']) == Targets(shards)
      && TotalCharge(shards[i := s']) == TotalCharge(shards) + ENTRY_BYTES + STRUCTURAL_BYTES * structural
  {
    hide Live, TotalCharge, Targets, ShardCharge, ShardOk;
    var s' := shards[i].(current := shards[i].current + {hash}, slots := shards[i].slots + structural);
    TotalUpdate(shards, i, s');
    TargetsUpdate(shards, i, s');
    Grown(shards[i], hash, structural);
    AllOkGrows(shards, inserted, i, s', hash);
  }

  lemma {:induction false} Grown(s: Shard, hash: Hash, structural: nat)
    requires ShardOk(s) && hash !in Live(s) && |s.current| < CurrentLimit(s.target)
    requires structural == if s.slots < s.target then 1 else 0
    ensures var s' := s.(current := s.current + {hash}, slots := s.slots + structural);
      && ShardOk(s') && Live(s') == Live(s) + {hash}
      && ShardCharge(s') == ShardCharge(s) + ENTRY_BYTES + STRUCTURAL_BYTES * structural
  {
  }

  lemma {:induction false} AllOkGrows(shards: seq<Shard>, inserted: set<Hash>, i: nat, s: Shard, hash: Hash)
    requires AllOk(shards, inserted) && i < |shards| && ShardOk(s) && Live(s) == Live(shards[i]) + {hash}
    ensures AllOk(shards[i := s], inserted + {hash})
  {
  }
}
