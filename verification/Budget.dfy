/** The memory budget of acquisition: shamap/acquisition_budget.go and the reservations
    of shamap/acquisition_loaded.go. Six categories share a limit; in a protected budget
    five of them have a minimum that is theirs even when idle, and a parent account is
    charged for what the budget occupies. */
module Budget {
  datatype Category = Persistence | Cursor | Loaded | Processing | ReplayHead | ReplayFuture

  /** 512 MiB. */
  const DEFAULT_LIMIT: nat := 0x2000_0000
  const MAX_UINT64: nat := 0xFFFF_FFFF_FFFF_FFFF

  /** What each category holds. */
  datatype Amounts = Amounts(persistence: nat, cursor: nat, loaded: nat, processing: nat, head: nat, future: nat)

  function Held(a: Amounts, c: Category): nat {
    match c
    case Persistence => a.persistence
    case Cursor => a.cursor
    case Loaded => a.loaded
    case Processing => a.processing
    case ReplayHead => a.head
    case ReplayFuture => a.future
  }

  function With(a: Amounts, c: Category, n: nat): Amounts {
    match c
    case Persistence => a.(persistence := n)
    case Cursor => a.(cursor := n)
    case Loaded => a.(loaded := n)
    case Processing => a.(processing := n)
    case ReplayHead => a.(head := n)
    case ReplayFuture => a.(future := n)
  }

  function Total(a: Amounts): nat {
    a.persistence + a.cursor + a.loaded + a.processing + a.head + a.future
  }

  /** 64, 64, 64, 192 and 128 MiB, and nothing. */
  function Minimum(c: Category): nat {
    match c
    case Persistence => 0x400_0000
    case Cursor => 0x400_0000
    case Loaded => 0x400_0000
    case Processing => 0xC00_0000
    case ReplayHead => 0x800_0000
    case ReplayFuture => 0
  }

  /** What a category occupies: at least its minimum, if the budget is protected. */
  function Occupied(n: nat, c: Category, protected: bool): nat {
    if protected && n < Minimum(c) then Minimum(c) else n
  }

  function Effective(a: Amounts, protected: bool): nat {
    Occupied(a.persistence, Persistence, protected) + Occupied(a.cursor, Cursor, protected)
    + Occupied(a.loaded, Loaded, protected) + Occupied(a.processing, Processing, protected)
    + Occupied(a.head, ReplayHead, protected) + Occupied(a.future, ReplayFuture, protected)
  }

  /** Changing one category changes the total and the occupied space by its own share. */
  lemma {:induction false} WithShare(a: Amounts, c: Category, n: nat, protected: bool)
    ensures Held(With(a, c, n), c) == n && forall d :: d != c ==> Held(With(a, c, n), d) == Held(a, d)
    ensures Total(With(a, c, n)) == Total(a) - Held(a, c) + n
    ensures Effective(With(a, c, n), protected)
            == Effective(a, protected) - Occupied(Held(a, c), c, protected) + Occupied(n, c, protected)
    ensures Held(a, c) <= Total(a) <= Effective(a, protected)
    ensures Occupied(Held(a, c), c, protected) <= Effective(a, protected)
  {
    TotalFits(a, protected);
    hide Occupied;
    match c {
      case Persistence =>
      case Cursor =>
      case Loaded =>
      case Processing =>
      case ReplayHead =>
      case ReplayFuture =>
    }
  }

  lemma {:induction false} TotalFits(a: Amounts, protected: bool)
    ensures Total(a) <= Effective(a, protected)
  {
    OccupiedGrows(a.persistence, 0, Persistence, protected);
    OccupiedGrows(a.cursor, 0, Cursor, protected);
    OccupiedGrows(a.loaded, 0, Loaded, protected);
    OccupiedGrows(a.processing, 0, Processing, protected);
    OccupiedGrows(a.head, 0, ReplayHead, protected);
    OccupiedGrows(a.future, 0, ReplayFuture, protected);
    hide Occupied;
  }

  lemma {:induction false} WithSame(a: Amounts, c: Category)
    ensures With(a, c, Held(a, c)) == a
  {
  }

  /** A category that grows occupies more, but not inside its minimum. */
  lemma {:induction false} OccupiedGrows(n: nat, bytes: nat, c: Category, protected: bool)
    ensures n <= Occupied(n, c, protected) <= Occupied(n + bytes, c, protected) <= Occupied(n, c, protected) + bytes
    ensures protected && n + bytes <= Minimum(c) ==> Occupied(n + bytes, c, protected) == Occupied(n, c, protected)
    ensures Minimum(c) <= MAX_UINT64
  {
  }

  /** Nothing is held. */
  predicate Idle(a: Amounts) {
    a.persistence == 0 && a.cursor == 0 && a.loaded == 0 && a.processing == 0 && a.head == 0 && a.future == 0
  }

  lemma {:induction false} IdleProtected(a: Amounts)
    requires Idle(a)
    ensures Effective(a, true) == DEFAULT_LIMIT
  {
  }

  lemma {:induction false} IdleOpen(a: Amounts)
    requires Idle(a)
    ensures Effective(a, false) == 0
  {
  }

  /** Idle, a protected budget occupies the sum of the minimums, which is the default
      limit. */
  lemma {:induction false} IdleOccupies(a: Amounts, protected: bool)
    requires Idle(a)
    ensures Total(a) == 0 && Effective(a, protected) == if protected then DEFAULT_LIMIT else 0
  {
    hide Effective;
    if protected {
      IdleProtected(a);
    } else {
      IdleOpen(a);
    }
  }

  lemma {:induction false} TotalZero(a: Amounts)
    requires Total(a) == 0
    ensures Idle(a)
  {
  }

  class AcquisitionBudget {
    const limit: nat
    var amounts: Amounts
    var used: nat
    var peak: nat
    var hasParent: bool
    var parentMinimum: nat
    var protected: bool
    var closed: bool
    /** What the parent account has been charged on behalf of this budget. */
    var parentCharged: nat

    /** In every reachable state: the total is the sum of the categories, the occupied
        space is within the limit, and the parent is charged exactly for it. */
    ghost predicate Valid()
      reads this
    {
      && used == Total(amounts) <= peak
      && Effective(amounts, protected) <= limit <= MAX_UINT64
      && parentCharged == (if hasParent then Effective(amounts, protected) else 0)
      && parentMinimum == (if protected then DEFAULT_LIMIT else 0)
      && (protected ==> hasParent && !closed && limit >= DEFAULT_LIMIT)
      && (closed ==> !hasParent && used == 0)
    }

    /** NewAcquisitionBudget: standing alone. */
    constructor Alone(limit: nat)
      requires limit <= MAX_UINT64
      ensures Valid() && this.limit == (if limit == 0 then DEFAULT_LIMIT else limit) && Idle(amounts)
      ensures !closed && !hasParent && !protected
    {
      hide Effective, Total, Occupied;
      var nothing := Amounts(0, 0, 0, 0, 0, 0);
      IdleOccupies(nothing, false);
      this.limit := if limit == 0 then DEFAULT_LIMIT else limit;
      amounts, used, peak, hasParent, parentMinimum, protected, closed, parentCharged := nothing, 0, 0, false, 0,
        false, false, 0;
    }

    /** NewAcquisitionBudgetWithParent, when the parent has admitted the protected
        minimum or the limit is too small for one. */
    constructor UnderParent(limit: nat)
      requires limit <= MAX_UINT64
      ensures Valid() && this.limit == (if limit == 0 then DEFAULT_LIMIT else limit) && Idle(amounts)
      ensures !closed && hasParent && protected == (this.limit >= DEFAULT_LIMIT)
      ensures parentCharged == if protected then DEFAULT_LIMIT else 0
    {
      hide Effective, Total, Occupied;
      var n := if limit == 0 then DEFAULT_LIMIT else limit;
      var nothing := Amounts(0, 0, 0, 0, 0, 0);
      IdleOccupies(nothing, n >= DEFAULT_LIMIT);
      this.limit := n;
      amounts, used, peak, hasParent, closed := nothing, 0, 0, true, false;
      protected := n >= DEFAULT_LIMIT;
      parentMinimum := if n >= DEFAULT_LIMIT then DEFAULT_LIMIT else 0;
      parentCharged := if n >= DEFAULT_LIMIT then DEFAULT_LIMIT else 0;
    }

    /** A request is granted exactly if it is empty, or the budget is open, the space then
        occupied is within the limit, and the parent admits what is occupied in addition. */
    predicate Grants(c: Category, bytes: nat, admits: nat -> bool)
      reads this
    {
      var before, after := Effective(amounts, protected),
        Effective(With(amounts, c, Held(amounts, c) + bytes), protected);
      bytes == 0 || (!closed && after <= limit && (hasParent && after > before ==> admits(after - before)))
    }

    /** What a reservation within the budget's own rules comes down to: the categories'
        other amounts stay, a refusal changes nothing, and inside the category's
        minimum an open, protected budget never refuses. */
    twostate predicate Reserved(c: Category, bytes: nat, ok: bool)
      reads this
    {
      && (if ok then amounts == With(old(amounts), c, Held(old(amounts), c) + bytes)
          else amounts == old(amounts) && parentCharged == old(parentCharged))
      && protected == old(protected) && closed == old(closed) && hasParent == old(hasParent)
      && (old(!closed && protected && Held(amounts, c) + bytes <= Minimum(c)) ==>
        ok && parentCharged == old(parentCharged))
    }

    /** reserveCategoryLocked. What the parent account would admit is its own business. */
    method Reserve(c: Category, bytes: nat, admits: nat -> bool) returns (ok: bool)
      requires Valid()
      modifies `amounts, `used, `peak, `parentCharged
      ensures Valid() && Reserved(c, bytes, ok) && ok == old(Grants(c, bytes, admits))
    {
      hide Effective, Total, Occupied, Held, With, Minimum, Grants;
      if bytes == 0 {
        WithSame(amounts, c);
        NothingAsked(c, admits);
        return true;
      }
      Growth(c, bytes, admits);
      if closed {
        return false;
      }
      var before := Effective(amounts, protected);
      var held := Held(amounts, c);
      if held > MAX_UINT64 - bytes {
        return false;
      }
      var delta := Occupied(held + bytes, c, protected) - Occupied(held, c, protected);
      if before > limit || delta > limit - before {
        return false;
      }
      if delta != 0 && hasParent {
        if !admits(delta) {
          return false;
        }
        parentCharged := parentCharged + delta;
      }
      amounts, used := With(amounts, c, held + bytes), used + bytes;
      peak := if used > peak then used else peak;
      ok := true;
    }

    lemma {:induction false} NothingAsked(c: Category, admits: nat -> bool)
      ensures Grants(c, 0, admits)
    {
      hide Effective, With;
    }

    /** What a request adds to the total and to the occupied space, and how the space it
        adds decides it. */
    lemma {:induction false} Growth(c: Category, bytes: nat, admits: nat -> bool)
      requires Valid() && bytes > 0
      ensures var held, after := Held(amounts, c), With(amounts, c, Held(amounts, c) + bytes);
        var delta := Occupied(held + bytes, c, protected) - Occupied(held, c, protected);
        && Effective(after, protected) == Effective(amounts, protected) + delta && delta >= 0
        && Total(after) == Total(amounts) + bytes
        && (protected && held + bytes <= Minimum(c) ==> delta == 0 && held + bytes <= MAX_UINT64)
        && (Grants(c, bytes, admits) <==>
              && !closed && held <= MAX_UINT64 - bytes && delta <= limit - Effective(amounts, protected)
              && (delta != 0 && hasParent ==> admits(delta)))
    {
      hide Effective, Total, Held, With, Occupied, Minimum;
      var held := Held(amounts, c);
      OccupiedGrows(held, bytes, c, protected);
      WithShare(amounts, c, held + bytes, protected);
      if held > MAX_UINT64 - bytes {
        WithShare(With(amounts, c, held + bytes), c, 0, protected);
      }
    }

    /** releaseCategoryLocked; releasing more than is held would be a fault. */
    method Release(c: Category, bytes: nat)
      requires Valid() && bytes <= Held(amounts, c)
      modifies `amounts, `used, `parentCharged
      ensures Valid() && amounts == With(old(amounts), c, Held(old(amounts), c) - bytes)
      ensures parentCharged <= old(parentCharged)
    {
      hide Effective, Total, Occupied, Held, With, Minimum;
      var held := Held(amounts, c);
      if bytes == 0 {
        WithSame(amounts, c);
        return;
      }
      WithShare(amounts, c, held - bytes, protected);
      OccupiedGrows(held - bytes, bytes, c, protected);
      var before := Effective(amounts, protected);
      var after := before - Occupied(held, c, protected) + Occupied(held - bytes, c, protected);
      amounts, used := With(amounts, c, held - bytes), used - bytes;
      if before > after && hasParent {
        parentCharged := parentCharged - (before - after);
      }
    }

    /** tryReserveCursor and tryReserveLoaded: these two may hold at most a quarter of the
        limit, which covers their minimum. */
    method ReserveQuarter(c: Category, bytes: nat, admits: nat -> bool) returns (ok: bool)
      requires Valid() && (c == Cursor || c == Loaded)
      modifies `amounts, `used, `peak, `parentCharged
      ensures Valid() && Reserved(c, bytes, ok)
      ensures ok == (old(Grants(c, bytes, admits)) && (bytes == 0 || old(Held(amounts, c)) + bytes <= limit / 4))
      ensures ok && bytes > 0 ==> Held(amounts, c) <= limit / 4
    {
      if bytes > 0 && (Held(amounts, c) > limit / 4 || bytes > limit / 4 - Held(amounts, c)) {
        return false;
      }
      hide Effective, Total, Occupied, With;
      ok := Reserve(c, bytes, admits);
      WithShare(old(amounts), c, Held(old(amounts), c) + bytes, protected);
    }

    /** PromoteReplayHead: bytes move from prepared data to the head. The total stays, and
        entering the head's minimum can only free space. */
    method PromoteReplayHead(bytes: nat) returns (ok: bool)
      requires Valid()
      modifies `amounts, `parentCharged
      ensures Valid() && parentCharged <= old(parentCharged) && Total(amounts) == old(Total(amounts))
      ensures ok == (bytes == 0 || (!closed && bytes <= old(amounts.future) && bytes <= MAX_UINT64 - old(amounts.head)))
      ensures amounts == if ok
        then old(amounts).(future := old(amounts.future) - bytes, head := old(amounts.head) + bytes) else old(amounts)
    {
      if bytes == 0 {
        return true;
      }
      if closed || bytes > amounts.future || bytes > MAX_UINT64 - amounts.head {
        return false;
      }
      var before := Effective(amounts, protected);
      amounts := amounts.(future := amounts.future - bytes, head := amounts.head + bytes);
      var after := Effective(amounts, protected);
      if before > after && hasParent {
        parentCharged := parentCharged - (before - after);
      }
      ok := true;
    }

    /** Close: once nothing is held the parent gets everything back. */
    method Close() returns (ok: bool)
      requires Valid()
      modifies `closed, `hasParent, `parentMinimum, `protected, `parentCharged
      ensures Valid() && ok == (old(closed) || used == 0)
      ensures if ok then closed && parentCharged == 0 else parentCharged == old(parentCharged) && closed == old(closed)
    {
      hide Effective, Total, Occupied, Idle;
      if closed {
        return true;
      }
      if used != 0 {
        return false;
      }
      TotalZero(amounts);
      IdleOccupies(amounts, protected);
      IdleOccupies(amounts, false);
      if hasParent && parentMinimum != 0 {
        parentCharged := parentCharged - parentMinimum;
      }
      closed, hasParent, parentMinimum, protected := true, false, 0, false;
      ok := true;
    }
  }

  /** Whatever the other categories hold, the space they occupy leaves every category its
      minimum: that is why a protected reservation cannot be starved. */
  lemma {:induction false} MinimumIsFree(a: Amounts, c: Category, bytes: nat)
    requires Held(a, c) + bytes <= Minimum(c)
    ensures Effective(With(a, c, Held(a, c) + bytes), true) == Effective(a, true)
  {
    WithShare(a, c, Held(a, c) + bytes, true);
  }
}
