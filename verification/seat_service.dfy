/**
 * The seat service: the seat map of a showtime, reconciled from durable BOOKED rows and
 * live locks with the priority BOOKED > HOLD > AVAILABLE; holding and releasing lists of
 * seats one seat at a time; the advisory available count; and turning a user's locks into
 * BOOKED rows after payment.
 */
module SeatService {
  import opened Wrappers
  import opened Errors
  import opened Catalog
  import opened SeatRepo
  import opened SeatLocks

  /** One entry of the seat map. */
  datatype SeatView = SeatView(seatId: nat, seatName: string, seatType: string, price: int, status: SeatStatus,
                               holdByUserId: Option<nat>, holdExpiredAt: Option<int>)

  /** One entry of the answer to a hold request. */
  datatype HoldView = HoldView(seatId: nat, seatName: string, status: SeatStatus, holdExpiredAt: int)

  datatype ReleaseSummary = ReleaseSummary(releasedCount: nat, totalRequested: nat, failedSeats: seq<nat>)

  /** The hold expiry the seat map reports for a lock, as the seat map computes it: lock time plus remaining time-to-live. */
  function HoldExpiredAtAsWritten(info: LockInfo): int {
    info.lockedAt + info.ttlRemaining
  }

  /** Lock time plus remaining time-to-live falls short of the true expiry once any time has passed since locking. */
  lemma HoldExpiredAtAsWrittenIsEarly(store: SeatLockStore, showtime: nat, seat: nat)
    requires store.Valid() && (showtime, seat) in store.locks && store.locks[(showtime, seat)].Held?
    requires store.locks[(showtime, seat)].lockedAt < store.now
    ensures store.GetSeatLockInfo(showtime, seat).Some?
    ensures HoldExpiredAtAsWritten(store.GetSeatLockInfo(showtime, seat).value) < store.locks[(showtime, seat)].expiry
  {
  }

  /** A concrete case: locked at 0 for 600 s and viewed at 100, the seat map says 500 instead of 600. */
  lemma HoldExpiredAtAsWrittenExample()
    ensures HoldExpiredAtAsWritten(LockInfo(7, 0, 600 - 100, 1, 1)) == 500
    ensures 100 + (600 - 100) == 600
  {
  }

  /** The corrected hold expiry: the current time plus the remaining time-to-live, which is the lock's expiry. */
  function HoldExpiredAt(store: SeatLockStore, info: LockInfo): (at: int)
    reads store
    requires store.Valid() && store.GetSeatLockInfo(info.showtimeId, info.seatId) == Some(info)
    ensures at == store.locks[(info.showtimeId, info.seatId)].expiry
    ensures at > store.now
  {
    store.now + info.ttlRemaining
  }

  /**
   * The seat-map entry of one seat: BOOKED when a BOOKED row exists; else HOLD, with the
   * holder and the (corrected) hold expiry, when a live decodable lock exists; else AVAILABLE.
   * Holder and expiry are given exactly for HOLD entries.
   */
  function SeatViewOf(table: SeatStatusTable, store: SeatLockStore, showtime: nat, seat: Seat): (v: SeatView)
    reads table, store
    requires store.Valid()
    ensures v.seatId == seat.id && v.seatName == seat.seatName && v.seatType == seat.seatType && v.price == seat.price
    ensures v.status == Booked <==> IsBooked(table.rows, showtime, seat.id)
    ensures v.status == Hold <==> !IsBooked(table.rows, showtime, seat.id) && store.GetSeatLockInfo(showtime, seat.id).Some?
    ensures v.status in {Booked, Hold, Available}
    ensures v.holdByUserId.Some? <==> v.status == Hold
    ensures v.holdExpiredAt.Some? <==> v.status == Hold
    ensures v.status == Hold ==> v.holdByUserId == Some(store.locks[(showtime, seat.id)].userId) &&
                                 v.holdExpiredAt == Some(store.locks[(showtime, seat.id)].expiry)
  {
    if IsBooked(table.rows, showtime, seat.id) then
      SeatView(seat.id, seat.seatName, seat.seatType, seat.price, Booked, None, None)
    else match store.GetSeatLockInfo(showtime, seat.id)
      case Some(info) =>
        SeatView(seat.id, seat.seatName, seat.seatType, seat.price, Hold, Some(info.userId), Some(HoldExpiredAt(store, info)))
      case None =>
        SeatView(seat.id, seat.seatName, seat.seatType, seat.price, Available, None, None)
  }

  /**
   * get_seats_by_showtime: NotFound for a missing showtime or a room without seats;
   * otherwise one entry per room seat, in the room's name order, each the seat's
   * reconciled entry.
   */
  function GetSeatsByShowtime(c: Catalog, table: SeatStatusTable, store: SeatLockStore, showtime: nat)
    : (r: Result<seq<SeatView>, Reason>)
    reads table, store
    requires store.Valid()
    ensures showtime !in c.showtimeRooms ==> r == Err(ShowtimeNotFound)
    ensures showtime in c.showtimeRooms && GetSeatsByRoom(c, c.showtimeRooms[showtime]) == [] ==> r == Err(NoSeatsInRoom)
    ensures r.Ok? ==>
      showtime in c.showtimeRooms &&
      var seats := GetSeatsByRoom(c, c.showtimeRooms[showtime]);
      |r.value| == |seats| > 0 &&
      forall i :: 0 <= i < |seats| ==> r.value[i] == SeatViewOf(table, store, showtime, seats[i])
  {
    match ShowtimeRoom(c, showtime)
    case None => Err(ShowtimeNotFound)
    case Some(room) =>
      var seats := GetSeatsByRoom(c, room);
      if seats == [] then Err(NoSeatsInRoom)
      else Ok(SeatViewsOf(table, store, showtime, seats))
  }

  function SeatViewsOf(table: SeatStatusTable, store: SeatLockStore, showtime: nat, seats: seq<Seat>): (vs: seq<SeatView>)
    reads table, store
    requires store.Valid()
    ensures |vs| == |seats| && forall i :: 0 <= i < |seats| ==> vs[i] == SeatViewOf(table, store, showtime, seats[i])
  {
    if seats == [] then [] else [SeatViewOf(table, store, showtime, seats[0])] + SeatViewsOf(table, store, showtime, seats[1..])
  }

  /**
   * get_available_seats_count: room seats minus BOOKED rows minus listed locks, never below
   * zero. Advisory: a seat both BOOKED and locked, or a row or lock for a seat outside the
   * room, is subtracted all the same.
   */
  function GetAvailableSeatsCount(c: Catalog, table: SeatStatusTable, store: SeatLockStore, showtime: nat)
    : (r: Result<nat, Reason>)
    reads table, store
    ensures showtime !in c.showtimeRooms <==> r == Err(ShowtimeNotFound)
    ensures r.Ok? ==>
      var total := |GetSeatsByRoom(c, c.showtimeRooms[showtime])|;
      var taken := |SeatsWithStatus(table.rows, showtime, Booked)| + |store.HeldSeats(showtime)|;
      r.value <= total && (r.value == 0 || r.value == total - taken) && (taken <= total ==> r.value == total - taken)
  {
    match ShowtimeRoom(c, showtime)
    case None => Err(ShowtimeNotFound)
    case Some(room) =>
      var total := |GetSeatsByRoom(c, room)|;
      var booked := |SeatsWithStatus(table.rows, showtime, Booked)|;
      var held := |store.HeldSeats(showtime)|;
      var available := total - booked - held;
      Ok(if available < 0 then 0 else available)
  }

  /** Why a seat cannot be held by user, in the order the hold loop checks, or None. */
  function HoldRefusal(c: Catalog, rows: map<RowKey, SeatStatusRow>, locks: map<LockKey, LockEntry>,
                       showtime: nat, seat: nat, user: nat): Option<Reason>
  {
    if GetSeatById(c, seat).None? then Some(SeatNotFound(seat))
    else if IsBooked(rows, showtime, seat) then Some(SeatAlreadyBooked(seat))
    else if HeldByOther(locks, (showtime, seat), user) then Some(SeatHeldByOther(seat))
    else None
  }

  /** The lock store after each listed seat of the showtime was locked, in order, with the same entry. */
  function LockAll(locks: map<LockKey, LockEntry>, showtime: nat, seats: seq<nat>, entry: LockEntry): map<LockKey, LockEntry>
    decreases |seats|
  {
    if seats == [] then locks
    else LockAll(locks, showtime, seats[..|seats| - 1], entry)[(showtime, seats[|seats| - 1]) := entry]
  }

  /** A key of LockAll is a listed seat of the showtime, carrying the entry, or an untouched key of the old store. */
  lemma {:induction false} LockAllAt(locks: map<LockKey, LockEntry>, showtime: nat, seats: seq<nat>, entry: LockEntry, k: LockKey)
    decreases |seats|
    ensures k in LockAll(locks, showtime, seats, entry) <==> k in locks || (k.0 == showtime && k.1 in seats)
    ensures k in LockAll(locks, showtime, seats, entry) ==>
              LockAll(locks, showtime, seats, entry)[k] == if k.0 == showtime && k.1 in seats then entry else locks[k]
  {
    if seats != [] {
      var front := seats[..|seats| - 1];
      LockAllAt(locks, showtime, front, entry, k);
      assert seats == front + [seats[|seats| - 1]];
    }
  }

  lemma LockAllStep(locks: map<LockKey, LockEntry>, showtime: nat, seats: seq<nat>, seat: nat, entry: LockEntry)
    ensures LockAll(locks, showtime, seats + [seat], entry) == LockAll(locks, showtime, seats, entry)[(showtime, seat) := entry]
  {
    assert (seats + [seat])[..|seats|] == seats;
  }

  /**
   * Locking a prefix of the request does not change how a later seat is judged: a seat
   * already locked in this request is the caller's own, and any other key is as before.
   */
  lemma HoldRefusalAfterPrefix(c: Catalog, rows: map<RowKey, SeatStatusRow>, locks: map<LockKey, LockEntry>,
                               showtime: nat, seats: seq<nat>, seat: nat, user: nat, entry: LockEntry)
    requires entry.Held? && entry.userId == user
    requires forall j :: 0 <= j < |seats| ==> HoldRefusal(c, rows, locks, showtime, seats[j], user).None?
    ensures HoldRefusal(c, rows, LockAll(locks, showtime, seats, entry), showtime, seat, user) ==
            HoldRefusal(c, rows, locks, showtime, seat, user)
  {
    LockAllAt(locks, showtime, seats, entry, (showtime, seat));
    if seat in seats {
      var j :| 0 <= j < |seats| && seats[j] == seat;
      assert HoldRefusal(c, rows, locks, showtime, seats[j], user).None?;
    }
  }

  /** The answer entry for a seat held until at. */
  function HeldView(c: Catalog, seat: nat, at: int): HoldView {
    HoldView(seat, match GetSeatById(c, seat) case Some(s) => s.seatName case None => [], Hold, at)
  }

  /** One step of the hold loop: refuse the seat for the first reason that applies, else lock it for user. */
  method HoldOne(c: Catalog, table: SeatStatusTable, store: SeatLockStore, showtime: nat, seatId: nat, user: nat, ttl: int)
    returns (refusal: Option<Reason>)
    requires ttl > 0 && store.Valid()
    modifies store
    ensures store.Valid() && store.now == old(store.now)
    ensures refusal == HoldRefusal(c, table.rows, old(store.locks), showtime, seatId, user)
    ensures store.locks == if refusal.None? then old(store.locks)[(showtime, seatId) := Held(user, store.now, store.now + ttl)]
                           else old(store.locks)
  {
    var seat := GetSeatById(c, seatId);
    if seat.None? {
      return Some(SeatNotFound(seatId));
    }
    var row := table.GetSeatStatus(showtime, seatId);
    if row.Some? && row.value.status == Booked {
      return Some(SeatAlreadyBooked(seatId));
    }
    var info := store.GetSeatLockInfo(showtime, seatId);
    if info.Some? && info.value.userId != user {
      return Some(SeatHeldByOther(seatId));
    }
    var ok := store.LockSeat(showtime, seatId, user, ttl);
    assert ok;
    refusal := None;
  }

  /** One iteration of HoldEach: judge entry i against the store as it was before the loop and lock it if free. */
  method HoldNext(c: Catalog, table: SeatStatusTable, store: SeatLockStore, showtime: nat, seatIds: seq<nat>, i: nat,
                  user: nat, ttl: int, ghost locks0: map<LockKey, LockEntry>, ghost entry: LockEntry)
    returns (refusal: Option<Reason>)
    requires i < |seatIds| && ttl > 0 && store.Valid() && entry == Held(user, store.now, store.now + ttl)
    requires forall j :: 0 <= j < i ==> HoldRefusal(c, table.rows, locks0, showtime, seatIds[j], user).None?
    requires store.locks == LockAll(locks0, showtime, seatIds[..i], entry)
    modifies store
    ensures store.Valid() && store.now == old(store.now)
    ensures refusal == HoldRefusal(c, table.rows, locks0, showtime, seatIds[i], user)
    ensures refusal.Some? ==> store.locks == old(store.locks)
    ensures refusal.None? ==> store.locks == LockAll(locks0, showtime, seatIds[..i + 1], entry)
    ensures refusal.None? ==> forall j :: 0 <= j < i + 1 ==> HoldRefusal(c, table.rows, locks0, showtime, seatIds[j], user).None?
  {
    var seatId := seatIds[i];
    HoldRefusalAfterPrefix(c, table.rows, locks0, showtime, seatIds[..i], seatId, user, entry);
    refusal := HoldOne(c, table, store, showtime, seatId, user, ttl);
    if refusal.None? {
      LockAllStep(locks0, showtime, seatIds[..i], seatId, entry);
      assert seatIds[..i + 1] == seatIds[..i] + [seatId];
    }
  }

  /**
   * The hold loop: seats are taken in request order until the first refusal, whose
   * position is stop (|seatIds| when none); every seat before it is locked for user.
   */
  method HoldEach(c: Catalog, table: SeatStatusTable, store: SeatLockStore, showtime: nat, seatIds: seq<nat>,
                  user: nat, ttl: int)
    returns (stop: nat, refusal: Option<Reason>)
    requires ttl > 0 && store.Valid()
    modifies store
    ensures store.Valid() && store.now == old(store.now)
    ensures stop <= |seatIds|
    ensures forall j :: 0 <= j < stop ==> HoldRefusal(c, table.rows, old(store.locks), showtime, seatIds[j], user).None?
    ensures refusal == if stop < |seatIds| then HoldRefusal(c, table.rows, old(store.locks), showtime, seatIds[stop], user) else None
    ensures refusal.None? <==> stop == |seatIds|
    ensures store.locks == LockAll(old(store.locks), showtime, seatIds[..stop], Held(user, store.now, store.now + ttl))
  {
    ghost var locks0, rows0 := store.locks, table.rows;
    var now0 := store.now;
    ghost var entry := Held(user, now0, now0 + ttl);
    assert seatIds[..0] == [];
    stop := 0;
    while stop < |seatIds|
      invariant 0 <= stop <= |seatIds|
      invariant store.Valid() && store.now == now0 && table.rows == rows0
      invariant forall j :: 0 <= j < stop ==> HoldRefusal(c, rows0, locks0, showtime, seatIds[j], user).None?
      invariant store.locks == LockAll(locks0, showtime, seatIds[..stop], entry)
    {
      refusal := HoldNext(c, table, store, showtime, seatIds, stop, user, ttl, locks0, entry);
      if refusal.Some? {
        return;
      }
      stop := stop + 1;
    }
    assert seatIds[..stop] == seatIds;
    refusal := None;
  }

  /**
   * hold_seats: NotFound for a missing showtime; then, seat by seat in request order, refuse
   * a missing seat, a BOOKED seat or a seat another user holds, else lock it for the caller
   * for holdMinutes minutes. A refusal stops the loop and leaves the earlier seats locked.
   */
  method HoldSeats(c: Catalog, table: SeatStatusTable, store: SeatLockStore, showtime: nat, seatIds: seq<nat>,
                   user: nat, holdMinutes: int)
    returns (r: Result<seq<HoldView>, Reason>)
    requires showtime > 0 && |seatIds| >= 1
    requires holdMinutes > 0
    requires store.Valid()
    modifies store
    ensures store.Valid() && store.now == old(store.now)
    ensures showtime !in c.showtimeRooms ==> r == Err(ShowtimeNotFound) && store.locks == old(store.locks)
    ensures r.Ok? <==> showtime in c.showtimeRooms &&
                       forall i :: 0 <= i < |seatIds| ==> HoldRefusal(c, table.rows, old(store.locks), showtime, seatIds[i], user).None?
    ensures r.Ok? ==>
      |r.value| == |seatIds| &&
      (forall i :: 0 <= i < |seatIds| ==> r.value[i] == HeldView(c, seatIds[i], store.now + holdMinutes * 60)) &&
      store.locks == LockAll(old(store.locks), showtime, seatIds, Held(user, store.now, store.now + holdMinutes * 60))
    ensures r.Err? && showtime in c.showtimeRooms ==>
      exists n :: 0 <= n < |seatIds| &&
        HoldRefusal(c, table.rows, old(store.locks), showtime, seatIds[n], user) == Some(r.error) &&
        (forall i :: 0 <= i < n ==> HoldRefusal(c, table.rows, old(store.locks), showtime, seatIds[i], user).None?) &&
        store.locks == LockAll(old(store.locks), showtime, seatIds[..n], Held(user, store.now, store.now + holdMinutes * 60))
  {
    if ShowtimeRoom(c, showtime).None? {
      return Err(ShowtimeNotFound);
    }
    var stop, refusal := HoldEach(c, table, store, showtime, seatIds, user, holdMinutes * 60);
    if refusal.Some? {
      return Err(refusal.value);
    }
    assert seatIds[..stop] == seatIds;
    var at := store.now + holdMinutes * 60;
    return Ok(seq(|seatIds|, i requires 0 <= i < |seatIds| => HeldView(c, seatIds[i], at)));
  }

  /** The set of seats a request lists. */
  function SeatSet(seats: seq<nat>): set<nat> {
    set s | s in seats
  }

  lemma SeatSetPrefixStep(seats: seq<nat>, n: nat)
    requires n < |seats|
    ensures SeatSet(seats[..n + 1]) == SeatSet(seats[..n]) + {seats[n]}
  {
    assert seats[..n + 1] == seats[..n] + [seats[n]];
  }

  /** A seat among the first n listed sits at some position before n. */
  lemma SeatSetPrefixIndex(seats: seq<nat>, n: nat, seat: nat) returns (j: nat)
    requires n <= |seats| && seat in SeatSet(seats[..n])
    ensures j < n && seats[j] == seat
  {
    var k :| 0 <= k < n && seats[..n][k] == seat;
    j := k;
  }

  /** unlock_seat with the user's id succeeds on this seat: a key exists and no other user holds it. */
  predicate CanUnlock(locks: map<LockKey, LockEntry>, showtime: nat, seat: nat, user: nat) {
    (showtime, seat) in locks && !HeldByOther(locks, (showtime, seat), user)
  }

  /** The listed seats whose keys an owner-checked unlock removes. */
  function Unlockable(locks: map<LockKey, LockEntry>, showtime: nat, seats: seq<nat>, user: nat): set<nat> {
    set s | s in seats && CanUnlock(locks, showtime, s, user)
  }

  /**
   * One owner-checked unlock against a store from which the seats in done were already
   * removed: it removes a key exactly when the seat is not in done and was unlockable at the
   * start, and otherwise leaves the store as it is.
   */
  lemma UnlockStep(locks: map<LockKey, LockEntry>, showtime: nat, done: set<nat>, seat: nat, user: nat)
    ensures var cur := RemoveSeats(locks, showtime, done);
            var k := (showtime, seat);
            (k in cur <==> seat !in done && k in locks) &&
            (HeldByOther(cur, k, user) ==> !CanUnlock(locks, showtime, seat, user)) &&
            (!HeldByOther(cur, k, user) && k in cur ==>
               seat !in done && CanUnlock(locks, showtime, seat, user) &&
               cur - {k} == RemoveSeats(locks, showtime, done + {seat})) &&
            (!HeldByOther(cur, k, user) && k !in cur ==> (seat in done || !CanUnlock(locks, showtime, seat, user)) && cur - {k} == cur)
  {
    RemoveSeatsStep(locks, showtime, done, seat);
  }

  /** One owner-checked unlock, judged against the store as it was before the seats in done were removed. */
  method UnlockOne(store: SeatLockStore, showtime: nat, seat: nat, user: nat,
                   ghost locks0: map<LockKey, LockEntry>, ghost done: set<nat>)
    returns (ok: bool)
    requires store.Valid() && store.locks == RemoveSeats(locks0, showtime, done)
    modifies store
    ensures store.Valid() && store.now == old(store.now)
    ensures ok <==> seat !in done && CanUnlock(locks0, showtime, seat, user)
    ensures store.locks == RemoveSeats(locks0, showtime, if ok then done + {seat} else done)
  {
    UnlockStep(locks0, showtime, done, seat, user);
    ok := store.UnlockSeat(showtime, seat, Some(user));
  }

  /**
   * The request entries whose owner-checked unlock removes no key, in request order: an entry
   * fails unless the user may unlock its seat and no earlier entry names the same seat (that
   * earlier entry already released it, or failed for the same reason).
   */
  function FailedEntries(locks: map<LockKey, LockEntry>, showtime: nat, seats: seq<nat>, user: nat): seq<nat>
    decreases |seats|
  {
    if seats == [] then []
    else
      var earlier := seats[..|seats| - 1];
      var last := seats[|seats| - 1];
      if CanUnlock(locks, showtime, last, user) && last !in earlier then FailedEntries(locks, showtime, earlier, user)
      else FailedEntries(locks, showtime, earlier, user) + [last]
  }

  /** One more entry of the request: it fails exactly when its unlock would remove no key. */
  lemma FailedEntriesStep(locks: map<LockKey, LockEntry>, showtime: nat, seats: seq<nat>, i: nat, user: nat)
    requires i < |seats|
    ensures FailedEntries(locks, showtime, seats[..i + 1], user) ==
            if CanUnlock(locks, showtime, seats[i], user) && seats[i] !in seats[..i]
            then FailedEntries(locks, showtime, seats[..i], user)
            else FailedEntries(locks, showtime, seats[..i], user) + [seats[i]]
  {
    assert seats[..i + 1][..i] == seats[..i];
  }

  /** Every failed entry is an entry of the request. */
  lemma {:induction false} FailedEntriesWithin(locks: map<LockKey, LockEntry>, showtime: nat, seats: seq<nat>, user: nat)
    ensures forall s :: s in FailedEntries(locks, showtime, seats, user) ==> s in seats
    decreases |seats|
  {
    if seats != [] {
      var earlier := seats[..|seats| - 1];
      FailedEntriesWithin(locks, showtime, earlier, user);
      assert seats == earlier + [seats[|seats| - 1]];
    }
  }

  /** A requested seat the user may not unlock (no key, or another user's key) is always reported failed. */
  lemma {:induction false} FailedEntriesCoverLocked(locks: map<LockKey, LockEntry>, showtime: nat, seats: seq<nat>, user: nat)
    ensures forall s :: s in seats && !CanUnlock(locks, showtime, s, user) ==> s in FailedEntries(locks, showtime, seats, user)
    decreases |seats|
  {
    if seats != [] {
      var earlier := seats[..|seats| - 1];
      FailedEntriesCoverLocked(locks, showtime, earlier, user);
      assert seats == earlier + [seats[|seats| - 1]];
    }
  }

  /** One iteration of UnlockEach: unlock entry i and extend the released set or the failed list. */
  method UnlockNext(store: SeatLockStore, showtime: nat, seatIds: seq<nat>, i: nat, user: nat,
                    ghost locks0: map<LockKey, LockEntry>, ghost done: set<nat>, failed: seq<nat>)
    returns (ok: bool, ghost done': set<nat>, failed': seq<nat>)
    requires i < |seatIds| && store.Valid() && store.locks == RemoveSeats(locks0, showtime, done)
    requires done == Unlockable(locks0, showtime, seatIds[..i], user)
    requires failed == FailedEntries(locks0, showtime, seatIds[..i], user)
    modifies store
    ensures store.Valid() && store.now == old(store.now)
    ensures ok ==> seatIds[i] !in done && done' == done + {seatIds[i]} && failed' == failed
    ensures !ok ==> done' == done && failed' == failed + [seatIds[i]]
    ensures store.locks == RemoveSeats(locks0, showtime, done')
    ensures |done'| == if ok then |done| + 1 else |done|
    ensures done' == Unlockable(locks0, showtime, seatIds[..i + 1], user)
    ensures failed' == FailedEntries(locks0, showtime, seatIds[..i + 1], user)
  {
    var seat := seatIds[i];
    FailedEntriesStep(locks0, showtime, seatIds, i, user);
    ok := UnlockOne(store, showtime, seat, user, locks0, done);
    done' := if ok then done + {seat} else done;
    failed' := if ok then failed else failed + [seat];
    assert seatIds[..i + 1] == seatIds[..i] + [seat];
  }

  /**
   * Unlock each listed seat with the ownership check, as release_seats and the rollback
   * of book_seats_after_payment do: a seat counts as released exactly when the unlock removed
   * a key, so a seat listed twice is released once and fails the second time.
   */
  method UnlockEach(store: SeatLockStore, showtime: nat, seatIds: seq<nat>, user: nat)
    returns (released: nat, failed: seq<nat>)
    requires store.Valid()
    modifies store
    ensures store.Valid() && store.now == old(store.now)
    ensures released == |Unlockable(old(store.locks), showtime, seatIds, user)|
    ensures released + |failed| == |seatIds|
    ensures forall s :: s in failed ==> s in seatIds
    ensures forall s :: s in seatIds && !CanUnlock(old(store.locks), showtime, s, user) ==> s in failed
    ensures failed == FailedEntries(old(store.locks), showtime, seatIds, user)
    ensures store.locks == RemoveSeats(old(store.locks), showtime, Unlockable(old(store.locks), showtime, seatIds, user))
  {
    ghost var locks0 := store.locks;
    ghost var done: set<nat> := {};
    released, failed := 0, [];
    var i := 0;
    assert Unlockable(locks0, showtime, seatIds[..0], user) == {};
    while i < |seatIds|
      invariant 0 <= i <= |seatIds|
      invariant store.Valid() && store.now == old(store.now)
      invariant done == Unlockable(locks0, showtime, seatIds[..i], user)
      invariant released == |done| && released + |failed| == i
      invariant store.locks == RemoveSeats(locks0, showtime, done)
      invariant failed == FailedEntries(locks0, showtime, seatIds[..i], user)
    {
      var ok;
      ok, done, failed := UnlockNext(store, showtime, seatIds, i, user, locks0, done, failed);
      released := if ok then released + 1 else released;
      i := i + 1;
    }
    assert seatIds[..i] == seatIds;
    assert forall s :: s in failed ==> s in seatIds by {
      FailedEntriesWithin(locks0, showtime, seatIds, user);
    }
    assert forall s :: s in seatIds && !CanUnlock(locks0, showtime, s, user) ==> s in failed by {
      FailedEntriesCoverLocked(locks0, showtime, seatIds, user);
    }
  }

  /**
   * release_seats: an owner-checked unlock per listed seat; the summary counts the keys
   * removed and lists every seat whose unlock did not remove one.
   */
  method ReleaseSeats(store: SeatLockStore, showtime: nat, seatIds: seq<nat>, user: nat) returns (summary: ReleaseSummary)
    requires showtime > 0 && |seatIds| >= 1
    requires store.Valid()
    modifies store
    ensures store.Valid() && store.now == old(store.now)
    ensures summary.totalRequested == |seatIds|
    ensures summary.releasedCount + |summary.failedSeats| == summary.totalRequested
    ensures summary.releasedCount == |Unlockable(old(store.locks), showtime, seatIds, user)|
    ensures forall s :: s in summary.failedSeats ==> s in seatIds
    ensures forall s :: s in seatIds && !CanUnlock(old(store.locks), showtime, s, user) ==> s in summary.failedSeats
    ensures summary.failedSeats == FailedEntries(old(store.locks), showtime, seatIds, user)
    ensures store.locks == RemoveSeats(old(store.locks), showtime, Unlockable(old(store.locks), showtime, seatIds, user))
  {
    var released, failed := UnlockEach(store, showtime, seatIds, user);
    summary := ReleaseSummary(released, |seatIds|, failed);
  }

  /**
   * Holding free seats and then releasing them leaves the lock store as it was before the
   * hold, so the seat map, which reads only the seat-status rows, the locks and the clock,
   * is unchanged too.
   */
  method HoldThenRelease(c: Catalog, table: SeatStatusTable, store: SeatLockStore, showtime: nat, seatIds: seq<nat>,
                         user: nat, holdMinutes: int)
    returns (held: Result<seq<HoldView>, Reason>, summary: ReleaseSummary)
    requires showtime > 0 && |seatIds| >= 1 && holdMinutes > 0
    requires store.Valid()
    requires forall i :: 0 <= i < |seatIds| ==> (showtime, seatIds[i]) !in store.locks
    modifies store
    ensures store.Valid() && store.now == old(store.now)
    ensures held.Ok? ==> summary.releasedCount == |SeatSet(seatIds)|
    ensures held.Ok? ==> store.locks == old(store.locks)
  {
    ghost var locks0 := store.locks;
    held := HoldSeats(c, table, store, showtime, seatIds, user, holdMinutes);
    ghost var entry := Held(user, store.now, store.now + holdMinutes * 60);
    summary := ReleaseSeats(store, showtime, seatIds, user);
    if held.Ok? {
      LockThenUnlock(locks0, showtime, seatIds, user, entry);
    }
  }

  /** Locking free seats for user and then unlocking them with the ownership check restores the store. */
  lemma LockThenUnlock(locks: map<LockKey, LockEntry>, showtime: nat, seats: seq<nat>, user: nat, entry: LockEntry)
    requires entry.Held? && entry.userId == user
    requires forall i :: 0 <= i < |seats| ==> (showtime, seats[i]) !in locks
    ensures Unlockable(LockAll(locks, showtime, seats, entry), showtime, seats, user) == SeatSet(seats)
    ensures RemoveSeats(LockAll(locks, showtime, seats, entry), showtime, SeatSet(seats)) == locks
  {
    var m := LockAll(locks, showtime, seats, entry);
    forall s | s in seats ensures CanUnlock(m, showtime, s, user) {
      LockAllAt(locks, showtime, seats, entry, (showtime, s));
    }
    forall s | s in seats ensures (showtime, s) !in locks {
      var i :| 0 <= i < |seats| && seats[i] == s;
    }
    var r := RemoveSeats(m, showtime, SeatSet(seats));
    forall k | k in locks ensures k in r && r[k] == locks[k] {
      LockAllAt(locks, showtime, seats, entry, k);
    }
    forall k | k in r ensures k in locks {
      LockAllAt(locks, showtime, seats, entry, k);
    }
  }

  /** Why a seat cannot move to BOOKED for user, in the order book_seats_after_payment checks, or None. */
  function BookRefusal(rows: map<RowKey, SeatStatusRow>, locks: map<LockKey, LockEntry>,
                       showtime: nat, seat: nat, user: nat): Option<Reason>
  {
    var k := (showtime, seat);
    if k !in locks || locks[k].Malformed? then Some(SeatNotHeldByYou(seat))
    else if locks[k].userId != user then Some(SeatHeldByOther(seat))
    else if k !in rows then Some(SeatStatusMissing(seat))
    else None
  }

  /** The first n listed seats are distinct and each can move to BOOKED for user. */
  predicate CanBookPrefix(rows: map<RowKey, SeatStatusRow>, locks: map<LockKey, LockEntry>,
                          showtime: nat, seats: seq<nat>, n: nat, user: nat)
    requires n <= |seats|
  {
    (forall i, j :: 0 <= i < j < n ==> seats[i] != seats[j]) &&
    forall i :: 0 <= i < n ==> BookRefusal(rows, locks, showtime, seats[i], user).None?
  }

  lemma CanBookPrefixStep(rows: map<RowKey, SeatStatusRow>, locks: map<LockKey, LockEntry>,
                          showtime: nat, seats: seq<nat>, n: nat, user: nat)
    requires n < |seats| && CanBookPrefix(rows, locks, showtime, seats, n, user)
    requires BookRefusal(rows, locks, showtime, seats[n], user).None?
    requires forall i :: 0 <= i < n ==> seats[i] != seats[n]
    ensures CanBookPrefix(rows, locks, showtime, seats, n + 1, user)
  {
  }

  /** A seat listed twice cannot be booked the second time, so the request fails there. */
  lemma CanBookPrefixDuplicate(rows: map<RowKey, SeatStatusRow>, locks: map<LockKey, LockEntry>,
                               showtime: nat, seats: seq<nat>, j: nat, n: nat, user: nat)
    requires j < n < |seats| && seats[j] == seats[n]
    ensures !CanBookPrefix(rows, locks, showtime, seats, n + 1, user)
  {
  }

  /** The row book_seat writes: BOOKED, expiry cleared, holder kept. */
  function BookSeatRow(row: SeatStatusRow, now: int): SeatStatusRow {
    row.(status := Booked, holdExpiredAt := None, updatedAt := now)
  }

  /** The seat-status rows after book_seat on each of the given seats of the showtime. */
  function BookRows(rows: map<RowKey, SeatStatusRow>, showtime: nat, seats: set<nat>, now: int): map<RowKey, SeatStatusRow> {
    map k | k in rows :: if k.0 == showtime && k.1 in seats then BookSeatRow(rows[k], now) else rows[k]
  }

  lemma BookRowsStep(rows: map<RowKey, SeatStatusRow>, showtime: nat, seats: set<nat>, seat: nat, now: int)
    requires (showtime, seat) in rows && seat !in seats
    ensures BookRows(rows, showtime, seats + {seat}, now) ==
            BookRows(rows, showtime, seats, now)[(showtime, seat) := BookSeatRow(rows[(showtime, seat)], now)]
  {
  }

  /** Seats already booked in this request have lost their lock; any other seat is judged as at the start. */
  lemma BookRefusalAfterPrefix(rows: map<RowKey, SeatStatusRow>, locks: map<LockKey, LockEntry>,
                               showtime: nat, taken: set<nat>, seat: nat, user: nat)
    ensures seat in taken ==> BookRefusal(rows, RemoveSeats(locks, showtime, taken), showtime, seat, user) == Some(SeatNotHeldByYou(seat))
    ensures seat !in taken ==>
              BookRefusal(rows, RemoveSeats(locks, showtime, taken), showtime, seat, user) == BookRefusal(rows, locks, showtime, seat, user)
  {
  }

  /** One step of book_seats_after_payment: check the lock, write the BOOKED row, drop the lock. */
  method BookOne(table: SeatStatusTable, store: SeatLockStore, showtime: nat, seat: nat, user: nat, now: int)
    returns (refusal: Option<Reason>)
    requires store.Valid()
    modifies table, store
    ensures store.Valid() && store.now == old(store.now)
    ensures refusal == BookRefusal(old(table.rows), old(store.locks), showtime, seat, user)
    ensures refusal.None? ==>
              table.rows == old(table.rows)[(showtime, seat) := BookSeatRow(old(table.rows)[(showtime, seat)], now)] &&
              store.locks == old(store.locks) - {(showtime, seat)}
    ensures refusal.Some? ==> table.rows == old(table.rows) && store.locks == old(store.locks)
  {
    var info := store.GetSeatLockInfo(showtime, seat);
    if info.None? {
      return Some(SeatNotHeldByYou(seat));
    }
    if info.value.userId != user {
      return Some(SeatHeldByOther(seat));
    }
    var booked := table.BookSeat(showtime, seat, now);
    if booked.Err? {
      return Some(SeatStatusMissing(seat));
    }
    var ok := store.UnlockSeat(showtime, seat, Some(user));
    refusal := None;
  }

  /** One step of the booking loop, judged against the state before the seats in taken were booked. */
  method BookNext(table: SeatStatusTable, store: SeatLockStore, showtime: nat, seat: nat, user: nat, now: int,
                  ghost rows0: map<RowKey, SeatStatusRow>, ghost locks0: map<LockKey, LockEntry>, ghost taken: set<nat>)
    returns (refusal: Option<Reason>)
    requires store.Valid()
    requires table.rows == BookRows(rows0, showtime, taken, now) && store.locks == RemoveSeats(locks0, showtime, taken)
    modifies table, store
    ensures store.Valid() && store.now == old(store.now)
    ensures refusal == if seat in taken then Some(SeatNotHeldByYou(seat)) else BookRefusal(rows0, locks0, showtime, seat, user)
    ensures refusal.None? ==> table.rows == BookRows(rows0, showtime, taken + {seat}, now) &&
                              store.locks == RemoveSeats(locks0, showtime, taken + {seat})
    ensures refusal.Some? ==> table.rows == old(table.rows) && store.locks == old(store.locks)
  {
    BookRefusalAfterPrefix(rows0, locks0, showtime, taken, seat, user);
    assert BookRefusal(table.rows, store.locks, showtime, seat, user) == BookRefusal(rows0, store.locks, showtime, seat, user);
    refusal := BookOne(table, store, showtime, seat, user, now);
    if refusal.None? {
      BookRowsStep(rows0, showtime, taken, seat, now);
      RemoveSeatsStep(locks0, showtime, taken, seat);
    }
  }

  /**
   * The booking loop: seats are booked in request order until the first refusal, at
   * position stop (|seatIds| when none); the seats before it are BOOKED and unlocked.
   */
  method BookEach(table: SeatStatusTable, store: SeatLockStore, showtime: nat, seatIds: seq<nat>, user: nat, now: int)
    returns (stop: nat, refusal: Option<Reason>, ghost taken: set<nat>)
    requires store.Valid()
    modifies table, store
    ensures store.Valid() && store.now == old(store.now)
    ensures stop <= |seatIds| && (refusal.None? <==> stop == |seatIds|)
    ensures CanBookPrefix(old(table.rows), old(store.locks), showtime, seatIds, stop, user)
    ensures refusal.Some? ==> !CanBookPrefix(old(table.rows), old(store.locks), showtime, seatIds, stop + 1, user)
    ensures stop < |seatIds| ==>
              refusal == BookRefusal(old(table.rows), RemoveSeats(old(store.locks), showtime, taken), showtime, seatIds[stop], user)
    ensures taken == SeatSet(seatIds[..stop])
    ensures table.rows == BookRows(old(table.rows), showtime, taken, now)
    ensures store.locks == RemoveSeats(old(store.locks), showtime, taken)
  {
    ghost var rows0, locks0 := table.rows, store.locks;
    taken := {};
    stop := 0;
    assert seatIds[..0] == [];
    while stop < |seatIds|
      invariant 0 <= stop <= |seatIds|
      invariant store.Valid() && store.now == old(store.now)
      invariant CanBookPrefix(rows0, locks0, showtime, seatIds, stop, user)
      invariant taken == SeatSet(seatIds[..stop])
      invariant table.rows == BookRows(rows0, showtime, taken, now)
      invariant store.locks == RemoveSeats(locks0, showtime, taken)
    {
      var seat := seatIds[stop];
      BookRefusalAfterPrefix(rows0, locks0, showtime, taken, seat, user);
      refusal := BookNext(table, store, showtime, seat, user, now, rows0, locks0, taken);
      if refusal.Some? {
        if seat in taken {
          var j := SeatSetPrefixIndex(seatIds, stop, seat);
          CanBookPrefixDuplicate(rows0, locks0, showtime, seatIds, j, stop, user);
        }
        break;
      }
      SeatSetPrefixStep(seatIds, stop);
      CanBookPrefixStep(rows0, locks0, showtime, seatIds, stop, user);
      taken := taken + {seat};
      stop := stop + 1;
    }
    if stop == |seatIds| {
      refusal := None;
    }
  }

  /**
   * Rolling back after a failure at some seat unlocks, with the ownership check, every
   * listed seat: together with the seats already unlocked while booking, the result is the
   * owner-checked unlock of the whole list from the starting store.
   */
  lemma RollbackAfterPrefix(locks: map<LockKey, LockEntry>, showtime: nat, seats: seq<nat>, taken: set<nat>, user: nat)
    requires forall s :: s in taken ==> s in seats && HeldBy(locks, (showtime, s), user)
    ensures var cur := RemoveSeats(locks, showtime, taken);
            RemoveSeats(cur, showtime, Unlockable(cur, showtime, seats, user)) ==
            RemoveSeats(locks, showtime, Unlockable(locks, showtime, seats, user))
  {
    var cur := RemoveSeats(locks, showtime, taken);
    var lhs := RemoveSeats(cur, showtime, Unlockable(cur, showtime, seats, user));
    var rhs := RemoveSeats(locks, showtime, Unlockable(locks, showtime, seats, user));
    forall k | k in lhs ensures k in rhs && lhs[k] == rhs[k] {
      if k.0 == showtime && k.1 in seats {
        assert !CanUnlock(cur, showtime, k.1, user);
      }
    }
    forall k | k in rhs ensures k in lhs {
      if k.0 == showtime && k.1 in taken {
        assert CanUnlock(locks, showtime, k.1, user);
      }
    }
  }

  /**
   * book_seats_after_payment: each listed seat must carry a decodable lock of user and a
   * seat-status row; it then becomes BOOKED and its lock is dropped. On the first failure
   * every listed seat is unlocked with the ownership check, the rows already BOOKED stay
   * BOOKED, and the failure is reported.
   */
  method BookSeatsAfterPayment(table: SeatStatusTable, store: SeatLockStore, showtime: nat, seatIds: seq<nat>,
                               user: nat, now: int)
    returns (r: Result<bool, Reason>)
    requires store.Valid()
    modifies table, store
    ensures store.Valid() && store.now == old(store.now)
    ensures r.Ok? <==> CanBookPrefix(old(table.rows), old(store.locks), showtime, seatIds, |seatIds|, user)
    ensures r.Ok? ==> r.value &&
                      table.rows == BookRows(old(table.rows), showtime, SeatSet(seatIds), now) &&
                      store.locks == RemoveSeats(old(store.locks), showtime, SeatSet(seatIds))
    ensures r.Err? ==>
              store.locks == RemoveSeats(old(store.locks), showtime, Unlockable(old(store.locks), showtime, seatIds, user))
    ensures r.Err? ==>
              exists n :: 0 <= n < |seatIds| &&
                CanBookPrefix(old(table.rows), old(store.locks), showtime, seatIds, n, user) &&
                table.rows == BookRows(old(table.rows), showtime, SeatSet(seatIds[..n]), now) &&
                BookRefusal(old(table.rows), RemoveSeats(old(store.locks), showtime, SeatSet(seatIds[..n])), showtime, seatIds[n], user)
                  == Some(r.error)
  {
    ghost var locks0 := store.locks;
    var stop, refusal, taken := BookEach(table, store, showtime, seatIds, user, now);
    if refusal.None? {
      assert seatIds[..stop] == seatIds;
      return Ok(true);
    }
    forall s | s in taken ensures s in seatIds && HeldBy(locks0, (showtime, s), user) {
      var j :| 0 <= j < stop && seatIds[j] == s;
      assert BookRefusal(old(table.rows), locks0, showtime, seatIds[j], user).None?;
    }
    RollbackAfterPrefix(locks0, showtime, seatIds, taken, user);
    var released, failed := UnlockEach(store, showtime, seatIds, user);
    return Err(refusal.value);
  }

  /** cancel_hold_for_user: remove every lock the user holds in the showtime and count them. */
  method CancelHoldForUser(store: SeatLockStore, showtime: nat, user: nat) returns (count: nat)
    requires store.Valid()
    modifies store
    ensures store.Valid() && store.now == old(store.now)
    ensures count == |old(store.UserSeats(showtime, user))|
    ensures store.locks == RemoveSeats(old(store.locks), showtime, old(store.UserSeats(showtime, user)))
  {
    count := store.UnlockAllSeatsForUser(showtime, user);
  }
}
