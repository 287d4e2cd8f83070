/**
 * The periodic cleanup task: every PENDING booking created more than ten minutes ago
 * becomes EXPIRED; the number of bookings changed is returned. Seats are not released.
 */
module CleanupTask {
  import opened BookingRepo

  /** How old, in seconds, an unpaid PENDING booking may get before it expires. */
  const MaxPendingAgeSeconds: int := 10 * 60

  /** The task's test for one booking: still PENDING and older than ten minutes at `now`. */
  predicate Expirable(b: Booking, now: int) {
    b.bookingStatus == BookingPending && now - b.bookingDate > MaxPendingAgeSeconds
  }

  /** One booking after the sweep. */
  function ExpireIfDue(b: Booking, now: int): Booking {
    if Expirable(b, now) then b.(bookingStatus := Expired) else b
  }

  /**
   * The bookings after the sweep: each expirable booking has become EXPIRED with all its
   * other fields (payment status included) kept, and every other booking is as it was.
   */
  function Sweep(bookings: seq<Booking>, now: int): (after: seq<Booking>)
    ensures |after| == |bookings|
    ensures forall i :: 0 <= i < |bookings| ==>
              after[i] == (if Expirable(bookings[i], now) then bookings[i].(bookingStatus := Expired) else bookings[i])
  {
    if bookings == [] then []
    else Sweep(bookings[..|bookings| - 1], now) + [ExpireIfDue(bookings[|bookings| - 1], now)]
  }

  /** How many bookings the sweep expires. */
  function CountExpirable(bookings: seq<Booking>, now: int): (n: nat)
    ensures n <= |bookings|
  {
    if bookings == [] then 0
    else CountExpirable(bookings[..|bookings| - 1], now) + (if Expirable(bookings[|bookings| - 1], now) then 1 else 0)
  }

  /** The indices of the bookings the sweep expires. */
  function ExpirableIndices(bookings: seq<Booking>, now: int): set<nat> {
    set i: nat | i < |bookings| && Expirable(bookings[i], now)
  }

  /** The expirable indices of a sequence are those of its front plus, perhaps, its last index. */
  lemma ExpirableIndicesStep(bookings: seq<Booking>, now: int)
    requires bookings != []
    ensures var last := |bookings| - 1;
            ExpirableIndices(bookings, now) ==
            ExpirableIndices(bookings[..last], now) + (if Expirable(bookings[last], now) then {last} else {})
  {
    var last := |bookings| - 1;
    var front := bookings[..last];
    forall i: nat | i < last ensures bookings[i] == front[i] {
    }
  }

  /** The count the task reports is the number of bookings it expires. */
  lemma {:induction false} CountIsExpired(bookings: seq<Booking>, now: int)
    ensures CountExpirable(bookings, now) == |ExpirableIndices(bookings, now)|
    decreases |bookings|
  {
    if bookings != [] {
      var last := |bookings| - 1;
      CountIsExpired(bookings[..last], now);
      ExpirableIndicesStep(bookings, now);
      assert last !in ExpirableIndices(bookings[..last], now);
    }
  }

  /** A second sweep finds nothing to expire and changes nothing. */
  lemma {:induction false} SweepIdempotent(bookings: seq<Booking>, now: int)
    ensures CountExpirable(Sweep(bookings, now), now) == 0
    ensures Sweep(Sweep(bookings, now), now) == Sweep(bookings, now)
    decreases |bookings|
  {
    if bookings != [] {
      var last := |bookings| - 1;
      SweepIdempotent(bookings[..last], now);
      var swept := Sweep(bookings, now);
      assert swept[..last] == Sweep(bookings[..last], now);
    }
  }

  /** Sweeping later expires at least what sweeping earlier expired: expiry only grows with time. */
  lemma {:induction false} SweepMonotone(bookings: seq<Booking>, now: int, later: int)
    requires now <= later
    ensures Sweep(Sweep(bookings, now), later) == Sweep(bookings, later)
    ensures CountExpirable(bookings, now) <= CountExpirable(bookings, later)
    decreases |bookings|
  {
    if bookings != [] {
      var last := |bookings| - 1;
      SweepMonotone(bookings[..last], now, later);
      var swept := Sweep(bookings, now);
      assert swept[..last] == Sweep(bookings[..last], now);
    }
  }

  /**
   * cleanup_expired_bookings: walks the bookings and expires each expirable one, returning
   * how many it expired. Details are untouched.
   */
  method CleanupExpiredBookings(table: BookingTable, now: int) returns (count: nat)
    requires table.Valid()
    modifies table
    ensures table.Valid() && table.details == old(table.details)
    ensures table.bookings == Sweep(old(table.bookings), now)
    ensures count == CountExpirable(old(table.bookings), now)
  {
    ghost var bookings0 := table.bookings;
    count := 0;
    var i := 0;
    while i < |table.bookings|
      invariant 0 <= i <= |table.bookings| == |bookings0|
      invariant forall j :: 0 <= j < i ==> table.bookings[j] == ExpireIfDue(bookings0[j], now)
      invariant forall j :: i <= j < |bookings0| ==> table.bookings[j] == bookings0[j]
      invariant count == CountExpirable(bookings0[..i], now)
      invariant table.details == old(table.details)
    {
      assert bookings0[..i + 1][..i] == bookings0[..i];
      var booking := table.bookings[i];
      if booking.bookingStatus == BookingPending && now - booking.bookingDate > MaxPendingAgeSeconds {
        table.bookings := table.bookings[i := booking.(bookingStatus := Expired)];
        count := count + 1;
      }
      i := i + 1;
    }
    assert bookings0[..i] == bookings0;
    assert table.bookings == Sweep(bookings0, now);
  }
}
