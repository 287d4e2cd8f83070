/**
 * The bookings table (ids assigned by auto-increment, so the booking with id i is row
 * i - 1), the booking-details table, and the writer that marks seats BOOKED in the
 * seat-status table once a payment succeeds.
 */
module BookingRepo {
  import opened Wrappers
  import Sorting
  import opened SeatRepo

  /**
   * A payment-status text other than the three the code compares against; the column is
   * free text, so any other value may be stored, and it means none of the three.
   */
  type OtherPaymentText = s: string | s != "PENDING" && s != "PAID" && s != "FAILED" witness ""

  /** The payment-status column: "PENDING", "PAID", "FAILED", or any other text. */
  datatype PaymentStatus = PaymentPending | Paid | PaymentFailed | PaymentOther(text: OtherPaymentText)

  datatype BookingStatus = BookingPending | Confirmed | Cancelled | Expired

  /** A booking row; bookingDate is its creation time in seconds. */
  datatype Booking = Booking(id: nat, userId: nat, showtimeId: nat, bookingDate: int, totalAmount: int,
                             paymentMethod: string, paymentStatus: PaymentStatus, bookingStatus: BookingStatus)

  datatype BookingDetail = BookingDetail(bookingId: nat, seatId: nat, price: int)

  datatype SeatRequest = SeatRequest(seatId: nat, price: int)

  /** What update_payment_status does to a booking row. */
  function WithPaymentStatus(b: Booking, payment: PaymentStatus): Booking {
    b.(paymentStatus := payment, bookingStatus := if payment == Paid then Confirmed else b.bookingStatus)
  }

  /** Newest first: ORDER BY booking_date DESC. */
  predicate NotOlder(a: Booking, b: Booking) {
    a.bookingDate >= b.bookingDate
  }

  /** The seat ids of a booking's details, in table order (select seat_id ... where booking_id = ...). */
  function DetailSeatIds(details: seq<BookingDetail>, bookingId: nat): (seats: seq<nat>)
    ensures |seats| <= |details|
    ensures forall seat :: seat in seats <==> BookingDetail(bookingId, seat, 0) in DetailKeys(details)
  {
    if details == [] then []
    else
      var rest := DetailSeatIds(details[1..], bookingId);
      assert DetailKeys(details) == DetailKeys([details[0]]) + DetailKeys(details[1..]);
      (if details[0].bookingId == bookingId then [details[0].seatId] else []) + rest
  }

  /** The (booking, seat) pairs the details mention, with the price blanked out. */
  function DetailKeys(details: seq<BookingDetail>): set<BookingDetail> {
    set d | d in details :: d.(price := 0)
  }

  /** The seat ids of a booking in a concatenation of detail lists are those of each part, in order. */
  lemma {:induction false} DetailSeatIdsAppend(details: seq<BookingDetail>, added: seq<BookingDetail>, bookingId: nat)
    ensures DetailSeatIds(details + added, bookingId) == DetailSeatIds(details, bookingId) + DetailSeatIds(added, bookingId)
    decreases |details|
  {
    if details != [] {
      assert (details + added)[1..] == details[1..] + added;
      DetailSeatIdsAppend(details[1..], added, bookingId);
    } else {
      assert details + added == added;
    }
  }

  /** A booking id no detail mentions has no seats. */
  lemma {:induction false} DetailSeatIdsOfNone(details: seq<BookingDetail>, bookingId: nat)
    requires forall i :: 0 <= i < |details| ==> details[i].bookingId != bookingId
    ensures DetailSeatIds(details, bookingId) == []
    decreases |details|
  {
    if details != [] {
      DetailSeatIdsOfNone(details[1..], bookingId);
    }
  }

  /** Details that all belong to one booking give back their seat ids, one per detail, in order. */
  lemma {:induction false} DetailSeatIdsOfOwn(added: seq<BookingDetail>, bookingId: nat)
    requires forall i :: 0 <= i < |added| ==> added[i].bookingId == bookingId
    ensures |DetailSeatIds(added, bookingId)| == |added|
    ensures forall i :: 0 <= i < |added| ==> DetailSeatIds(added, bookingId)[i] == added[i].seatId
    decreases |added|
  {
    if added != [] {
      DetailSeatIdsOfOwn(added[1..], bookingId);
    }
  }

  /** The row update_seat_status_to_booked leaves for key k. */
  function BookedRow(rows: map<RowKey, SeatStatusRow>, k: RowKey, now: int): SeatStatusRow {
    if k in rows then rows[k].(status := Booked, holdByUserId := None, holdExpiredAt := None)
    else SeatStatusRow(Booked, None, None, now)
  }

  /**
   * The seat-status table after update_seat_status_to_booked: every listed seat has a BOOKED
   * row for the showtime with holder and expiry cleared (an existing row is overwritten
   * whatever its status, a missing one is created), and every other row is untouched.
   */
  function MarkBooked(rows: map<RowKey, SeatStatusRow>, showtime: nat, seats: seq<nat>, now: int)
    : (after: map<RowKey, SeatStatusRow>)
    ensures forall k :: k in after <==> k in rows || (k.0 == showtime && k.1 in seats)
    ensures forall seat :: seat in seats ==>
              IsBooked(after, showtime, seat) &&
              after[(showtime, seat)].holdByUserId.None? && after[(showtime, seat)].holdExpiredAt.None?
    ensures forall k :: k in rows && !(k.0 == showtime && k.1 in seats) ==> after[k] == rows[k]
  {
    map k | k in rows.Keys + (set seat | seat in seats :: (showtime, seat)) ::
      if k.0 == showtime && k.1 in seats then BookedRow(rows, k, now) else rows[k]
  }

  /** Marking one more seat is one more update of the marked table. */
  lemma MarkBookedStep(rows: map<RowKey, SeatStatusRow>, showtime: nat, seats: seq<nat>, seat: nat, now: int)
    ensures MarkBooked(rows, showtime, seats + [seat], now) ==
            MarkBooked(rows, showtime, seats, now)[(showtime, seat) := BookedRow(MarkBooked(rows, showtime, seats, now), (showtime, seat), now)]
  {
    var m := MarkBooked(rows, showtime, seats, now);
    var key := (showtime, seat);
    assert BookedRow(m, key, now) == BookedRow(rows, key, now);
  }

  /**
   * update_seat_status_to_booked: for each listed seat, update its row or create one.
   */
  method UpdateSeatStatusToBooked(table: SeatStatusTable, showtime: nat, seatIds: seq<nat>, now: int)
    modifies table
    ensures table.rows == MarkBooked(old(table.rows), showtime, seatIds, now)
  {
    var i := 0;
    while i < |seatIds|
      invariant 0 <= i <= |seatIds|
      invariant table.rows == MarkBooked(old(table.rows), showtime, seatIds[..i], now)
    {
      var key := (showtime, seatIds[i]);
      MarkBookedStep(old(table.rows), showtime, seatIds[..i], seatIds[i], now);
      assert seatIds[..i + 1] == seatIds[..i] + [seatIds[i]];
      if key in table.rows {
        table.rows := table.rows[key := table.rows[key].(status := Booked, holdByUserId := None, holdExpiredAt := None)];
      } else {
        table.rows := table.rows[key := SeatStatusRow(Booked, None, None, now)];
      }
      i := i + 1;
    }
    assert seatIds[..i] == seatIds;
  }

  class BookingTable {
    var bookings: seq<Booking>
    var details: seq<BookingDetail>

    /**
     * Auto-increment ids: the booking in row i has id i + 1; and the foreign key of
     * booking_details: every detail names an existing booking.
     */
    ghost predicate Valid()
      reads this
    {
      (forall i :: 0 <= i < |bookings| ==> bookings[i].id == i + 1) &&
      (forall d :: d in details ==> 1 <= d.bookingId <= |bookings|)
    }

    constructor ()
      ensures Valid() && bookings == [] && details == []
    {
      bookings := [];
      details := [];
    }

    /** get_booking_by_id. */
    function GetBookingById(id: nat): (b: Option<Booking>)
      reads this
      requires Valid()
      ensures b.Some? <==> 1 <= id <= |bookings|
      ensures b.Some? ==> b.value.id == id && b.value in bookings
    {
      if 1 <= id <= |bookings| then Some(bookings[id - 1]) else None
    }

    /** create_booking: insert a row and return it with its new id. */
    method CreateBooking(userId: nat, showtimeId: nat, date: int, amount: int, paymentMethod: string,
                         payment: PaymentStatus, status: BookingStatus)
      returns (b: Booking)
      requires Valid()
      modifies this
      ensures Valid() && details == old(details)
      ensures b == Booking(|old(bookings)| + 1, userId, showtimeId, date, amount, paymentMethod, payment, status)
      ensures bookings == old(bookings) + [b]
    {
      b := Booking(|bookings| + 1, userId, showtimeId, date, amount, paymentMethod, payment, status);
      bookings := bookings + [b];
    }

    /** create_booking_details: one detail per requested seat, in request order, all for the given booking. */
    method CreateBookingDetails(bookingId: nat, seats: seq<SeatRequest>) returns (created: seq<BookingDetail>)
      requires Valid() && 1 <= bookingId <= |bookings|
      modifies this
      ensures Valid()
      ensures |created| == |seats|
      ensures forall i :: 0 <= i < |seats| ==> created[i] == BookingDetail(bookingId, seats[i].seatId, seats[i].price)
      ensures details == old(details) + created && bookings == old(bookings)
    {
      created := [];
      var i := 0;
      while i < |seats|
        invariant 0 <= i <= |seats|
        invariant |created| == i
        invariant forall j :: 0 <= j < i ==> created[j] == BookingDetail(bookingId, seats[j].seatId, seats[j].price)
        invariant details == old(details) + created && bookings == old(bookings)
        invariant Valid()
      {
        var detail := BookingDetail(bookingId, seats[i].seatId, seats[i].price);
        details := details + [detail];
        created := created + [detail];
        i := i + 1;
      }
    }

    /**
     * update_payment_status: the payment status is always set; the booking becomes
     * CONFIRMED only when the new payment status is PAID. An unknown id changes nothing.
     */
    method UpdatePaymentStatus(id: nat, payment: PaymentStatus) returns (r: Option<Booking>)
      requires Valid()
      modifies this
      ensures Valid() && details == old(details)
      ensures !(1 <= id <= |old(bookings)|) ==> r.None? && bookings == old(bookings)
      ensures 1 <= id <= |old(bookings)| ==>
                r.Some? && r.value.paymentStatus == payment &&
                r.value.bookingStatus == (if payment == Paid then Confirmed else old(bookings)[id - 1].bookingStatus) &&
                r.value == WithPaymentStatus(old(bookings)[id - 1], payment) &&
                bookings == old(bookings)[id - 1 := r.value]
    {
      if !(1 <= id <= |bookings|) {
        return None;
      }
      var b := WithPaymentStatus(bookings[id - 1], payment);
      bookings := bookings[id - 1 := b];
      return Some(b);
    }

    /** The seat ids of a booking's details, in insertion order. */
    function BookingSeatIds(bookingId: nat): (seats: seq<nat>)
      reads this
      requires Valid()
      ensures forall seat :: seat in seats <==> BookingDetail(bookingId, seat, 0) in DetailKeys(details)
      ensures bookingId > |bookings| ==> seats == []
    {
      var seats := DetailSeatIds(details, bookingId);
      assert bookingId > |bookings| ==> seats == [] by {
        if bookingId > |bookings| {
          DetailSeatIdsOfNone(details, bookingId);
        }
      }
      seats
    }

    /** get_bookings_by_user: exactly the user's bookings, newest first. */
    function GetBookingsByUser(userId: nat): (r: seq<Booking>)
      reads this
      ensures forall b :: multiset(r)[b] == if b.userId == userId then multiset(bookings)[b] else 0
      ensures Sorting.Sorted(r, NotOlder)
    {
      Sorting.InsertionSort(Sorting.Filter(bookings, (b: Booking) => b.userId == userId), NotOlder)
    }
  }
}
