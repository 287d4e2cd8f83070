/**
 * The payment service: the VNPay return handler, which settles a booking's payment and,
 * on success, writes BOOKED seat-status rows for the booking's seats; and the
 * payment-status read with its optional owner check.
 */
module PaymentService {
  import opened Wrappers
  import opened Errors
  import opened SeatRepo
  import opened BookingRepo

  /** The VNPay response code meaning the payment went through. */
  const SuccessCode: string := "00"

  /** What confirm_vnpay_payment answers when the booking exists. */
  datatype Outcome =
    | AlreadyPaid(booking: Booking)
    | PaymentSucceeded(booking: Booking, seats: seq<nat>)
    | PaymentRejected(code: string)

  /** The answer of confirm_vnpay_payment together with the bookings and seat rows it leaves. */
  datatype Settlement = Settlement(result: Result<Outcome, Reason>, bookings: seq<Booking>, rows: map<RowKey, SeatStatusRow>)

  /**
   * confirm_vnpay_payment on the table contents: NotFound for an unknown id; a booking
   * already PAID is answered as it is; response code "00" sets PAID (and so CONFIRMED) and
   * marks every seat of the booking's details BOOKED for its showtime; any other code sets
   * FAILED and leaves the booking status and the seats alone. A FAILED or EXPIRED booking is
   * not refused.
   */
  function Confirm(bookings: seq<Booking>, details: seq<BookingDetail>, rows: map<RowKey, SeatStatusRow>,
                   bookingId: nat, code: string, now: int): (s: Settlement)
    ensures s.result == Err(BookingNotFound) <==> !(1 <= bookingId <= |bookings|)
    ensures s.result.Err? ==> s.result == Err(BookingNotFound) && s.bookings == bookings && s.rows == rows
    ensures |s.bookings| == |bookings| &&
            forall i :: 0 <= i < |bookings| && i != bookingId - 1 ==> s.bookings[i] == bookings[i]
  {
    if !(1 <= bookingId <= |bookings|) then Settlement(Err(BookingNotFound), bookings, rows)
    else
      var b := bookings[bookingId - 1];
      if b.paymentStatus == Paid then Settlement(Ok(AlreadyPaid(b)), bookings, rows)
      else if code == SuccessCode then
        var paid := WithPaymentStatus(b, Paid);
        var seats := DetailSeatIds(details, bookingId);
        Settlement(Ok(PaymentSucceeded(paid, seats)), bookings[bookingId - 1 := paid], MarkBooked(rows, b.showtimeId, seats, now))
      else
        Settlement(Ok(PaymentRejected(code)), bookings[bookingId - 1 := WithPaymentStatus(b, PaymentFailed)], rows)
  }

  /**
   * A successful payment leaves the booking PAID and CONFIRMED, every seat of its details
   * BOOKED for its showtime with no holder, and every other seat row as it was.
   */
  lemma {:induction false} PaymentBooksSeats(bookings: seq<Booking>, details: seq<BookingDetail>, rows: map<RowKey, SeatStatusRow>,
                                             bookingId: nat, now: int)
    requires 1 <= bookingId <= |bookings| && bookings[bookingId - 1].paymentStatus != Paid
    ensures var s := Confirm(bookings, details, rows, bookingId, SuccessCode, now);
            var b := bookings[bookingId - 1];
            s.result.Ok? && s.result.value.PaymentSucceeded? &&
            s.bookings[bookingId - 1] == s.result.value.booking &&
            s.result.value.booking.paymentStatus == Paid && s.result.value.booking.bookingStatus == Confirmed &&
            (forall seat :: BookingDetail(bookingId, seat, 0) in DetailKeys(details) ==>
               IsBooked(s.rows, b.showtimeId, seat) && s.rows[(b.showtimeId, seat)].holdByUserId.None?) &&
            (forall k :: k in rows && k.0 != b.showtimeId ==> k in s.rows && s.rows[k] == rows[k])
  {
    var b := bookings[bookingId - 1];
    var seats := DetailSeatIds(details, bookingId);
    var s := Confirm(bookings, details, rows, bookingId, SuccessCode, now);
    assert s.rows == MarkBooked(rows, b.showtimeId, seats, now);
    forall seat | BookingDetail(bookingId, seat, 0) in DetailKeys(details)
      ensures IsBooked(s.rows, b.showtimeId, seat) && s.rows[(b.showtimeId, seat)].holdByUserId.None?
    {
      assert seat in seats;
    }
  }

  /** A rejected payment marks the booking FAILED and touches neither its booking status nor any seat. */
  lemma {:induction false} RejectionKeepsSeats(bookings: seq<Booking>, details: seq<BookingDetail>, rows: map<RowKey, SeatStatusRow>,
                                               bookingId: nat, code: string, now: int)
    requires 1 <= bookingId <= |bookings| && bookings[bookingId - 1].paymentStatus != Paid && code != SuccessCode
    ensures var s := Confirm(bookings, details, rows, bookingId, code, now);
            s.result == Ok(PaymentRejected(code)) && s.rows == rows &&
            s.bookings[bookingId - 1].paymentStatus == PaymentFailed &&
            s.bookings[bookingId - 1].bookingStatus == bookings[bookingId - 1].bookingStatus
  {
    var b := bookings[bookingId - 1];
    assert WithPaymentStatus(b, PaymentFailed).bookingStatus == b.bookingStatus;
  }

  /**
   * Confirming again after any confirm that left the booking PAID answers AlreadyPaid and
   * changes nothing, whatever the second response code: the handler is idempotent once paid.
   */
  lemma {:induction false} ConfirmIdempotent(bookings: seq<Booking>, details: seq<BookingDetail>, rows: map<RowKey, SeatStatusRow>,
                                             bookingId: nat, code: string, again: string, now: int, later: int)
    requires var s := Confirm(bookings, details, rows, bookingId, code, now);
             s.result.Ok? && 1 <= bookingId <= |bookings| && s.bookings[bookingId - 1].paymentStatus == Paid
    ensures var s := Confirm(bookings, details, rows, bookingId, code, now);
            var t := Confirm(s.bookings, details, s.rows, bookingId, again, later);
            t.result == Ok(AlreadyPaid(s.bookings[bookingId - 1])) && t.bookings == s.bookings && t.rows == s.rows
  {
  }

  /**
   * confirm_vnpay_payment against the tables: the new bookings and seat rows are those of
   * Confirm, and the booking details are untouched.
   */
  method ConfirmVnpayPayment(bookingTable: BookingTable, seatTable: SeatStatusTable, bookingId: nat, code: string, now: int)
    returns (r: Result<Outcome, Reason>)
    requires bookingTable.Valid()
    modifies bookingTable, seatTable
    ensures bookingTable.Valid() && bookingTable.details == old(bookingTable.details)
    ensures var s := Confirm(old(bookingTable.bookings), old(bookingTable.details), old(seatTable.rows), bookingId, code, now);
            r == s.result && bookingTable.bookings == s.bookings && seatTable.rows == s.rows
  {
    var found := bookingTable.GetBookingById(bookingId);
    if found.None? {
      return Err(BookingNotFound);
    }
    var booking := found.value;
    if booking.paymentStatus == Paid {
      return Ok(AlreadyPaid(booking));
    }
    if code == SuccessCode {
      var paid := bookingTable.UpdatePaymentStatus(bookingId, Paid);
      var seatIds := bookingTable.BookingSeatIds(bookingId);
      UpdateSeatStatusToBooked(seatTable, booking.showtimeId, seatIds, now);
      return Ok(PaymentSucceeded(paid.value, seatIds));
    } else {
      var failed := bookingTable.UpdatePaymentStatus(bookingId, PaymentFailed);
      return Ok(PaymentRejected(code));
    }
  }

  /** What get_payment_status answers. */
  datatype PaymentView = PaymentView(bookingId: nat, paymentStatus: PaymentStatus, bookingStatus: BookingStatus,
                                     paymentMethod: string, totalAmount: int, bookingDate: int)

  /**
   * get_payment_status: NotFound for an unknown id; Forbidden only when a caller is given,
   * the caller id is not 0 (the source's truthiness test lets 0 through like no caller) and
   * the booking is someone else's.
   */
  function GetPaymentStatus(table: BookingTable, bookingId: nat, user: Option<nat>): (r: Result<PaymentView, Reason>)
    reads table
    requires table.Valid()
    ensures r == Err(BookingNotFound) <==> !(1 <= bookingId <= |table.bookings|)
    ensures r == Err(WrongUser) <==>
              1 <= bookingId <= |table.bookings| && user.Some? && user.value != 0 &&
              table.bookings[bookingId - 1].userId != user.value
    ensures r.Ok? ==>
              var b := table.bookings[bookingId - 1];
              r.value.bookingId == bookingId && r.value.paymentStatus == b.paymentStatus &&
              r.value.bookingStatus == b.bookingStatus && r.value.totalAmount == b.totalAmount
  {
    match table.GetBookingById(bookingId)
    case None => Err(BookingNotFound)
    case Some(b) =>
      if user.Some? && user.value != 0 && b.userId != user.value then Err(WrongUser)
      else Ok(PaymentView(b.id, b.paymentStatus, b.bookingStatus, b.paymentMethod, b.totalAmount, b.bookingDate))
  }
}
