/**
 * The booking service: creating a PENDING booking from a request (caller check, showtime
 * check, per-seat existence and BOOKED checks, then booking, details and the caller's locks
 * dropped), reading a booking for its owner, and the owner-checked payment-status update.
 */
module BookingService {
  import opened Wrappers
  import opened Errors
  import opened Catalog
  import opened SeatRepo
  import opened SeatLocks
  import opened BookingRepo
  import SeatService

  datatype BookingRequest = BookingRequest(userId: nat, showtimeId: nat, seats: seq<SeatRequest>,
                                           totalAmount: int, paymentMethod: string)

  datatype BookingResponse = BookingResponse(bookingId: nat, userId: nat, showtimeId: nat, bookingDate: int,
                                             totalAmount: int, paymentMethod: string,
                                             paymentStatus: PaymentStatus, bookingStatus: BookingStatus,
                                             seats: seq<SeatRequest>)

  /** The seat ids of a request, in request order. */
  function RequestSeatIds(seats: seq<SeatRequest>): (ids: seq<nat>)
    ensures |ids| == |seats| && forall i :: 0 <= i < |seats| ==> ids[i] == seats[i].seatId
  {
    seq(|seats|, i requires 0 <= i < |seats| => seats[i].seatId)
  }

  /** Why create_booking refuses a requested seat: it does not exist, or it is BOOKED for the showtime. */
  function SeatRefusal(c: Catalog, rows: map<RowKey, SeatStatusRow>, showtime: nat, seat: nat): Option<Reason> {
    if GetSeatById(c, seat).None? then Some(SeatNotFound(seat))
    else if IsBooked(rows, showtime, seat) then Some(SeatAlreadyBooked(seat))
    else None
  }

  /**
   * The seat loop of create_booking, which only reads: the refusal of the first requested
   * seat that is missing or BOOKED, or None when every seat passes. A seat that is merely
   * held, by anyone, passes.
   */
  method CheckSeats(c: Catalog, table: SeatStatusTable, showtime: nat, seatIds: seq<nat>) returns (refusal: Option<Reason>)
    ensures refusal.None? <==> forall i :: 0 <= i < |seatIds| ==> SeatRefusal(c, table.rows, showtime, seatIds[i]).None?
    ensures refusal.Some? ==>
              exists n :: 0 <= n < |seatIds| && refusal == SeatRefusal(c, table.rows, showtime, seatIds[n]) &&
                          forall i :: 0 <= i < n ==> SeatRefusal(c, table.rows, showtime, seatIds[i]).None?
  {
    var i := 0;
    while i < |seatIds|
      invariant 0 <= i <= |seatIds|
      invariant forall j :: 0 <= j < i ==> SeatRefusal(c, table.rows, showtime, seatIds[j]).None?
    {
      var seatId := seatIds[i];
      var seat := GetSeatById(c, seatId);
      if seat.None? {
        return Some(SeatNotFound(seatId));
      }
      var row := table.GetSeatStatus(showtime, seatId);
      if row.Some? && row.value.status == Booked {
        return Some(SeatAlreadyBooked(seatId));
      }
      i := i + 1;
    }
    return None;
  }

  /** Why create_booking refuses the whole request, in the order it checks, or None. */
  function CreateRefusal(c: Catalog, rows: map<RowKey, SeatStatusRow>, req: BookingRequest, currentUser: nat,
                         seatRefusal: Option<Reason>): Option<Reason>
  {
    if req.userId != currentUser then Some(WrongUser)
    else if req.showtimeId !in c.showtimeRooms then Some(ShowtimeNotFound)
    else seatRefusal
  }

  /**
   * The success path of create_booking: the PENDING booking row, one detail per requested
   * seat, then the requester's locks on the requested seats are released.
   */
  method CommitBooking(bookingTable: BookingTable, store: SeatLockStore, req: BookingRequest, currentUser: nat, now: int)
    returns (response: BookingResponse)
    requires bookingTable.Valid() && store.Valid()
    modifies bookingTable, store
    ensures bookingTable.Valid() && store.Valid() && store.now == old(store.now)
    ensures
      var id := |old(bookingTable.bookings)| + 1;
      var n0 := |old(bookingTable.details)|;
      response == BookingResponse(id, req.userId, req.showtimeId, now, req.totalAmount, req.paymentMethod,
                                  PaymentPending, BookingPending, req.seats) &&
      bookingTable.bookings == old(bookingTable.bookings) +
        [Booking(id, req.userId, req.showtimeId, now, req.totalAmount, req.paymentMethod, PaymentPending, BookingPending)] &&
      |bookingTable.details| == n0 + |req.seats| && bookingTable.details[..n0] == old(bookingTable.details) &&
      (forall i :: 0 <= i < |req.seats| ==>
         bookingTable.details[n0 + i] == BookingDetail(id, req.seats[i].seatId, req.seats[i].price)) &&
      bookingTable.BookingSeatIds(id) == RequestSeatIds(req.seats) &&
      store.locks == RemoveSeats(old(store.locks), req.showtimeId,
                                 SeatService.Unlockable(old(store.locks), req.showtimeId, RequestSeatIds(req.seats), currentUser))
  {
    var seatIds := RequestSeatIds(req.seats);
    ghost var details0 := bookingTable.details;
    var booking := bookingTable.CreateBooking(req.userId, req.showtimeId, now, req.totalAmount, req.paymentMethod,
                                              PaymentPending, BookingPending);
    var created := bookingTable.CreateBookingDetails(booking.id, req.seats);
    assert bookingTable.details[..|details0|] == details0;
    NewBookingSeatIds(details0, created, booking.id, |old(bookingTable.bookings)|, seatIds);
    ghost var bookedSeats := bookingTable.BookingSeatIds(booking.id);
    var released, failed := SeatService.UnlockEach(store, req.showtimeId, seatIds, currentUser);
    assert bookingTable.BookingSeatIds(booking.id) == bookedSeats;
    response := BookingResponse(booking.id, booking.userId, booking.showtimeId, booking.bookingDate, booking.totalAmount,
                                booking.paymentMethod, booking.paymentStatus, booking.bookingStatus, req.seats);
  }

  /**
   * create_booking: forbidden for another user's request; NotFound for a missing showtime;
   * then the seat checks. On success a PENDING/PENDING booking dated now, one detail per
   * requested seat with its price, and the caller's locks on the requested seats removed
   * with the ownership check (other users' locks stay). Seat-status rows are not written.
   * Any refusal leaves every table and the lock store as they were.
   */
  method CreateBooking(c: Catalog, seatTable: SeatStatusTable, bookingTable: BookingTable, store: SeatLockStore,
                       req: BookingRequest, currentUser: nat, now: int)
    returns (r: Result<BookingResponse, Reason>)
    requires bookingTable.Valid() && store.Valid()
    modifies bookingTable, store
    ensures bookingTable.Valid() && store.Valid() && store.now == old(store.now)
    ensures seatTable.rows == old(seatTable.rows)
    ensures req.userId != currentUser ==> r == Err(WrongUser)
    ensures req.userId == currentUser && req.showtimeId !in c.showtimeRooms ==> r == Err(ShowtimeNotFound)
    ensures r.Ok? <==> req.userId == currentUser && req.showtimeId in c.showtimeRooms &&
                       forall i :: 0 <= i < |req.seats| ==> SeatRefusal(c, seatTable.rows, req.showtimeId, req.seats[i].seatId).None?
    ensures r.Err? && req.userId == currentUser && req.showtimeId in c.showtimeRooms ==>
              exists n :: 0 <= n < |req.seats| &&
                Some(r.error) == SeatRefusal(c, seatTable.rows, req.showtimeId, req.seats[n].seatId) &&
                forall i :: 0 <= i < n ==> SeatRefusal(c, seatTable.rows, req.showtimeId, req.seats[i].seatId).None?
    ensures r.Err? ==> bookingTable.bookings == old(bookingTable.bookings) && bookingTable.details == old(bookingTable.details) &&
                       store.locks == old(store.locks)
    ensures r.Ok? ==>
              var id := |old(bookingTable.bookings)| + 1;
              var n0 := |old(bookingTable.details)|;
              r.value == BookingResponse(id, req.userId, req.showtimeId, now, req.totalAmount, req.paymentMethod,
                                         PaymentPending, BookingPending, req.seats) &&
              bookingTable.bookings == old(bookingTable.bookings) +
                [Booking(id, req.userId, req.showtimeId, now, req.totalAmount, req.paymentMethod, PaymentPending, BookingPending)] &&
              |bookingTable.details| == n0 + |req.seats| && bookingTable.details[..n0] == old(bookingTable.details) &&
              (forall i :: 0 <= i < |req.seats| ==>
                 bookingTable.details[n0 + i] == BookingDetail(id, req.seats[i].seatId, req.seats[i].price)) &&
              bookingTable.BookingSeatIds(id) == RequestSeatIds(req.seats) &&
              store.locks == RemoveSeats(old(store.locks), req.showtimeId,
                                         SeatService.Unlockable(old(store.locks), req.showtimeId, RequestSeatIds(req.seats), currentUser))
  {
    if req.userId != currentUser {
      return Err(WrongUser);
    }
    if ShowtimeRoom(c, req.showtimeId).None? {
      return Err(ShowtimeNotFound);
    }
    var seatIds := RequestSeatIds(req.seats);
    var refusal := CheckSeats(c, seatTable, req.showtimeId, seatIds);
    if refusal.Some? {
      return Err(refusal.value);
    }
    var response := CommitBooking(bookingTable, store, req, currentUser, now);
    return Ok(response);
  }

  /** The details of a fresh booking id are exactly the ones just written for it, in request order. */
  lemma NewBookingSeatIds(details: seq<BookingDetail>, created: seq<BookingDetail>, id: nat, count: nat, seatIds: seq<nat>)
    requires forall d :: d in details ==> 1 <= d.bookingId <= count
    requires id == count + 1
    requires |created| == |seatIds| && forall i :: 0 <= i < |created| ==> created[i].bookingId == id && created[i].seatId == seatIds[i]
    ensures DetailSeatIds(details + created, id) == seatIds
  {
    DetailSeatIdsAppend(details, created, id);
    DetailSeatIdsOfOwn(created, id);
    DetailSeatIdsOfNone(details, id);
  }

  /** get_booking_by_id of the service: NotFound for an unknown id, Forbidden for another user's booking. */
  function GetBookingForUser(table: BookingTable, bookingId: nat, user: nat): (r: Result<Booking, Reason>)
    reads table
    requires table.Valid()
    ensures r == Err(BookingNotFound) <==> !(1 <= bookingId <= |table.bookings|)
    ensures r == Err(WrongUser) <==> 1 <= bookingId <= |table.bookings| && table.bookings[bookingId - 1].userId != user
    ensures r.Ok? ==> r.value in table.bookings && r.value.id == bookingId && r.value.userId == user
  {
    match table.GetBookingById(bookingId)
    case None => Err(BookingNotFound)
    case Some(b) => if b.userId != user then Err(WrongUser) else Ok(b)
  }

  /**
   * update_payment_status of the service: NotFound and Forbidden before any write; for
   * the owner, the repository update (payment status set, CONFIRMED only on PAID).
   */
  method UpdatePaymentStatus(table: BookingTable, bookingId: nat, payment: PaymentStatus, user: nat)
    returns (r: Result<Booking, Reason>)
    requires table.Valid()
    modifies table
    ensures table.Valid() && table.details == old(table.details)
    ensures r.Err? ==> r == old(GetBookingForUser(table, bookingId, user)) && table.bookings == old(table.bookings)
    ensures r.Ok? <==> old(GetBookingForUser(table, bookingId, user)).Ok?
    ensures r.Ok? ==>
              var before := old(table.bookings)[bookingId - 1];
              r.value == WithPaymentStatus(before, payment) &&
              r.value.paymentStatus == payment &&
              r.value.bookingStatus == (if payment == Paid then Confirmed else before.bookingStatus) &&
              table.bookings == old(table.bookings)[bookingId - 1 := r.value]
  {
    var found := GetBookingForUser(table, bookingId, user);
    if found.Err? {
      return Err(found.error);
    }
    var updated := table.UpdatePaymentStatus(bookingId, payment);
    return Ok(updated.value);
  }
}
