/** Option and Result, the shapes used for the source's `None` returns and raised errors. */
module Wrappers {
  datatype Option<+T> = None | Some(value: T)

  datatype Result<+T, +E> = Ok(value: T) | Err(error: E)
}

/** The business errors the services raise, each with the HTTP status the source attaches to it. */
module Errors {
  datatype Reason =
    | ShowtimeNotFound
    | NoSeatsInRoom
    | SeatNotFound(seatId: nat)
    | SeatAlreadyBooked(seatId: nat)
    | SeatHeldByOther(seatId: nat)
    | SeatNotHeldByYou(seatId: nat)
    | SeatStatusMissing(seatId: nat)
    | BookingNotFound
    | WrongUser

  /** HTTP status code of each error; SeatStatusMissing is the ValueError book_seat raises. */
  function StatusCode(r: Reason): (code: nat)
    ensures code in {400, 403, 404, 500}
    ensures code == 404 <==> r.ShowtimeNotFound? || r.NoSeatsInRoom? || r.SeatNotFound? || r.BookingNotFound?
  {
    match r
    case ShowtimeNotFound => 404
    case NoSeatsInRoom => 404
    case SeatNotFound(_) => 404
    case SeatAlreadyBooked(_) => 400
    case SeatHeldByOther(_) => 400
    case SeatNotHeldByYou(_) => 400
    case SeatStatusMissing(_) => 500
    case BookingNotFound => 404
    case WrongUser => 403
  }
}
