/**
 * The durable seat-status table: at most one row per (showtime, seat) - the table's
 * unique constraint, modelled by keying a map on that pair - with status AVAILABLE, HOLD
 * or BOOKED, the holder and hold expiry, and the time of the last update. Also the reads
 * of the seats table that the repository offers.
 */
module SeatRepo {
  import opened Wrappers
  import opened Catalog
  import Sorting

  datatype SeatStatus = Available | Hold | Booked

  datatype SeatStatusRow = SeatStatusRow(status: SeatStatus, holdByUserId: Option<nat>, holdExpiredAt: Option<int>, updatedAt: int)

  /** (showtime id, seat id) */
  type RowKey = (nat, nat)

  datatype RepoError = UniqueViolation | RowNotFound

  /** get_seat_by_id: the seat with the given primary key. */
  function GetSeatById(c: Catalog, id: nat): (seat: Option<Seat>)
    ensures seat.Some? ==> seat.value.id == id && seat.value in c.seats
    ensures seat.None? <==> forall s :: s in c.seats ==> s.id != id
  {
    FindSeat(c.seats, id)
  }

  function FindSeat(seats: seq<Seat>, id: nat): (seat: Option<Seat>)
    ensures seat.Some? ==> seat.value.id == id && seat.value in seats
    ensures seat.None? <==> forall s :: s in seats ==> s.id != id
  {
    if seats == [] then None
    else if seats[0].id == id then Some(seats[0])
    else
      var rest := FindSeat(seats[1..], id);
      assert forall s :: s in seats ==> s == seats[0] || s in seats[1..];
      rest
  }

  /** Code-point lexicographic order on names: a is a prefix of b or differs first by a smaller character. */
  predicate LexLe(a: string, b: string) {
    |a| == 0 || (|b| > 0 && (a[0] < b[0] || (a[0] == b[0] && LexLe(a[1..], b[1..]))))
  }

  lemma {:induction false} LexLeTotal(a: string, b: string)
    ensures LexLe(a, b) || LexLe(b, a)
  {
    if |a| > 0 && |b| > 0 && a[0] == b[0] {
      LexLeTotal(a[1..], b[1..]);
    }
  }

  predicate SeatNameLe(a: Seat, b: Seat) {
    LexLe(a.seatName, b.seatName)
  }

  lemma SeatNameLeTotal()
    ensures Sorting.Total(SeatNameLe)
  {
    forall a: Seat, b: Seat ensures SeatNameLe(a, b) || SeatNameLe(b, a) {
      LexLeTotal(a.seatName, b.seatName);
    }
  }

  /** get_seats_by_room: exactly the room's seats, each as often as the table holds it, ordered by name. */
  function GetSeatsByRoom(c: Catalog, roomId: nat): (seats: seq<Seat>)
    ensures forall s :: multiset(seats)[s] == if s.roomId == roomId then multiset(c.seats)[s] else 0
    ensures Sorting.Sorted(seats, SeatNameLe)
  {
    SeatNameLeTotal();
    Sorting.InsertionSort(Sorting.Filter(c.seats, (s: Seat) => s.roomId == roomId), SeatNameLe)
  }

  /** The row the hold operations write. */
  function HoldRow(user: nat, holdMinutes: int, now: int): SeatStatusRow {
    SeatStatusRow(Hold, Some(user), Some(now + holdMinutes * 60), now)
  }

  /** The row release_seat leaves behind. */
  function ReleasedRow(now: int): SeatStatusRow {
    SeatStatusRow(Available, None, None, now)
  }

  predicate IsBooked(rows: map<RowKey, SeatStatusRow>, showtime: nat, seat: nat) {
    (showtime, seat) in rows && rows[(showtime, seat)].status == Booked
  }

  function SeatsWithStatus(rows: map<RowKey, SeatStatusRow>, showtime: nat, status: SeatStatus): set<nat> {
    set k | k in rows && k.0 == showtime && rows[k].status == status :: k.1
  }

  function ShowtimeSeats(rows: map<RowKey, SeatStatusRow>, showtime: nat): set<nat> {
    set k | k in rows && k.0 == showtime :: k.1
  }

  /** Releasing a HOLD row makes the showtime's available count grow by exactly one and leaves other showtimes' counts alone. */
  lemma ReleaseAddsOneAvailable(rows: map<RowKey, SeatStatusRow>, showtime: nat, seat: nat, now: int)
    requires (showtime, seat) in rows && rows[(showtime, seat)].status == Hold
    ensures |SeatsWithStatus(rows[(showtime, seat) := ReleasedRow(now)], showtime, Available)| ==
            |SeatsWithStatus(rows, showtime, Available)| + 1
    ensures forall other :: other != showtime ==>
              SeatsWithStatus(rows[(showtime, seat) := ReleasedRow(now)], other, Available) ==
              SeatsWithStatus(rows, other, Available)
  {
    var after := rows[(showtime, seat) := ReleasedRow(now)];
    var before := SeatsWithStatus(rows, showtime, Available);
    assert seat !in before;
    forall x | x in SeatsWithStatus(after, showtime, Available) ensures x in before + {seat} {
      if x != seat {
        assert (showtime, x) in rows && rows[(showtime, x)].status == Available;
      }
    }
    forall x | x in before + {seat} ensures x in SeatsWithStatus(after, showtime, Available) {
      assert (showtime, x) in after;
    }
    assert SeatsWithStatus(after, showtime, Available) == before + {seat};
  }

  lemma {:induction false} CardinalityMonotone(a: set<nat>, b: set<nat>)
    requires a <= b
    ensures |a| <= |b|
    decreases |a|
  {
    if a != {} {
      var x :| x in a;
      CardinalityMonotone(a - {x}, b - {x});
    }
  }

  class SeatStatusTable {
    var rows: map<RowKey, SeatStatusRow>

    constructor ()
      ensures rows == map[]
    {
      rows := map[];
    }

    /** get_seat_status: the unique row of (showtime, seat), if any. */
    function GetSeatStatus(showtime: nat, seat: nat): (row: Option<SeatStatusRow>)
      reads this
      ensures row.Some? <==> (showtime, seat) in rows
      ensures row.Some? ==> row.value == rows[(showtime, seat)]
    {
      if (showtime, seat) in rows then Some(rows[(showtime, seat)]) else None
    }

    /** get_seats_status_by_showtime: the showtime's rows, by seat. */
    function GetSeatsStatusByShowtime(showtime: nat): (byShowtime: map<nat, SeatStatusRow>)
      reads this
      ensures forall seat :: seat in byShowtime <==> (showtime, seat) in rows
      ensures forall seat :: seat in byShowtime ==> byShowtime[seat] == rows[(showtime, seat)]
    {
      map k | k in rows && k.0 == showtime :: k.1 := rows[k]
    }

    /** create_seat_status: insert a HOLD row; a second row for the same pair violates the unique constraint. */
    method CreateSeatStatus(showtime: nat, seat: nat, user: nat, holdMinutes: int, now: int)
      returns (r: Result<SeatStatusRow, RepoError>)
      modifies this
      ensures (showtime, seat) in old(rows) ==> r == Err(UniqueViolation) && rows == old(rows)
      ensures (showtime, seat) !in old(rows) ==>
                r == Ok(HoldRow(user, holdMinutes, now)) && rows == old(rows)[(showtime, seat) := HoldRow(user, holdMinutes, now)]
    {
      if (showtime, seat) in rows {
        return Err(UniqueViolation);
      }
      var row := HoldRow(user, holdMinutes, now);
      rows := rows[(showtime, seat) := row];
      return Ok(row);
    }

    /** update_seat_status_hold: overwrite an existing row to HOLD, whatever its status was. */
    method UpdateSeatStatusHold(showtime: nat, seat: nat, user: nat, holdMinutes: int, now: int)
      returns (row: SeatStatusRow)
      requires (showtime, seat) in rows
      modifies this
      ensures row == old(rows)[(showtime, seat)].(status := Hold, holdByUserId := Some(user),
                                                   holdExpiredAt := Some(now + holdMinutes * 60), updatedAt := now)
      ensures row == HoldRow(user, holdMinutes, now)
      ensures rows == old(rows)[(showtime, seat) := row]
    {
      row := rows[(showtime, seat)].(status := Hold, holdByUserId := Some(user),
                                      holdExpiredAt := Some(now + holdMinutes * 60), updatedAt := now);
      rows := rows[(showtime, seat) := row];
    }

    /** hold_seat: create the row when absent, else overwrite it to HOLD without looking at its status. */
    method HoldSeat(showtime: nat, seat: nat, user: nat, holdMinutes: int, now: int)
      returns (row: SeatStatusRow)
      modifies this
      ensures row == HoldRow(user, holdMinutes, now)
      ensures rows == old(rows)[(showtime, seat) := row]
    {
      if (showtime, seat) !in rows {
        var r := CreateSeatStatus(showtime, seat, user, holdMinutes, now);
        row := r.value;
      } else {
        row := UpdateSeatStatusHold(showtime, seat, user, holdMinutes, now);
      }
    }

    /** release_seat: a HOLD row becomes AVAILABLE with holder and expiry cleared; anything else is left alone. */
    method ReleaseSeat(showtime: nat, seat: nat, now: int) returns (released: bool)
      modifies this
      ensures released <==> (showtime, seat) in old(rows) && old(rows)[(showtime, seat)].status == Hold
      ensures rows == if released then old(rows)[(showtime, seat) := ReleasedRow(now)] else old(rows)
    {
      if (showtime, seat) in rows && rows[(showtime, seat)].status == Hold {
        rows := rows[(showtime, seat) := ReleasedRow(now)];
        return true;
      }
      return false;
    }

    /** book_seat: fail without a row; otherwise BOOKED, expiry cleared, holder kept. */
    method BookSeat(showtime: nat, seat: nat, now: int) returns (r: Result<SeatStatusRow, RepoError>)
      modifies this
      ensures (showtime, seat) !in old(rows) ==> r == Err(RowNotFound) && rows == old(rows)
      ensures (showtime, seat) in old(rows) ==>
                r.Ok? && r.value.status == Booked && r.value.holdExpiredAt.None? &&
                r.value.holdByUserId == old(rows)[(showtime, seat)].holdByUserId && r.value.updatedAt == now &&
                rows == old(rows)[(showtime, seat) := r.value]
    {
      if (showtime, seat) !in rows {
        return Err(RowNotFound);
      }
      var row := rows[(showtime, seat)].(status := Booked, holdExpiredAt := None, updatedAt := now);
      rows := rows[(showtime, seat) := row];
      return Ok(row);
    }

    /** get_available_seats_count: the showtime's AVAILABLE rows; seats without a row are not counted. */
    function GetAvailableSeatsCount(showtime: nat): (count: nat)
      reads this
      ensures count <= |ShowtimeSeats(rows, showtime)|
      ensures count == |SeatsWithStatus(rows, showtime, Available)|
    {
      CardinalityMonotone(SeatsWithStatus(rows, showtime, Available), ShowtimeSeats(rows, showtime));
      |SeatsWithStatus(rows, showtime, Available)|
    }
  }
}
