/**
 * The catalog tables the core reads but never writes: which room each showtime plays in,
 * and the seats table (in storage order) with each seat's room, name, type and price.
 */
module Catalog {
  import opened Wrappers

  datatype Seat = Seat(id: nat, roomId: nat, seatName: string, seatType: string, price: int)

  datatype Catalog = Catalog(showtimeRooms: map<nat, nat>, seats: seq<Seat>)

  /** The room a showtime plays in, or None when the showtime does not exist. */
  function ShowtimeRoom(c: Catalog, showtime: nat): (room: Option<nat>)
    ensures room.Some? <==> showtime in c.showtimeRooms
    ensures room.Some? ==> room.value == c.showtimeRooms[showtime]
  {
    if showtime in c.showtimeRooms then Some(c.showtimeRooms[showtime]) else None
  }
}
