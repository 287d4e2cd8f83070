# Cinema seat holds and bookings, modelled in Dafny

This project models the seat-hold and booking lifecycle of a cinema ticketing backend:

- the ephemeral seat-lock store that holds seats for a few minutes (`seat_lock:{showtime}:{seat}` keys with a time-to-live);
- the durable seat-status table (AVAILABLE / HOLD / BOOKED, at most one row per showtime and seat);
- the bookings and booking-details tables;
- the services that build the seat map, hold and release seats, create a PENDING booking, settle a VNPay payment and write BOOKED rows;
- the periodic task that expires unpaid bookings.

Modules, one per source file, plus shared plumbing:

| module | file | models |
|---|---|---|
| `Wrappers`, `Errors` | `wrappers.dfy` | Option/Result, the business errors and their HTTP codes |
| `LockKeys` | `lock_keys.dfy` | the text form of lock keys and patterns, and parsing a seat id back out of a key |
| `Sorting` | `sorting.dfy` | ORDER BY on a filtered table (stable insertion sort, filter) |
| `Catalog` | `catalog.dfy` | the showtime-to-room map and the seats table, which the core only reads |
| `SeatLocks` | `seat_locks.dfy` | the lock manager, as a class over a map from (showtime, seat) to lock entries with a clock |
| `SeatRepo` | `seat_repo.dfy` | the seat repository, as a class over a map keyed by the unique (showtime, seat) pair |
| `BookingRepo` | `booking_repo.dfy` | the booking repository: bookings with auto-increment ids, and booking details |
| `SeatService` | `seat_service.dfy` | the seat service |
| `BookingService` | `booking_service.dfy` | the booking service |
| `PaymentService` | `payment_service.dfy` | the payment service |
| `CleanupTask` | `cleanup_task.dfy` | the expired-booking sweep of the worker |

Time is integer seconds. The lock store carries its own clock `now`. Every stored entry is live (`Valid()`), and `Tick` advances the clock and drops entries whose time-to-live has run out. Database operations take the current time as a parameter. A stored lock value that does not decode as JSON is `Malformed`: it exists and expires, but it has no owner.

## Model

| member | source | states |
|---|---|---|
| `Errors.StatusCode` | app/services/seat_service.py:112-146 | every business error maps to 400, 403, 404 or 500, and exactly the not-found errors map to 404 |
| `LockKeys.ParseNatToString` | app/utils/redis_lock.py:151-153 | `int()` of the decimal text of an id gives the id back |
| `LockKeys.NatToStringInjective` | app/utils/redis_lock.py:23-25 | different ids never render to the same text, so different seats get different keys |
| `LockKeys.LockKeyRoundTrip` | app/utils/redis_lock.py:151-153 | splitting `seat_lock:{showtime}:{seat}` on ':' gives the three parts, and the third part parses back to the seat id |
| `LockKeys.LockKeyMatchesPatternIff` | app/utils/redis_lock.py:28-30 | a lock key matches the pattern `seat_lock:{q}:*` if and only if the key belongs to showtime q |
| `Sorting.InsertionSort` | app/repositories/seat_repo.py:21-24 | ORDER BY returns a permutation of its input, sorted by the given total order |
| `Sorting.Filter` | app/repositories/seat_repo.py:21-24 | WHERE keeps exactly the matching rows, each with its multiplicity |
| `Catalog.ShowtimeRoom` | app/services/seat_service.py:26-35 | a room is found if and only if the showtime exists, and it is that showtime's room |
| `SeatLocks.SeatLockStore.Tick` | app/utils/redis_lock.py:68-72 | passing time removes exactly the entries whose expiry has been reached |
| `SeatLocks.SeatLockStore.LockSeat` | app/utils/redis_lock.py:33-75 | refuses if and only if another user holds a decodable lock; otherwise writes a fresh lock for the user that expires at now + ttl; an undecodable value is overwritten |
| `SeatLocks.SeatLockStore.UnlockSeat` | app/utils/redis_lock.py:78-105 | with a user id, another user's lock is kept and the call fails; otherwise the key is deleted, and the result says whether it existed |
| `SeatLocks.SeatLockStore.IsSeatLocked` | app/utils/redis_lock.py:108-111 | true if and only if a key exists, whether or not its value decodes |
| `SeatLocks.SeatLockStore.GetSeatLockInfo` | app/utils/redis_lock.py:114-137 | None if and only if the key is absent or undecodable; otherwise the owner, the lock time and a positive remaining ttl (expiry - now) |
| `SeatLocks.SeatLockStore.ExtendLock` | app/utils/redis_lock.py:181-204 | succeeds if and only if the user owns a decodable lock; then a positive ttl sets the expiry to now + ttl with owner and lock time kept, and a non-positive ttl deletes the key (EXPIRE with a non-positive timeout); a failed call changes nothing |
| `SeatLocks.SeatLockStore.KeysMatching` | app/utils/redis_lock.py:145-146 | KEYS with the showtime pattern returns exactly the stored keys of that showtime |
| `SeatLocks.SeatLockStore.GetAllLocksForShowtime` | app/utils/redis_lock.py:140-162 | one info per decodable lock of the showtime, with no seat repeated; each info equals `get_seat_lock_info` of its seat; undecodable entries are skipped |
| `SeatLocks.SeatLockStore.UnlockAllSeatsForUser` | app/utils/redis_lock.py:165-178 | removes exactly the user's locks in the showtime, keeps every other key, and returns how many it removed |
| `SeatLocks.SeatLockStore.UnlockListed` | app/utils/redis_lock.py:172-175 | over a listing of decodable locks, removes exactly the listed seats owned by the user and counts them |
| `SeatLocks.UserSeatsFromInfos` | app/utils/redis_lock.py:169-175 | filtering a complete listing by owner yields exactly the user's locked seats |
| `SeatLocks.HeldSeatsAmongAll` | app/utils/redis_lock.py:146-160 | scanning all keys of a showtime collects exactly the seats with a decodable lock |
| `SeatRepo.GetSeatById` | app/repositories/seat_repo.py:16-18 | the seat with that primary key, or None if and only if no seat has it |
| `SeatRepo.GetSeatsByRoom` | app/repositories/seat_repo.py:21-24 | exactly the room's seats, each with its multiplicity, sorted by seat name |
| `SeatRepo.LexLeTotal` | app/repositories/seat_repo.py:23 | ordering names by code point is total, so ORDER BY seat_name is well defined |
| `SeatRepo.ReleaseAddsOneAvailable` | app/repositories/seat_repo.py:100-112 | releasing a HOLD row adds exactly one AVAILABLE seat to its showtime and leaves other showtimes' counts alone |
| `SeatRepo.SeatStatusTable.GetSeatStatus` | app/repositories/seat_repo.py:27-33 | the unique row of (showtime, seat), if there is one |
| `SeatRepo.SeatStatusTable.GetSeatsStatusByShowtime` | app/repositories/seat_repo.py:36-39 | exactly the showtime's rows, by seat |
| `SeatRepo.SeatStatusTable.CreateSeatStatus` | app/repositories/seat_repo.py:42-62 | inserts a HOLD row for the user that expires holdMinutes later; a second row for the same pair is a unique-constraint error and changes nothing |
| `SeatRepo.SeatStatusTable.UpdateSeatStatusHold` | app/repositories/seat_repo.py:65-79 | overwrites an existing row to HOLD, whatever its status was |
| `SeatRepo.SeatStatusTable.HoldSeat` | app/repositories/seat_repo.py:82-97 | creates the row when it is absent, else overwrites it to HOLD, even over BOOKED |
| `SeatRepo.SeatStatusTable.ReleaseSeat` | app/repositories/seat_repo.py:100-112 | succeeds if and only if the row is HOLD; that row becomes AVAILABLE with holder and expiry cleared; nothing else changes |
| `SeatRepo.SeatStatusTable.BookSeat` | app/repositories/seat_repo.py:115-128 | a missing row is an error and changes nothing; otherwise the row becomes BOOKED with expiry cleared and holder kept |
| `SeatRepo.SeatStatusTable.GetAvailableSeatsCount` | app/repositories/seat_repo.py:131-137 | the number of the showtime's AVAILABLE rows; seats without a row are not counted |
| `BookingRepo.DetailSeatIds` | app/services/payment_service.py:57-61 | a seat is listed if and only if some detail of the booking names it |
| `BookingRepo.DetailSeatIdsAppend` | app/repositories/booking_repo.py:27-39 | appending details appends their seats for each booking, in order |
| `BookingRepo.DetailSeatIdsOfOwn` | app/repositories/booking_repo.py:27-39 | details that all belong to one booking give back their seat ids one-for-one, in order |
| `BookingRepo.DetailSeatIdsOfNone` | app/repositories/booking_repo.py:27-39 | a booking that no detail names has no seats |
| `BookingRepo.MarkBooked` | app/repositories/booking_repo.py:42-68 | every listed seat gets a BOOKED row with holder and expiry cleared, created if it was missing; all other rows are untouched |
| `BookingRepo.MarkBookedStep` | app/repositories/booking_repo.py:47-67 | marking one more seat is one more row update of the already-marked table |
| `BookingRepo.UpdateSeatStatusToBooked` | app/repositories/booking_repo.py:42-68 | the loop leaves exactly `MarkBooked` of the old rows |
| `BookingRepo.BookingTable.constructor` | app/repositories/booking_repo.py:18-24 | an empty table satisfies the id and foreign-key invariant |
| `BookingRepo.BookingTable.GetBookingById` | app/repositories/booking_repo.py:71-74 | found if and only if the id exists; the booking returned has that id |
| `BookingRepo.BookingTable.CreateBooking` | app/repositories/booking_repo.py:18-24 | appends a booking with the next id and the given fields; details are untouched |
| `BookingRepo.BookingTable.CreateBookingDetails` | app/repositories/booking_repo.py:27-39 | appends one detail per seat, in order, with the seat's price, and keeps the foreign key valid |
| `BookingRepo.BookingTable.UpdatePaymentStatus` | app/repositories/booking_repo.py:152-162 | an unknown id changes nothing; otherwise sets the payment status, and sets CONFIRMED exactly when the new status is PAID (any other text is `PaymentOther`, which by its type is never PENDING, PAID or FAILED) |
| `BookingRepo.BookingTable.BookingSeatIds` | app/services/payment_service.py:57-61 | a seat is listed if and only if a detail of that booking names it (in table order, as `BookingRepo.DetailSeatIdsAppend` states); a booking id beyond the table has no seats |
| `BookingRepo.BookingTable.GetBookingsByUser` | app/repositories/booking_repo.py:146-149 | exactly the user's bookings, each with its multiplicity, newest first |
| `SeatService.HoldExpiredAtAsWritten` | app/services/seat_service.py:69-83 | (see Findings) lock time plus remaining ttl |
| `SeatService.HoldExpiredAtAsWrittenIsEarly` | app/services/seat_service.py:69-83 | once any time has passed since locking, the reported expiry is earlier than the real one |
| `SeatService.HoldExpiredAtAsWrittenExample` | app/services/seat_service.py:69-83 | locked at 0 for 600 s and viewed at 100: reports 500, not 600 |
| `SeatService.HoldExpiredAt` | app/services/seat_service.py:69-83 | corrected: the lock's real expiry, which lies after now |
| `SeatService.SeatViewOf` | app/services/seat_service.py:52-95 | a seat's entry keeps its id, name, type and price; it is BOOKED if and only if a BOOKED row exists, else HOLD if and only if a decodable lock exists, else AVAILABLE; holder and expiry are present exactly for HOLD, and are the lock's owner and its corrected expiry (see Findings) |
| `SeatService.GetSeatsByShowtime` | app/services/seat_service.py:20-97 | 404 for a missing showtime or a room without seats; otherwise one entry per room seat, in name order, each that seat's `SeatService.SeatViewOf` entry |
| `SeatService.SeatViewsOf` | app/services/seat_service.py:52-95 | one view per seat, in order, each built by the per-seat rule |
| `SeatService.GetAvailableSeatsCount` | app/services/seat_service.py:211-235 | 404 if and only if the showtime is missing; otherwise room seats minus BOOKED rows minus listed locks, clamped at zero and never above the room size |
| `SeatService.LockAllAt` | app/services/seat_service.py:121-166 | after locking a list of seats, a key is present if and only if it was before or is a listed seat, and listed seats carry the new lock |
| `SeatService.LockAllStep` | app/services/seat_service.py:150-155 | locking one more seat is one more store update |
| `SeatService.HoldRefusalAfterPrefix` | app/services/seat_service.py:121-166 | locking earlier seats of the same request does not change how a later seat is judged |
| `SeatService.HoldOne` | app/services/seat_service.py:121-166 | refuses for the first reason that applies (missing seat 404, BOOKED 400, held by another 400); otherwise locks the seat for the user |
| `SeatService.HoldNext` | app/services/seat_service.py:121-166 | one step judged against the store before the loop: the seat's refusal, or the seat locked and the prefix grown by one |
| `SeatService.HoldEach` | app/services/seat_service.py:121-173 | stops at the first refused seat; every seat before it is locked for the user and no other key changes |
| `SeatService.HoldSeats` | app/services/seat_service.py:99-175 | 404 for a missing showtime; succeeds if and only if every seat passes, and then returns one HOLD entry per seat expiring at now + holdMinutes minutes; on a refusal the seats before it stay locked |
| `SeatService.SeatSetPrefixIndex` | app/services/seat_service.py:190 | a seat among the first n listed has a position before n |
| `SeatService.UnlockStep` | app/services/seat_service.py:190-203 | an owner-checked unlock after earlier unlocks removes a key exactly when the seat is new and was unlockable at the start |
| `SeatService.UnlockOne` | app/services/seat_service.py:190-203 | reports success exactly when the unlock removed a key |
| `SeatService.FailedEntriesStep` | app/services/seat_service.py:190-203 | one more request entry fails exactly when the user may not unlock its seat or an earlier entry named the same seat |
| `SeatService.FailedEntriesWithin` | app/services/seat_service.py:190-203 | every failed entry is an entry of the request |
| `SeatService.FailedEntriesCoverLocked` | app/services/seat_service.py:190-203 | every requested seat without a key, or with another user's key, is among the failed entries |
| `SeatService.UnlockNext` | app/services/seat_service.py:190-203 | one step judged against the store before the loop: the released set and the failed list grow by the rule of `SeatService.FailedEntries` |
| `SeatService.UnlockEach` | app/services/seat_service.py:190-203 | removes exactly the listed seats that had a key not held by another user; the failures are exactly `SeatService.FailedEntries` (in request order: seats without a key, seats another user holds, and repeats of an earlier entry); released plus failures equal the request size |
| `SeatService.ReleaseSeats` | app/services/seat_service.py:177-209 | the summary: released = number of keys removed, failed = exactly the request entries whose unlock removed no key, in request order, total = request size; other users' locks are kept |
| `SeatService.HoldThenRelease` | app/services/seat_service.py:99-209 | holding free seats and then releasing them restores the lock store and releases every distinct seat |
| `SeatService.LockThenUnlock` | app/services/seat_service.py:99-209 | locking free seats and then unlocking them with the ownership check restores the store |
| `SeatService.CanBookPrefixStep` | app/services/seat_service.py:257-283 | a prefix of distinct bookable seats grows by a bookable seat not yet listed |
| `SeatService.CanBookPrefixDuplicate` | app/services/seat_service.py:257-283 | a seat listed twice fails the second time, because its lock is already gone |
| `SeatService.BookRowsStep` | app/services/seat_service.py:276-279 | booking one more seat is one more row update |
| `SeatService.BookRefusalAfterPrefix` | app/services/seat_service.py:257-283 | after earlier seats are booked, they read as not held by the user; other seats are judged as at the start |
| `SeatService.BookOne` | app/services/seat_service.py:259-279 | checks the lock (absent or undecodable: not held by you; another owner: held by other; no row: status missing); otherwise writes BOOKED and drops the lock |
| `SeatService.BookNext` | app/services/seat_service.py:257-281 | one step judged against the state before the loop |
| `SeatService.BookEach` | app/services/seat_service.py:257-283 | books, in order, the longest bookable prefix; those seats are BOOKED and unlocked, and nothing else changes |
| `SeatService.RollbackAfterPrefix` | app/services/seat_service.py:284-290 | the rollback unlock after a partial booking equals one owner-checked unlock of the whole list from the start |
| `SeatService.BookSeatsAfterPayment` | app/services/seat_service.py:237-290 | succeeds if and only if all seats are distinct, locked by the user and have rows; then all become BOOKED and unlocked; on failure the first refusal is reported, the booked prefix stays BOOKED, and every listed seat is unlocked with the ownership check |
| `SeatService.CancelHoldForUser` | app/services/seat_service.py:292-302 | removes exactly the user's locks in the showtime and returns how many |
| `BookingService.RequestSeatIds` | app/services/booking_service.py:47 | the request's seat ids, in order |
| `BookingService.CheckSeats` | app/services/booking_service.py:49-71 | None if and only if every seat exists and is not BOOKED; otherwise the refusal of the first failing seat |
| `BookingService.CommitBooking` | app/services/booking_service.py:72-128 | the success path: a PENDING/PENDING booking with the next id, one detail per seat with its price, exactly the requested seats for the new id, and the user's locks on them removed |
| `BookingService.CreateBooking` | app/services/booking_service.py:22-139 | 403 for another user's request, 404 for a missing showtime, then the first seat refusal, with nothing changed; on success a PENDING/PENDING booking with the next id, one detail per seat with its price, exactly the requested seats for the new id, the user's locks on them removed, and no seat row written |
| `BookingService.NewBookingSeatIds` | app/services/booking_service.py:72-95 | the details of a fresh booking id are exactly those just written, in request order |
| `BookingService.GetBookingForUser` | app/services/booking_service.py:142-159 | 404 if and only if the id is unknown, 403 if and only if the booking is another user's; otherwise the user's booking |
| `BookingService.UpdatePaymentStatus` | app/services/booking_service.py:175-208 | 404 and 403 as above, with nothing changed; for the owner, the repository update |
| `PaymentService.Confirm` | app/services/payment_service.py:17-117 | not found if and only if the id is unknown, with nothing changed; only the confirmed booking's row can change |
| `PaymentService.PaymentBooksSeats` | app/services/payment_service.py:44-88 | response code "00" on an unpaid booking leaves it PAID and CONFIRMED, with every seat of its details BOOKED and holder-free, and other showtimes' rows untouched |
| `PaymentService.RejectionKeepsSeats` | app/services/payment_service.py:89-106 | any other code sets FAILED and keeps the booking status and every seat row |
| `PaymentService.ConfirmIdempotent` | app/services/payment_service.py:32-41 | once PAID, a further confirmation with any code answers "already paid" and changes nothing |
| `PaymentService.ConfirmVnpayPayment` | app/services/payment_service.py:17-117 | the tables end up exactly as `Confirm` says; details are untouched |
| `PaymentService.GetPaymentStatus` | app/services/payment_service.py:119-143 | 404 if and only if the id is unknown; 403 if and only if a non-zero caller id differs from the owner; otherwise the booking's payment and booking status |
| `CleanupTask.Sweep` | app/worker/tasks.py:37-57 | each PENDING booking older than 600 s becomes EXPIRED with every other field kept, and all other bookings are unchanged |
| `CleanupTask.CountExpirable` | app/worker/tasks.py:43-56 | the count never exceeds the number of bookings; `CleanupTask.CountIsExpired` ties it to the bookings actually expired |
| `CleanupTask.ExpirableIndicesStep` | app/worker/tasks.py:44-56 | the expirable positions of a list are those of its front plus possibly the last |
| `CleanupTask.CountIsExpired` | app/worker/tasks.py:43-61 | the reported count is the number of bookings expired |
| `CleanupTask.SweepIdempotent` | app/worker/tasks.py:31-61 | a second sweep at the same time expires nothing and changes nothing |
| `CleanupTask.SweepMonotone` | app/worker/tasks.py:31-61 | a later sweep subsumes an earlier one and expires at least as many bookings |
| `CleanupTask.CleanupExpiredBookings` | app/worker/tasks.py:23-66 | the loop leaves exactly `Sweep` of the old bookings, returns `CountExpirable`, and keeps details and ids |

## Left out

- Concurrency: the store and the database are modelled as one sequential state. Races between two users, Redis atomicity, transactions and isolation are not modelled. The durable unique constraint appears only as the map key of the seat-status table.
- I/O: sending emails, Celery dispatch, logging, HTTP routing, authentication and request schemas are not part of this model. The schema bounds (showtime id > 0, at least one seat) appear as `requires` of `HoldSeats` and `ReleaseSeats`.
- Redis or database exceptions, and the generic 500 wrappers that catch them, are not modelled. Each operation either completes or returns one of the business errors. The `try/except` around each unlock in `create_booking` is therefore a no-op here.
- Prices and amounts are integers rather than floats. Timestamps are integer seconds rather than datetimes.
- `LockKeys.ParseNat` accepts only plain decimal digits. Python's `int()` also accepts signs, surrounding whitespace and underscores, which the keys this store writes never contain.
- `SeatLocks.SeatLockStore.LockSeat` and the hold methods require a positive ttl. Redis answers SETEX with a non-positive expiry by an error, and errors of the store are not modelled. `SeatLocks.SeatLockStore.ExtendLock` takes any ttl, because EXPIRE with a non-positive timeout deletes the key and reports success.
- `get_booking_with_details` is not modelled. Responses carry the booking row (plus its seat ids after a payment) instead of the joined showtime, film and user fields. `get_user_bookings` is reduced to `BookingRepo.BookingTable.GetBookingsByUser`.
- `SeatService.BookSeatsAfterPayment` omits the `booking_id` parameter, which the source does not use.
- `SeatService.GetSeatsByShowtime` reports a hold's expiry as the corrected `SeatService.HoldExpiredAt` (the lock's real expiry), not the source's `locked_at + ttl_remaining`. The as-written value is modelled separately, in `SeatService.HoldExpiredAtAsWritten` (see Findings).
- `SeatRepo.GetSeatsByRoom` sorts seat names by code point (`SeatRepo.LexLe`). The database sorts ORDER BY seat_name by the column's collation, which may order case, accents and digits differently.
- `SeatService.HoldSeats` builds its answer list after the loop instead of seat by seat. The list is the same, because a refusal discards it.
- `SeatService.HoldThenRelease` states only that the lock store is restored. The seat map then follows, because it reads only the rows, the locks and the clock, but the comparison across the two heaps is not stated as a contract.
- `BookingRepo.BookingTable.CreateBookingDetails` requires the booking to exist. This is the table's foreign key, which the database enforces.
- The code does none of the following, and the model follows it:
  - no partial-conflict answer on holds: the first refused seat aborts the request and earlier seats stay locked;
  - no compare-and-set in the expiry sweep;
  - a confirmation is not refused after the booking has expired or failed;
  - FAILED payments do not move the booking to CANCELLED;
  - the sweep does not release any seat.

## Findings

| source | as written | input that shows it | evidently intended | confidence | as-written member | corrected member |
|---|---|---|---|---|---|---|
| app/services/seat_service.py:69-83 | the seat map reports a hold's expiry as `locked_at + ttl_remaining` | a lock taken at t = 0 with a 600 s ttl, viewed at t = 100: `ttl_remaining` is 500, so the map says 500 while the lock lives until 600 | the expiry is now + `ttl_remaining`, which is the lock's real expiry | high, not executed | `SeatService.HoldExpiredAtAsWritten` (shown early by `SeatService.HoldExpiredAtAsWrittenIsEarly` and `SeatService.HoldExpiredAtAsWrittenExample`) | `SeatService.HoldExpiredAt` |
