/**
 * The ephemeral seat-lock store: a key-value store with per-entry expiry, keyed by
 * (showtime, seat), whose values record who holds the seat and since when. Every
 * operation checks ownership before it writes. The store's own clock `now` decides which
 * entries are live; Tick advances it and drops the entries whose time-to-live has run out.
 */
module SeatLocks {
  import opened Wrappers
  import LockKeys

  type LockKey = (nat, nat)

  /**
   * A stored value: Held is the JSON record {user_id, locked_at, ...}; Malformed is a value
   * that does not decode. Both expire at `expiry`.
   */
  datatype LockEntry = Held(userId: nat, lockedAt: int, expiry: int) | Malformed(expiry: int)

  /** What get_seat_lock_info reports. */
  datatype LockInfo = LockInfo(userId: nat, lockedAt: int, ttlRemaining: int, seatId: nat, showtimeId: nat)

  /** The key exists and decodes to a lock owned by someone other than user. */
  predicate HeldByOther(locks: map<LockKey, LockEntry>, key: LockKey, user: nat) {
    key in locks && locks[key].Held? && locks[key].userId != user
  }

  /** The key exists and decodes to a lock owned by user. */
  predicate HeldBy(locks: map<LockKey, LockEntry>, key: LockKey, user: nat) {
    key in locks && locks[key].Held? && locks[key].userId == user
  }

  function HeldSeatsIn(locks: map<LockKey, LockEntry>, showtime: nat): set<nat> {
    set k | k in locks && k.0 == showtime && locks[k].Held? :: k.1
  }

  function UserSeatsIn(locks: map<LockKey, LockEntry>, showtime: nat, user: nat): set<nat> {
    set k | k in locks && k.0 == showtime && locks[k].Held? && locks[k].userId == user :: k.1
  }

  /** The store without the keys of the given seats in the given showtime. */
  function RemoveSeats(locks: map<LockKey, LockEntry>, showtime: nat, seats: set<nat>): map<LockKey, LockEntry> {
    map k | k in locks && !(k.0 == showtime && k.1 in seats) :: locks[k]
  }

  class SeatLockStore {
    var locks: map<LockKey, LockEntry>
    var now: int

    /** Only live entries are stored: expired ones are gone. */
    ghost predicate Valid()
      reads this
    {
      forall k :: k in locks ==> now < locks[k].expiry
    }

    constructor (start: int)
      ensures Valid() && locks == map[] && now == start
    {
      locks := map[];
      now := start;
    }

    /** The seats of a showtime with a decodable lock. */
    function HeldSeats(showtime: nat): set<nat>
      reads this
    {
      HeldSeatsIn(locks, showtime)
    }

    /** The seats of a showtime locked by the given user. */
    function UserSeats(showtime: nat, user: nat): set<nat>
      reads this
    {
      UserSeatsIn(locks, showtime, user)
    }

    /** Time passes: entries whose expiry is reached disappear. */
    method Tick(dt: nat)
      modifies this
      ensures Valid() && now == old(now) + dt
      ensures locks == map k | k in old(locks) && now < old(locks)[k].expiry :: old(locks)[k]
    {
      now := now + dt;
      locks := map k | k in locks && now < locks[k].expiry :: locks[k];
    }

    /**
     * lock_seat: refuse when another user holds the key; otherwise (absent key, the same
     * user renewing, or an undecodable value) write a fresh lock with expiry now + ttl.
     */
    method LockSeat(showtime: nat, seat: nat, user: nat, ttl: int) returns (ok: bool)
      requires Valid() && ttl > 0
      modifies this
      ensures Valid() && now == old(now)
      ensures ok <==> !HeldByOther(old(locks), (showtime, seat), user)
      ensures locks == if ok then old(locks)[(showtime, seat) := Held(user, now, now + ttl)] else old(locks)
    {
      var key := (showtime, seat);
      if HeldByOther(locks, key, user) {
        return false;
      }
      locks := locks[key := Held(user, now, now + ttl)];
      return true;
    }

    /**
     * unlock_seat: with a user id, refuse when another user holds the key; otherwise
     * delete the key and report whether it existed.
     */
    method UnlockSeat(showtime: nat, seat: nat, user: Option<nat>) returns (ok: bool)
      requires Valid()
      modifies this
      ensures Valid() && now == old(now)
      ensures user.Some? && HeldByOther(old(locks), (showtime, seat), user.value) ==> !ok && locks == old(locks)
      ensures !(user.Some? && HeldByOther(old(locks), (showtime, seat), user.value)) ==>
                ok == ((showtime, seat) in old(locks)) && locks == old(locks) - {(showtime, seat)}
    {
      var key := (showtime, seat);
      if user.Some? && HeldByOther(locks, key, user.value) {
        return false;
      }
      ok := key in locks;
      locks := locks - {key};
    }

    /** is_seat_locked: a key exists, decodable or not. */
    function IsSeatLocked(showtime: nat, seat: nat): (locked: bool)
      reads this
      requires Valid()
      ensures locked <==> GetSeatLockInfo(showtime, seat).Some? || ((showtime, seat) in locks && locks[(showtime, seat)].Malformed?)
    {
      (showtime, seat) in locks
    }

    /** get_seat_lock_info: the owner, lock time and remaining time-to-live of a decodable lock. */
    function GetSeatLockInfo(showtime: nat, seat: nat): (info: Option<LockInfo>)
      reads this
      requires Valid()
      ensures info.None? <==> (showtime, seat) !in locks || locks[(showtime, seat)].Malformed?
      ensures info.Some? ==> info.value.ttlRemaining > 0 && info.value.seatId == seat && info.value.showtimeId == showtime
      ensures info.Some? ==> (showtime, seat) in locks &&
                             info.value.userId == locks[(showtime, seat)].userId &&
                             info.value.lockedAt == locks[(showtime, seat)].lockedAt &&
                             now + info.value.ttlRemaining == locks[(showtime, seat)].expiry
    {
      var key := (showtime, seat);
      if key !in locks then None
      else match locks[key]
        case Malformed(_) => None
        case Held(u, at, expiry) => Some(LockInfo(u, at, expiry - now, seat, showtime))
    }

    /**
     * extend_lock: only the owner of a decodable lock may extend it; the new expiry is
     * now + ttl and the owner and lock time are kept. A ttl that is not positive makes the
     * key expire at once (Redis EXPIRE deletes it), and the call still succeeds.
     */
    method ExtendLock(showtime: nat, seat: nat, user: nat, ttl: int) returns (ok: bool)
      requires Valid()
      modifies this
      ensures Valid() && now == old(now)
      ensures ok <==> HeldBy(old(locks), (showtime, seat), user)
      ensures ok && ttl > 0 ==> locks == old(locks)[(showtime, seat) := old(locks)[(showtime, seat)].(expiry := now + ttl)]
      ensures ok && ttl <= 0 ==> locks == old(locks) - {(showtime, seat)}
      ensures !ok ==> locks == old(locks)
    {
      var key := (showtime, seat);
      if key !in locks || locks[key].Malformed? || locks[key].userId != user {
        return false;
      }
      if ttl > 0 {
        locks := locks[key := locks[key].(expiry := now + ttl)];
      } else {
        locks := locks - {key};
      }
      return true;
    }

    /**
     * unlock_all_seats_for_user: list the showtime's locks, then unlock, with the
     * ownership check, each one the user holds; the count is the number of successful unlocks.
     */
    method UnlockAllSeatsForUser(showtime: nat, user: nat) returns (count: nat)
      requires Valid()
      modifies this
      ensures Valid() && now == old(now)
      ensures count == |old(UserSeats(showtime, user))|
      ensures locks == RemoveSeats(old(locks), showtime, old(UserSeats(showtime, user)))
    {
      var infos := GetAllLocksForShowtime(showtime);
      assert forall j :: 0 <= j < |infos| ==> HeldBy(locks, (showtime, infos[j].seatId), infos[j].userId);
      UserSeatsFromInfos(locks, infos, showtime, user);
      count := UnlockListed(showtime, user, infos);
    }

    /** The loop of unlock_all_seats_for_user over an already listed set of locks. */
    method UnlockListed(showtime: nat, user: nat, infos: seq<LockInfo>) returns (count: nat)
      requires Valid()
      requires forall j :: 0 <= j < |infos| ==> HeldBy(locks, (showtime, infos[j].seatId), infos[j].userId)
      requires forall i, j :: 0 <= i < j < |infos| ==> infos[i].seatId != infos[j].seatId
      modifies this
      ensures Valid() && now == old(now)
      ensures count == |SeatsOfUser(infos, |infos|, user)|
      ensures locks == RemoveSeats(old(locks), showtime, SeatsOfUser(infos, |infos|, user))
    {
      ghost var locks0 := locks;
      ghost var removed: set<nat> := {};
      count := 0;
      var i := 0;
      while i < |infos|
        invariant 0 <= i <= |infos|
        invariant Valid() && now == old(now)
        invariant removed == SeatsOfUser(infos, i, user)
        invariant forall j :: i <= j < |infos| ==> infos[j].seatId !in removed
        invariant count == |removed|
        invariant locks == RemoveSeats(locks0, showtime, removed)
      {
        var info := infos[i];
        SeatsOfUserStep(infos, i, user);
        if info.userId == user {
          assert HeldBy(locks0, (showtime, info.seatId), user);
          assert (showtime, info.seatId) in locks && locks[(showtime, info.seatId)] == locks0[(showtime, info.seatId)];
          var ok := UnlockSeat(showtime, info.seatId, Some(user));
          assert ok;
          RemoveSeatsStep(locks0, showtime, removed, info.seatId);
          count := count + 1;
          removed := removed + {info.seatId};
        }
        i := i + 1;
      }
    }

    /** The keys Redis KEYS returns for the showtime's pattern: exactly that showtime's keys. */
    function KeysMatching(showtime: nat): (keys: set<LockKey>)
      reads this
      ensures forall k :: k in keys <==> k in locks && k.0 == showtime
    {
      var keys := set k | k in locks && LockKeys.MatchesPattern(LockKeys.LockKey(k.0, k.1), LockKeys.ShowtimePattern(showtime));
      assert forall k :: k in keys <==> k in locks && k.0 == showtime by {
        forall k | k in locks {
          LockKeys.LockKeyMatchesPatternIff(k.0, k.1, showtime);
        }
      }
      keys
    }

    /**
     * get_all_locks_for_showtime: scan the keys matching the showtime's pattern, read the
     * seat id back out of each key, and collect the lock info of every decodable entry.
     */
    method GetAllLocksForShowtime(showtime: nat) returns (infos: seq<LockInfo>)
      requires Valid()
      ensures forall i :: 0 <= i < |infos| ==> GetSeatLockInfo(showtime, infos[i].seatId) == Some(infos[i])
      ensures forall i, j :: 0 <= i < j < |infos| ==> infos[i].seatId != infos[j].seatId
      ensures SeatIds(infos) == HeldSeats(showtime)
    {
      var keys := KeysMatching(showtime);
      infos := [];
      ghost var seen: set<LockKey> := {};
      while keys != {}
        invariant keys !! seen
        invariant forall k :: k in keys + seen <==> k in locks && k.0 == showtime
        invariant forall i :: 0 <= i < |infos| ==> GetSeatLockInfo(showtime, infos[i].seatId) == Some(infos[i])
        invariant forall i, j :: 0 <= i < j < |infos| ==> infos[i].seatId != infos[j].seatId
        invariant SeatIds(infos) == HeldSeatsAmong(locks, seen)
        decreases keys
      {
        var k :| k in keys;
        LockKeys.LockKeyRoundTrip(k.0, k.1);
        var seat := LockKeys.ParseSeatId(LockKeys.LockKey(k.0, k.1));
        assert seat == Some(k.1);
        var info := GetSeatLockInfo(showtime, seat.value);
        HeldSeatsAmongStep(locks, seen, k);
        if info.Some? {
          SeatIdsAppend(infos, info.value);
          infos := infos + [info.value];
        }
        keys := keys - {k};
        seen := seen + {k};
      }
      HeldSeatsAmongAll(locks, seen, showtime);
    }
  }

  /** The seats, among the given keys, that carry a decodable lock. */
  ghost function HeldSeatsAmong(locks: map<LockKey, LockEntry>, keys: set<LockKey>): set<nat> {
    set k | k in keys && k in locks && locks[k].Held? :: k.1
  }

  /** Adding a key of the same showtime that was not yet scanned adds its seat, which is new, exactly when it is decodable. */
  lemma HeldSeatsAmongStep(locks: map<LockKey, LockEntry>, seen: set<LockKey>, k: LockKey)
    requires k !in seen && forall s :: s in seen ==> s.0 == k.0
    ensures k.1 !in HeldSeatsAmong(locks, seen)
    ensures HeldSeatsAmong(locks, seen + {k}) ==
            HeldSeatsAmong(locks, seen) + (if k in locks && locks[k].Held? then {k.1} else {})
  {
  }

  lemma HeldSeatsAmongAll(locks: map<LockKey, LockEntry>, seen: set<LockKey>, showtime: nat)
    requires forall k :: k in seen <==> k in locks && k.0 == showtime
    ensures HeldSeatsAmong(locks, seen) == HeldSeatsIn(locks, showtime)
  {
  }

  /** The seat ids a list of lock infos mentions. */
  function SeatIds(infos: seq<LockInfo>): set<nat> {
    set i | 0 <= i < |infos| :: infos[i].seatId
  }

  lemma SeatIdsAppend(infos: seq<LockInfo>, info: LockInfo)
    ensures SeatIds(infos + [info]) == SeatIds(infos) + {info.seatId}
  {
    var s := infos + [info];
    assert s[|infos|].seatId == info.seatId;
    forall x | x in SeatIds(infos) ensures x in SeatIds(s) {
      var i :| 0 <= i < |infos| && infos[i].seatId == x;
      assert s[i].seatId == x;
    }
  }

  /** The seats of the first n lock infos that belong to user. */
  ghost function SeatsOfUser(infos: seq<LockInfo>, n: nat, user: nat): set<nat>
    requires n <= |infos|
  {
    set j | 0 <= j < n && infos[j].userId == user :: infos[j].seatId
  }

  lemma SeatsOfUserStep(infos: seq<LockInfo>, n: nat, user: nat)
    requires n < |infos|
    ensures SeatsOfUser(infos, n + 1, user) ==
            SeatsOfUser(infos, n, user) + (if infos[n].userId == user then {infos[n].seatId} else {})
  {
  }

  /** A complete listing of a showtime's locks names exactly the user's locked seats once filtered by owner. */
  lemma UserSeatsFromInfos(locks: map<LockKey, LockEntry>, infos: seq<LockInfo>, showtime: nat, user: nat)
    requires forall j :: 0 <= j < |infos| ==> HeldBy(locks, (showtime, infos[j].seatId), infos[j].userId)
    requires SeatIds(infos) == HeldSeatsIn(locks, showtime)
    ensures SeatsOfUser(infos, |infos|, user) == UserSeatsIn(locks, showtime, user)
  {
    forall x | x in UserSeatsIn(locks, showtime, user) ensures x in SeatsOfUser(infos, |infos|, user) {
      assert x in HeldSeatsIn(locks, showtime);
      var j :| 0 <= j < |infos| && infos[j].seatId == x;
    }
    forall x | x in SeatsOfUser(infos, |infos|, user) ensures x in UserSeatsIn(locks, showtime, user) {
      var j :| 0 <= j < |infos| && infos[j].userId == user && infos[j].seatId == x;
      assert HeldBy(locks, (showtime, x), user);
    }
  }

  lemma RemoveSeatsStep(locks: map<LockKey, LockEntry>, showtime: nat, seats: set<nat>, seat: nat)
    ensures RemoveSeats(locks, showtime, seats) - {(showtime, seat)} == RemoveSeats(locks, showtime, seats + {seat})
  {
  }
}
