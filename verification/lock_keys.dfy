/**
 * The text form of seat-lock keys in the ephemeral store: `seat_lock:{showtime}:{seat}`,
 * the per-showtime glob `seat_lock:{showtime}:*`, and the parsing that recovers the seat id
 * from a key by splitting it on ':' and reading the third part as a decimal integer.
 */
module LockKeys {
  import opened Wrappers

  const LockPrefix: string := "seat_lock"

  predicate IsDigit(c: char) {
    '0' <= c <= '9'
  }

  /** A non-empty run of decimal digits. */
  predicate IsDigits(s: string) {
    |s| > 0 && forall i :: 0 <= i < |s| ==> IsDigit(s[i])
  }

  function DigitChar(d: nat): (c: char)
    requires d < 10
    ensures IsDigit(c)
  {
    ('0' as int + d) as char
  }

  /** Decimal rendering of a non-negative integer, as Python's f-string does it. */
  function NatToString(n: nat): (s: string)
    ensures IsDigits(s)
    decreases n
  {
    if n < 10 then [DigitChar(n)] else NatToString(n / 10) + [DigitChar(n % 10)]
  }

  /** Value of a run of decimal digits, read from the most significant digit. */
  function DigitsValue(s: string): nat
    requires forall i :: 0 <= i < |s| ==> IsDigit(s[i])
  {
    if |s| == 0 then 0
    else
      var last := s[|s| - 1];
      assert IsDigit(last);
      DigitsValue(s[..|s| - 1]) * 10 + (last as int - '0' as int)
  }

  /** Python's int() on a key part, restricted to plain decimal digits; None is its ValueError. */
  function ParseNat(s: string): Option<nat> {
    if IsDigits(s) then Some(DigitsValue(s)) else None
  }

  lemma {:induction false} ParseNatToString(n: nat)
    ensures ParseNat(NatToString(n)) == Some(n)
    decreases n
  {
    if n >= 10 {
      ParseNatToString(n / 10);
      var s := NatToString(n);
      assert s[..|s| - 1] == NatToString(n / 10);
      assert s[|s| - 1] as int - '0' as int == n % 10;
      assert DigitsValue(s[..|s| - 1]) == n / 10;
      assert DigitsValue(s) == n / 10 * 10 + n % 10;
    }
  }

  /** Different ids never render to the same text. */
  lemma NatToStringInjective(m: nat, n: nat)
    requires NatToString(m) == NatToString(n)
    ensures m == n
  {
    ParseNatToString(m);
    ParseNatToString(n);
  }

  /** str.split(sep): the maximal sep-free pieces, always at least one. */
  function Split(s: string, sep: char): (parts: seq<string>)
    ensures |parts| >= 1
    decreases |s|
  {
    if |s| == 0 then [""]
    else if s[0] == sep then [""] + Split(s[1..], sep)
    else
      var rest := Split(s[1..], sep);
      [[s[0]] + rest[0]] + rest[1..]
  }

  lemma {:induction false} SplitWithoutSep(a: string, sep: char)
    requires sep !in a
    ensures Split(a, sep) == [a]
    decreases |a|
  {
    if |a| > 0 {
      SplitWithoutSep(a[1..], sep);
      assert [a[0]] + a[1..] == a;
    }
  }

  lemma {:induction false} SplitAtFirstSep(a: string, sep: char, b: string)
    requires sep !in a
    ensures Split(a + [sep] + b, sep) == [a] + Split(b, sep)
    decreases |a|
  {
    var s := a + [sep] + b;
    if |a| == 0 {
      assert s[1..] == b;
    } else {
      assert s[1..] == a[1..] + [sep] + b;
      SplitAtFirstSep(a[1..], sep, b);
      assert [a[0]] + a[1..] == a;
    }
  }

  /** `_get_lock_key`. */
  function LockKey(showtime: nat, seat: nat): string {
    LockPrefix + ":" + NatToString(showtime) + ":" + NatToString(seat)
  }

  /** `_get_showtime_pattern`. */
  function ShowtimePattern(showtime: nat): string {
    LockPrefix + ":" + NatToString(showtime) + ":*"
  }

  /** Redis KEYS matching for a glob whose only wildcard is a trailing '*': a prefix test. */
  predicate MatchesPattern(key: string, pattern: string)
    requires |pattern| > 0 && pattern[|pattern| - 1] == '*'
  {
    var p := pattern[..|pattern| - 1];
    |p| <= |key| && key[..|p|] == p
  }

  /** The seat id as get_all_locks_for_showtime reads it: int(key.split(":")[2]); None is the caught error. */
  function ParseSeatId(key: string): Option<nat> {
    var parts := Split(key, ':');
    if |parts| < 3 then None else ParseNat(parts[2])
  }

  lemma DigitsHaveNoColon(s: string)
    requires IsDigits(s)
    ensures ':' !in s
  {
    forall i | 0 <= i < |s| ensures s[i] != ':' {
      assert IsDigit(s[i]);
    }
  }

  /** Splitting a lock key on ':' gives back its three parts, and the seat id parses back. */
  lemma LockKeyRoundTrip(showtime: nat, seat: nat)
    ensures Split(LockKey(showtime, seat), ':') == [LockPrefix, NatToString(showtime), NatToString(seat)]
    ensures ParseSeatId(LockKey(showtime, seat)) == Some(seat)
  {
    var d1, d2 := NatToString(showtime), NatToString(seat);
    DigitsHaveNoColon(d1);
    DigitsHaveNoColon(d2);
    assert LockKey(showtime, seat) == LockPrefix + [':'] + (d1 + [':'] + d2);
    SplitAtFirstSep(LockPrefix, ':', d1 + [':'] + d2);
    SplitAtFirstSep(d1, ':', d2);
    SplitWithoutSep(d2, ':');
    ParseNatToString(seat);
  }

  /** A lock key is listed by a showtime's pattern exactly when it belongs to that showtime. */
  lemma LockKeyMatchesPatternIff(showtime: nat, seat: nat, query: nat)
    ensures MatchesPattern(LockKey(showtime, seat), ShowtimePattern(query)) <==> showtime == query
  {
    var d, q, ds := NatToString(showtime), NatToString(query), NatToString(seat);
    var key := LockKey(showtime, seat);
    var p := LockPrefix + ":" + q + ":";
    var n := |LockPrefix| + 1;
    assert ShowtimePattern(query)[..|ShowtimePattern(query)| - 1] == p;
    assert key == LockPrefix + ":" + d + ":" + ds;
    if |q| < |d| {
      assert key[n + |q|] == d[|q|] && IsDigit(d[|q|]);
      assert key[..|p|][n + |q|] != p[n + |q|];
      assert d != q;
    } else if |q| > |d| {
      if |p| <= |key| {
        assert key[n + |d|] == ':' && IsDigit(q[|d|]);
        assert key[..|p|][n + |d|] != p[n + |d|];
      }
      assert d != q;
    } else {
      assert key[..|p|] == LockPrefix + ":" + d + ":";
      if LockPrefix + ":" + d + ":" == p {
        assert d == (LockPrefix + ":" + d + ":")[n..n + |d|] == p[n..n + |d|] == q;
      }
    }
    if d == q {
      NatToStringInjective(showtime, query);
    }
  }
}
