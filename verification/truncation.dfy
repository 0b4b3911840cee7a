/**
 Whole-second truncation of modification times, and the conversion of a
 local modification time to whole microseconds before it is written to the
 remote store.

 A local modification time is a real number of seconds since 1970-01-01
 UTC; a remote one is a whole number of microseconds. `float(int(x))`
 (google-drive-sync.py:104, 111) drops the fraction of x, rounding toward
 zero; converting the whole number back to a float is exact for every
 realistic time, so the model keeps it as an `int`.
 */
module Truncation {

  /** Python's `int(x)` on a float: x without its fractional part. */
  function Trunc(t: real): (n: int)
    ensures t >= 0.0 ==> n as real <= t < n as real + 1.0
    ensures t < 0.0 ==> n as real - 1.0 < t <= n as real
  {
    if t >= 0.0 then t.Floor else -((-t).Floor)
  }

  /** Truncation never moves a time away from zero, and whole seconds are
      fixed points, so truncating twice is truncating once. */
  lemma TruncTowardZero(t: real)
    ensures t >= 0.0 ==> 0 <= Trunc(t) && Trunc(t) as real <= t
    ensures t < 0.0 ==> t <= Trunc(t) as real && Trunc(t) <= 0
    ensures Trunc(Trunc(t) as real) == Trunc(t)
  {
  }

  /** On times at or after the epoch, truncation is the floor. */
  lemma TruncIsFloor(t: real)
    requires t >= 0.0
    ensures Trunc(t) == t.Floor
    ensures Trunc(t) as real <= t < Trunc(t) as real + 1.0
  {
  }

  /** Later times never truncate to earlier seconds. */
  lemma TruncMonotonic(a: real, b: real)
    requires a <= b
    ensures Trunc(a) <= Trunc(b)
  {
  }

  /** An instant given in microseconds, as the float `timestamp()` returns. */
  function SecondsOf(us: int): real {
    us as real / 1000000.0
  }

  /** Truncating an instant in microseconds drops its last six digits,
      toward zero. */
  lemma TruncSecondsOf(us: int)
    ensures Trunc(SecondsOf(us)) == if us >= 0 then us / 1000000 else -((-us) / 1000000)
  {
    var n := if us >= 0 then us / 1000000 else -((-us) / 1000000);
    if us >= 0 {
      assert n * 1000000 <= us < n * 1000000 + 1000000;
      assert n as real <= SecondsOf(us) < n as real + 1.0;
    } else {
      var m := (-us) / 1000000;
      assert m * 1000000 <= -us < m * 1000000 + 1000000;
      assert -(m as real) - 1.0 < SecondsOf(us) <= -(m as real);
    }
  }

  /** A local modification time in whole microseconds, dropping digits
      beyond the sixth toward zero, as `int(t * 10**6)` would. This is the
      corrected conversion for an upload; `fromtimestamp` rounds instead
      (`MicrosHalfEven`). */
  function MicrosOf(t: real): int {
    Trunc(t * 1000000.0)
  }

  /** Dropping the digits beyond the microsecond keeps the whole second,
      whatever the time. */
  lemma MicrosOfKeepsSecond(t: real)
    ensures Trunc(SecondsOf(MicrosOf(t))) == Trunc(t)
  {
    var m := MicrosOf(t);
    var k := Trunc(t);
    TruncSecondsOf(m);
    if t >= 0.0 {
      assert k as real * 1000000.0 <= t * 1000000.0 < k as real * 1000000.0 + 1000000.0;
      assert k * 1000000 <= m < k * 1000000 + 1000000;
      assert m / 1000000 == k;
    } else {
      assert k as real * 1000000.0 - 1000000.0 < t * 1000000.0 <= k as real * 1000000.0;
      assert k * 1000000 - 1000000 < m <= k * 1000000;
      assert (-m) / 1000000 == -k;
    }
  }

  /** x rounded to the nearest whole number, ties to the even one. */
  function RoundHalfEven(x: real): (n: int)
    ensures x - 0.5 <= n as real <= x + 0.5
    ensures n as real - x == 0.5 || x - n as real == 0.5 ==> n % 2 == 0
  {
    var f := x.Floor;
    var d := x - f as real;
    if d < 0.5 then f
    else if d > 0.5 then f + 1
    else if f % 2 == 0 then f else f + 1
  }

  /** The microseconds `datetime.fromtimestamp` keeps of a float time: the
      nearest whole microsecond, ties to even. */
  function MicrosHalfEven(t: real): (m: int)
    ensures t * 1000000.0 - 0.5 <= m as real <= t * 1000000.0 + 0.5
    ensures m as real - t * 1000000.0 == 0.5 || t * 1000000.0 - m as real == 0.5 ==> m % 2 == 0
  {
    RoundHalfEven(t * 1000000.0)
  }

  /** Rounding a time at or after the epoch to the nearest microsecond keeps
      its whole second exactly when its fraction is below 0.9999995 s; from
      there on (the tie included, which rounds to the even, whole second) it
      carries into the next second. */
  lemma MicrosHalfEvenSecond(t: real)
    requires t >= 0.0
    ensures Trunc(SecondsOf(MicrosHalfEven(t)))
            == if t - Trunc(t) as real < 0.9999995 then Trunc(t) else Trunc(t) + 1
  {
    var k := Trunc(t);
    var x := t * 1000000.0;
    var m := MicrosHalfEven(t);
    var base := k * 1000000;
    assert base as real <= x < base as real + 1000000.0;
    assert x - 0.5 <= m as real <= x + 0.5;
    TruncSecondsOf(m);
    if t - k as real < 0.9999995 {
      assert x < base as real + 999999.5;
      assert base <= m <= base + 999999;
      assert m / 1000000 == k;
    } else {
      assert x >= base as real + 999999.5;
      assert base + 999999 <= m <= base + 1000000;
      assert m / 1000000 == k + 1;
    }
  }

  /** Rounding to the nearest microsecond can carry a time into the next
      second: 1000.9999996 s becomes 1001.000000 s. */
  lemma MicrosHalfEvenCarries()
    ensures MicrosHalfEven(1000.9999996) == 1001000000
    ensures Trunc(1000.9999996) == 1000
    ensures Trunc(SecondsOf(MicrosHalfEven(1000.9999996))) == 1001
  {
    var x := 1000.9999996 * 1000000.0;
    assert x == 1000999999.6;
    assert x.Floor == 1000999999;
    assert (1000.9999996).Floor == 1000;
    TruncSecondsOf(1001000000);
  }
}
