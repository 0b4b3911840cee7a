/**
 Decimal digit strings: the zero-padded fields `strftime` writes and the
 digit runs `strptime` reads. Only the ASCII digits '0'..'9' are digits here.
 */
module Digits {

  predicate IsDigit(c: char) {
    '0' <= c <= '9'
  }

  predicate AllDigits(s: string) {
    forall i :: 0 <= i < |s| ==> IsDigit(s[i])
  }

  function Pow10(n: nat): (p: nat)
    ensures p >= 1
  {
    if n == 0 then 1 else 10 * Pow10(n - 1)
  }

  function DigitChar(n: nat): (c: char)
    requires n < 10
    ensures IsDigit(c)
  {
    ('0' as int + n) as char
  }

  function DigitValue(c: char): (n: nat)
    requires IsDigit(c)
    ensures n < 10
  {
    c as int - '0' as int
  }

  /** The number a digit string spells, most significant digit first. */
  function Value(s: string): nat
    requires AllDigits(s)
  {
    if |s| == 0 then 0 else 10 * Value(s[..|s| - 1]) + DigitValue(s[|s| - 1])
  }

  /** The last `width` decimal digits of n, with leading zeros. */
  function Pad(n: nat, width: nat): (s: string)
    ensures |s| == width && AllDigits(s)
  {
    if width == 0 then "" else Pad(n / 10, width - 1) + [DigitChar(n % 10)]
  }

  /** Length of the run of digits at the start of s. */
  function DigitRun(s: string): (k: nat)
    ensures k <= |s|
    ensures AllDigits(s[..k])
    ensures k < |s| ==> !IsDigit(s[k])
  {
    if |s| == 0 || !IsDigit(s[0]) then 0
    else
      var k := 1 + DigitRun(s[1..]);
      assert s[..k] == [s[0]] + s[1..][..k - 1];
      k
  }

  /** A number with at most `width` digits is read back from its padding. */
  lemma {:induction false} ValueOfPad(n: nat, width: nat)
    requires n < Pow10(width)
    ensures Value(Pad(n, width)) == n
  {
    if width > 0 {
      var s := Pad(n, width);
      assert s[..|s| - 1] == Pad(n / 10, width - 1);
      DivTenBelow(n, Pow10(width - 1));
      ValueOfPad(n / 10, width - 1);
      assert DigitValue(s[|s| - 1]) == n % 10;
    }
  }

  lemma DivTenBelow(n: nat, p: nat)
    requires n < 10 * p
    ensures n / 10 < p
  {
  }

  /** A digit string is written back, zeros and all, by padding its value
      to its own length. */
  lemma {:induction false} PadOfValue(s: string)
    requires AllDigits(s)
    ensures Value(s) < Pow10(|s|)
    ensures Pad(Value(s), |s|) == s
  {
    if |s| > 0 {
      var init := s[..|s| - 1];
      PadOfValue(init);
      var n := Value(s);
      assert n / 10 == Value(init) && n % 10 == DigitValue(s[|s| - 1]);
      assert s == init + [s[|s| - 1]];
    }
  }

  /** Digit strings written one after the other: the first counts in units
      of 10 to the length of the second. */
  lemma {:induction false} ValueOfConcat(a: string, b: string)
    requires AllDigits(a) && AllDigits(b)
    ensures AllDigits(a + b)
    ensures Value(a + b) == Value(a) * Pow10(|b|) + Value(b)
  {
    if |b| == 0 {
      assert a + b == a;
    } else {
      var init := b[..|b| - 1];
      var ab := a + b;
      assert ab[..|ab| - 1] == a + init;
      assert ab[|ab| - 1] == b[|b| - 1];
      ValueOfConcat(a, init);
      var va, p, vi, d := Value(a), Pow10(|init|), Value(init), DigitValue(b[|b| - 1]);
      assert Value(ab) == 10 * (va * p + vi) + d;
      assert Value(b) == 10 * vi + d by {
        assert b[..|b| - 1] == init;
      }
      assert Pow10(|b|) == 10 * p;
      ShiftByTen(va, p);
    }
  }

  /** Zeros appended to a digit string multiply its value by a power of
      ten. */
  lemma {:induction false} ValueOfZeroPadded(s: string, k: nat)
    requires AllDigits(s)
    ensures AllDigits(s + Pad(0, k))
    ensures Value(s + Pad(0, k)) == Value(s) * Pow10(k)
  {
    ValueOfConcat(s, Pad(0, k));
    ValueOfPad(0, k);
  }

  /** s padded on the right with zeros to `width` places. */
  function RightPadded(s: string, width: nat): (r: string)
    requires |s| <= width
    ensures |r| == width && r[..|s|] == s
    ensures AllDigits(s) ==> AllDigits(r)
  {
    s + Pad(0, width - |s|)
  }

  /** The zeros appended on the right scale a digit string's value by ten
      to the number of zeros. */
  lemma {:induction false} ValueOfRightPadded(s: string, width: nat, zeros: nat)
    requires AllDigits(s) && zeros == width - |s|
    ensures AllDigits(RightPadded(s, width))
    ensures Value(RightPadded(s, width)) == Value(s) * Pow10(zeros)
  {
    ValueOfZeroPadded(s, zeros);
  }

  lemma ShiftByTen(x: int, y: int)
    ensures 10 * (x * y) == x * (10 * y)
  {
  }

  /** The digit run of a digit string followed by a non-digit is that
      digit string. */
  lemma {:induction false} DigitRunOfPrefix(digits: string, rest: string)
    requires AllDigits(digits)
    requires |rest| > 0 && !IsDigit(rest[0])
    ensures DigitRun(digits + rest) == |digits|
  {
    if |digits| > 0 {
      assert (digits + rest)[1..] == digits[1..] + rest;
      DigitRunOfPrefix(digits[1..], rest);
    }
  }
}
