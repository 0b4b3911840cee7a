/**
 The remote modification-time text, `%Y-%m-%dT%H:%M:%S.%fZ`
 (google-drive-sync.py:14), as Python's `strptime` reads it and `strftime`
 writes it, over instants counted in whole microseconds since 1970-01-01
 UTC.

 Reading follows the field patterns of CPython's `_strptime`: the year has
 exactly four digits; month, day, hour, minute and second have one or two
 (a day may also be a space and one digit); the fraction has one to six
 digits and is padded with zeros on the right; the literals `T` and `Z` also
 match in lower case, because the pattern is compiled case-insensitively;
 and nothing may follow the `Z`. Values outside a field's pattern do not
 match at all; values the pattern admits but `datetime` refuses (day 31 of
 April, second 60 or 61, year 0000) are out of range.
 */
module TimeFormat {
  import opened Wrappers
  import opened Calendar
  import opened Digits

  /** A broken-down UTC time, as a `datetime` holds it. */
  datatype DateTime = DateTime(date: Date, hour: int, minute: int, second: int, micro: int)

  /** The years `datetime` can represent. */
  const MinYear := 1
  const MaxYear := 9999

  predicate IsTimeOfDay(t: DateTime) {
    0 <= t.hour < 24 && 0 <= t.minute < 60 && 0 <= t.second < 60 && 0 <= t.micro < 1000000
  }

  predicate IsValidDateTime(t: DateTime) {
    MinYear <= t.date.year <= MaxYear && IsCalendarDate(t.date) && IsTimeOfDay(t)
  }

  /** Microseconds from 1970-01-01T00:00:00 UTC to t. */
  function ToMicros(t: DateTime): int
    requires 1 <= t.date.month <= 12
  {
    ((DaysFromCivil(t.date) * 86400 + t.hour * 3600 + t.minute * 60 + t.second) * 1000000) + t.micro
  }

  /** The UTC time us microseconds after 1970-01-01T00:00:00; instants
      before the epoch count down from it, as `fromtimestamp` does. */
  function FromMicros(us: int): (t: DateTime)
    ensures 0 <= t.hour < 24 && 0 <= t.minute < 60 && 0 <= t.second < 60
    ensures 0 <= t.micro < 1000000
    ensures us % 1000000 == t.micro
  {
    var secs := us / 1000000;
    var sod := secs % 86400;
    var soh := sod % 3600;
    DateTime(CivilFromDays(secs / 86400), sod / 3600, soh / 60, soh % 60, us % 1000000)
  }

  /** Every instant has a time of day on a calendar date, which counts back
      to the instant. */
  lemma FromMicrosInverse(us: int)
    ensures IsCalendarDate(FromMicros(us).date) && IsTimeOfDay(FromMicros(us))
    ensures ToMicros(FromMicros(us)) == us
  {
    var secs := us / 1000000;
    var days := secs / 86400;
    var sod := secs % 86400;
    var soh := sod % 3600;
    CivilFromDaysInverse(days);
    assert sod == (sod / 3600) * 3600 + (soh / 60) * 60 + soh % 60;
    assert secs == days * 86400 + sod;
  }

  /** A valid time is found again from its instant. */
  lemma ToMicrosInverse(t: DateTime)
    requires IsCalendarDate(t.date) && IsTimeOfDay(t)
    ensures FromMicros(ToMicros(t)) == t
  {
    var days := DaysFromCivil(t.date);
    var us := ToMicros(t);
    assert us == (days * 86400 + t.hour * 3600 + t.minute * 60 + t.second) * 1000000 + t.micro;
    MicrosDivision(days, t.hour, t.minute, t.second, t.micro);
    FromMicrosOfParts(us, days, t.hour, t.minute, t.second, t.micro);
    DaysFromCivilInverse(t.date);
  }

  /** The broken-down time of an instant, given its mixed-radix parts. */
  lemma FromMicrosOfParts(us: int, days: int, hour: int, minute: int, second: int, micro: int)
    requires var sod := hour * 3600 + minute * 60 + second;
             var secs := days * 86400 + sod;
             && us / 1000000 == secs && us % 1000000 == micro
             && secs / 86400 == days && secs % 86400 == sod
             && sod / 3600 == hour && (sod % 3600) / 60 == minute && (sod % 3600) % 60 == second
    ensures FromMicros(us) == DateTime(CivilFromDays(days), hour, minute, second, micro)
  {
  }

  /** Division undoes the mixed-radix sum of a day count, a time of day and
      a microsecond. */
  lemma MicrosDivision(days: int, hour: int, minute: int, second: int, micro: int)
    requires 0 <= hour < 24 && 0 <= minute < 60 && 0 <= second < 60 && 0 <= micro < 1000000
    ensures var sod := hour * 3600 + minute * 60 + second;
            var secs := days * 86400 + sod;
            var us := (days * 86400 + hour * 3600 + minute * 60 + second) * 1000000 + micro;
            && us / 1000000 == secs && us % 1000000 == micro
            && secs / 86400 == days && secs % 86400 == sod
            && sod / 3600 == hour && (sod % 3600) / 60 == minute && (sod % 3600) % 60 == second
  {
    var sod := hour * 3600 + minute * 60 + second;
    var secs := days * 86400 + sod;
    assert 0 <= sod < 86400;
    assert sod % 3600 == minute * 60 + second;
  }

  // ---------------------------------------------------------------------
  // The text shape

  /** One field of the format and the literal after it: a run of minLen to
      maxLen digits (or, where spaced, a space and one digit 1-9), then one
      of the separator characters. */
  datatype Field = Field(minLen: nat, maxLen: nat, spaced: bool, seps: set<char>)

  /** `%Y-%m-%dT%H:%M:%S.%fZ`, field by field. */
  const Layout: seq<Field> := [
    Field(4, 4, false, {'-'}),
    Field(1, 2, false, {'-'}),
    Field(1, 2, true, {'T', 't'}),
    Field(1, 2, false, {':'}),
    Field(1, 2, false, {':'}),
    Field(1, 2, false, {'.'}),
    Field(1, 6, false, {'Z', 'z'})
  ]

  /** The text of one field and the separator that ends it. */
  type Piece = (string, char)

  predicate IsSpacedDigit(ds: string) {
    |ds| == 2 && ds[0] == ' ' && '1' <= ds[1] <= '9'
  }

  /** A field whose end can be told from its content: it is never empty,
      and its separators are neither digits nor spaces. */
  predicate IsDelimited(f: Field) {
    f.minLen >= 1 && forall c :: c in f.seps ==> !IsDigit(c) && c != ' '
  }

  predicate Fits(p: Piece, f: Field) {
    && p.1 in f.seps
    && ((f.minLen <= |p.0| <= f.maxLen && AllDigits(p.0)) || (f.spaced && IsSpacedDigit(p.0)))
  }

  /** The text a sequence of pieces spells. */
  function Concat(ps: seq<Piece>): string {
    if |ps| == 0 then [] else ps[0].0 + [ps[0].1] + Concat(ps[1..])
  }

  /** The piece at the head of s for field f, and the text after it. */
  function FieldPiece(s: string, f: Field): (r: Option<(Piece, string)>)
    ensures r.Some? ==> Fits(r.value.0, f) && s == r.value.0.0 + [r.value.0.1] + r.value.1
  {
    if f.spaced && |s| >= 3 && IsSpacedDigit(s[..2]) && s[2] in f.seps then
      assert s == s[..2] + [s[2]] + s[3..];
      Some(((s[..2], s[2]), s[3..]))
    else
      var n := DigitRun(s);
      if f.minLen <= n <= f.maxLen && n < |s| && s[n] in f.seps then
        assert s == s[..n] + [s[n]] + s[n + 1..];
        Some(((s[..n], s[n]), s[n + 1..]))
      else None
  }

  /** Splits s into one piece per field, with nothing left over. */
  function MatchFields(s: string, fs: seq<Field>): (r: Option<seq<Piece>>)
    ensures r.Some? ==> |r.value| == |fs| && Concat(r.value) == s
    ensures r.Some? ==> forall i :: 0 <= i < |fs| ==> Fits(r.value[i], fs[i])
    decreases fs
  {
    if |fs| == 0 then
      if s == [] then Some([]) else None
    else
      var head :- FieldPiece(s, fs[0]);
      var tail :- MatchFields(head.1, fs[1..]);
      assert ([head.0] + tail)[1..] == tail;
      Some([head.0] + tail)
  }

  /** A piece that fits its field is found at the head of any text it
      starts. */
  lemma FieldPieceOf(p: Piece, rest: string, f: Field)
    requires IsDelimited(f) && Fits(p, f)
    ensures FieldPiece(p.0 + [p.1] + rest, f) == Some((p, rest))
  {
    var s := p.0 + [p.1] + rest;
    assert s == p.0 + ([p.1] + rest);
    if f.spaced && IsSpacedDigit(p.0) {
      assert s[..2] == p.0 && s[2] == p.1 && s[3..] == rest;
    } else {
      DigitRunOfPrefix(p.0, [p.1] + rest);
      assert s[..|p.0|] == p.0 && s[|p.0|] == p.1 && s[|p.0| + 1..] == rest;
      if f.spaced {
        assert !IsSpacedDigit(s[..2]) by {
          assert s[0] == p.0[0];
        }
      }
    }
  }

  /** Pieces that fit their fields are split off again from the text they
      spell. */
  lemma {:induction false} MatchFieldsOf(ps: seq<Piece>, fs: seq<Field>)
    requires |ps| == |fs|
    requires forall i :: 0 <= i < |fs| ==> IsDelimited(fs[i]) && Fits(ps[i], fs[i])
    ensures MatchFields(Concat(ps), fs) == Some(ps)
    decreases fs
  {
    if |fs| > 0 {
      FieldPieceOf(ps[0], Concat(ps[1..]), fs[0]);
      MatchFieldsOf(ps[1..], fs[1..]);
      assert [ps[0]] + ps[1..] == ps;
    }
  }

  /** The value ranges each field pattern admits: month 1-12, day 1-31,
      hour 0-23, minute 0-59, second 0-61. */
  predicate InPatternRanges(ps: seq<Piece>)
    requires |ps| == |Layout| && forall i :: 0 <= i < |ps| ==> Fits(ps[i], Layout[i])
  {
    assert Fits(ps[1], Layout[1]) && Fits(ps[2], Layout[2]) && Fits(ps[3], Layout[3]);
    assert Fits(ps[4], Layout[4]) && Fits(ps[5], Layout[5]);
    && 1 <= Value(ps[1].0) <= 12
    && (IsSpacedDigit(ps[2].0) || 1 <= Value(ps[2].0) <= 31)
    && Value(ps[3].0) <= 23
    && Value(ps[4].0) <= 59
    && Value(ps[5].0) <= 61
  }

  /** Pieces of a text that matches `%Y-%m-%dT%H:%M:%S.%fZ`. */
  predicate IsWellFormed(ps: seq<Piece>) {
    && |ps| == |Layout|
    && (forall i :: 0 <= i < |ps| ==> Fits(ps[i], Layout[i]))
    && InPatternRanges(ps)
  }

  /** Matches a text against the format; whatever matches is the text of
      well-formed pieces. */
  function MatchTime(s: string): (r: Option<seq<Piece>>)
    ensures r.Some? ==> IsWellFormed(r.value) && Concat(r.value) == s
  {
    var ps :- MatchFields(s, Layout);
    if InPatternRanges(ps) then Some(ps) else None
  }

  /** Every text of well-formed pieces matches, giving those pieces. */
  lemma MatchTimeComplete(ps: seq<Piece>)
    requires IsWellFormed(ps)
    ensures MatchTime(Concat(ps)) == Some(ps)
  {
    forall i | 0 <= i < |Layout|
      ensures IsDelimited(Layout[i])
    {
    }
    MatchFieldsOf(ps, Layout);
  }

  // ---------------------------------------------------------------------
  // Reading and writing

  /** The fraction as microseconds: its digits padded on the right with
      zeros to six places. */
  function MicrosOfFraction(f: string): int
    requires AllDigits(f) && |f| <= 6
  {
    Value(RightPadded(f, 6))
  }

  /** A fraction of k digits counts its value in units of 10^(6-k)
      microseconds: `.123` is 123000 microseconds, not 123. */
  lemma {:induction false} FractionMicros(f: string)
    requires AllDigits(f) && |f| <= 6
    ensures MicrosOfFraction(f) == Value(f) * Pow10(6 - |f|)
  {
    ValueOfRightPadded(f, 6, 6 - |f|);
  }

  /** A fraction is less than a second. */
  lemma {:induction false} FractionBelowSecond(f: string)
    requires AllDigits(f) && |f| <= 6
    ensures 0 <= MicrosOfFraction(f) < 1000000
  {
    PadOfValue(RightPadded(f, 6));
    Pow10Six();
  }

  lemma Pow10Six()
    ensures Pow10(6) == 1000000
  {
  }

  function DayValue(ds: string): int
    requires IsSpacedDigit(ds) || AllDigits(ds)
  {
    if IsSpacedDigit(ds) then DigitValue(ds[1]) else Value(ds)
  }

  /** The time the pieces of a matched text denote. */
  function DateTimeOf(ps: seq<Piece>): DateTime
    requires IsWellFormed(ps)
  {
    DateTime(Date(Value(ps[0].0), Value(ps[1].0), DayValue(ps[2].0)),
             Value(ps[3].0), Value(ps[4].0), Value(ps[5].0), MicrosOfFraction(ps[6].0))
  }

  /** Why a remote modification-time text was refused. */
  datatype ParseError =
    | Mismatch    // the text does not have the shape of the format
    | OutOfRange  // the shape fits but the date or time does not exist

  /** `strptime(s, TIME_FORMAT)` followed by `.timestamp()`, in UTC. */
  function ParseTime(s: string): (r: Result<int, ParseError>)
    ensures r.Success? <==> MatchTime(s).Some? && IsValidDateTime(DateTimeOf(MatchTime(s).value))
    ensures r == Failure(Mismatch) <==> MatchTime(s).None?
  {
    match MatchTime(s)
    case None => Failure(Mismatch)
    case Some(ps) =>
      var t := DateTimeOf(ps);
      if IsValidDateTime(t) then Success(ToMicros(t)) else Failure(OutOfRange)
  }

  /** A text that is read names the instant whose UTC date and time are the
      text's fields, its fraction scaled to six digits. */
  lemma ParseTimeFields(s: string)
    requires ParseTime(s).Success?
    ensures MatchTime(s).Some?
    ensures FromMicros(ParseTime(s).value) == DateTimeOf(MatchTime(s).value)
    ensures AllDigits(MatchTime(s).value[6].0) && |MatchTime(s).value[6].0| <= 6
    ensures FromMicros(ParseTime(s).value).micro
            == Value(MatchTime(s).value[6].0) * Pow10(6 - |MatchTime(s).value[6].0|)
  {
    var ps := MatchTime(s).value;
    assert Fits(ps[6], Layout[6]);
    ToMicrosInverse(DateTimeOf(ps));
    FractionMicros(ps[6].0);
  }

  /** Why an instant could not be written. */
  datatype FormatError = YearOutOfRange

  /** The pieces `strftime` writes for t: every field zero-padded to its
      full width, upper-case letters. */
  function CanonicalPieces(t: DateTime): seq<Piece>
    requires t.date.year >= 0 && t.date.month >= 0 && t.date.day >= 0 && IsTimeOfDay(t)
  {
    [(Pad(t.date.year, 4), '-'), (Pad(t.date.month, 2), '-'), (Pad(t.date.day, 2), 'T'),
     (Pad(t.hour, 2), ':'), (Pad(t.minute, 2), ':'), (Pad(t.second, 2), '.'), (Pad(t.micro, 6), 'Z')]
  }

  /** Pieces in the layout `strftime` writes: each field at its full width
      in digits, and upper-case letters. */
  predicate IsCanonical(ps: seq<Piece>) {
    && |ps| == |Layout|
    && (forall i :: 0 <= i < |ps| ==> |ps[i].0| == Layout[i].maxLen && AllDigits(ps[i].0))
    && ps[2].1 == 'T' && ps[6].1 == 'Z'
  }

  /** `fromtimestamp` in UTC followed by `strftime(TIME_FORMAT)` on an
      instant in microseconds; instants outside years 1 to 9999 are refused. */
  function FormatTime(us: int): (r: Result<string, FormatError>)
    ensures r.Success? <==> MinYear <= FromMicros(us).date.year <= MaxYear
  {
    var t := FromMicros(us);
    FromMicrosInverse(us);
    if MinYear <= t.date.year <= MaxYear then Success(Concat(CanonicalPieces(t)))
    else Failure(YearOutOfRange)
  }

  /** Every instant of the first day after the epoch is written; it falls
      on 1970-01-01. */
  lemma FirstDayWritten(us: int)
    requires 0 <= us < 86400000000
    ensures FromMicros(us).date == Date(1970, 1, 1)
    ensures FormatTime(us).Success?
  {
    assert us / 1000000 / 86400 == 0;
    EpochIsDayZero();
  }

  /** The pieces written for a valid time are canonical and denote that
      time. */
  lemma DateTimeOfCanonical(t: DateTime)
    requires IsValidDateTime(t)
    ensures IsWellFormed(CanonicalPieces(t)) && IsCanonical(CanonicalPieces(t))
    ensures DateTimeOf(CanonicalPieces(t)) == t
  {
    var ps := CanonicalPieces(t);
    ValueOfPad(t.date.year, 4);
    ValueOfPad(t.date.month, 2);
    ValueOfPad(t.date.day, 2);
    ValueOfPad(t.hour, 2);
    ValueOfPad(t.minute, 2);
    ValueOfPad(t.second, 2);
    ValueOfPad(t.micro, 6);
    assert RightPadded(ps[6].0, 6) == ps[6].0;
    assert !IsSpacedDigit(ps[2].0);
  }

  /** Writing an instant and reading the text back gives the instant, to
      the microsecond. */
  lemma FormatThenParse(us: int)
    requires FormatTime(us).Success?
    ensures ParseTime(FormatTime(us).value) == Success(us)
  {
    var t := FromMicros(us);
    FromMicrosInverse(us);
    DateTimeOfCanonical(t);
    MatchTimeComplete(CanonicalPieces(t));
  }

  /** Canonical pieces are the pieces `strftime` writes for the time they
      denote. */
  lemma CanonicalPiecesOf(ps: seq<Piece>)
    requires IsWellFormed(ps) && IsCanonical(ps)
    requires IsValidDateTime(DateTimeOf(ps))
    ensures CanonicalPieces(DateTimeOf(ps)) == ps
  {
    PadOfValue(ps[0].0);
    PadOfValue(ps[1].0);
    PadOfValue(ps[2].0);
    PadOfValue(ps[3].0);
    PadOfValue(ps[4].0);
    PadOfValue(ps[5].0);
    PadOfValue(ps[6].0);
    assert RightPadded(ps[6].0, 6) == ps[6].0;
    assert !IsSpacedDigit(ps[2].0);
  }

  /** A valid time is written as the text of its canonical pieces. */
  lemma FormatOfValid(t: DateTime)
    requires IsValidDateTime(t)
    ensures FormatTime(ToMicros(t)) == Success(Concat(CanonicalPieces(t)))
  {
    ToMicrosInverse(t);
  }

  /** Reading a text in the layout `strftime` writes and writing the instant
      back gives the same text. */
  lemma ParseThenFormat(s: string)
    requires MatchTime(s).Some? && IsCanonical(MatchTime(s).value)
    requires ParseTime(s).Success?
    ensures FormatTime(ParseTime(s).value) == Success(s)
  {
    var ps := MatchTime(s).value;
    var t := DateTimeOf(ps);
    assert ParseTime(s) == Success(ToMicros(t));
    CanonicalPiecesOf(ps);
    FormatOfValid(t);
  }

  // ---------------------------------------------------------------------
  // Texts that are refused

  /** Every separator of the pieces occurs in the text they spell, and the
      last one ends it. */
  lemma {:induction false} ConcatSeparators(ps: seq<Piece>)
    requires |ps| > 0
    ensures |Concat(ps)| > 0 && Concat(ps)[|Concat(ps)| - 1] == ps[|ps| - 1].1
    ensures forall i :: 0 <= i < |ps| ==> ps[i].1 in Concat(ps)
  {
    var s := Concat(ps);
    assert s == ps[0].0 + [ps[0].1] + Concat(ps[1..]);
    assert ps[0].1 in s by {
      assert s[|ps[0].0|] == ps[0].1;
    }
    if |ps| > 1 {
      ConcatSeparators(ps[1..]);
      forall i | 1 <= i < |ps|
        ensures ps[i].1 in s
      {
        assert ps[i] == ps[1..][i - 1];
      }
    }
  }

  /** A text that does not end in `Z` (or `z`) does not match the format. */
  lemma RejectsWithoutZone(s: string)
    requires |s| == 0 || s[|s| - 1] !in {'Z', 'z'}
    ensures ParseTime(s) == Failure(Mismatch)
  {
    if MatchTime(s).Some? {
      var ps := MatchTime(s).value;
      assert Fits(ps[6], Layout[6]);
      ConcatSeparators(ps);
      assert false;
    }
  }

  /** A text without a `.` before the fraction does not match the format. */
  lemma RejectsWithoutFraction(s: string)
    requires '.' !in s
    ensures ParseTime(s) == Failure(Mismatch)
  {
    if MatchTime(s).Some? {
      var ps := MatchTime(s).value;
      ConcatSeparators(ps);
      assert false;
    }
  }

  /** The pieces of `2024-03-01T10:00:00.<frac>Z`. */
  function SamplePieces(frac: string): seq<Piece> {
    [("2024", '-'), ("03", '-'), ("01", 'T'), ("10", ':'), ("00", ':'), ("00", '.'), (frac, 'Z')]
  }

  lemma ExampleDigits()
    ensures Value("2024") == 2024 && Value("03") == 3 && Value("01") == 1
    ensures Value("10") == 10 && Value("00") == 0
  {
    assert Value("2024") == 2024 by {
      assert "2024"[..3] == "202" && "202"[..2] == "20" && "20"[..1] == "2" && "2"[..0] == "";
    }
    assert Value("03") == 3 && Value("01") == 1 && Value("10") == 10 && Value("00") == 0 by {
      assert "03"[..1] == "0" && "01"[..1] == "0" && "10"[..1] == "1" && "00"[..1] == "0";
      assert "0"[..0] == "" && "1"[..0] == "";
    }
  }

  lemma SampleFits(frac: string)
    requires AllDigits(frac) && 1 <= |frac| <= 6
    ensures forall i :: 0 <= i < |SamplePieces(frac)| ==> Fits(SamplePieces(frac)[i], Layout[i])
  {
    var ps := SamplePieces(frac);
    assert Fits(ps[0], Layout[0]) && Fits(ps[1], Layout[1]) && Fits(ps[2], Layout[2]);
    assert Fits(ps[3], Layout[3]) && Fits(ps[4], Layout[4]) && Fits(ps[5], Layout[5]);
    assert Fits(ps[6], Layout[6]);
  }

  lemma ConcatCons(p: Piece, ps: seq<Piece>)
    ensures Concat([p] + ps) == p.0 + [p.1] + Concat(ps)
  {
    assert ([p] + ps)[1..] == ps;
  }

  lemma SampleConcatTime(frac: string)
    ensures Concat(SamplePieces(frac)[3..]) == "10:00:00." + frac + "Z"
  {
    var t6: seq<Piece> := [(frac, 'Z')];
    assert Concat(t6) == frac + "Z" by {
      ConcatCons((frac, 'Z'), []);
    }
    var t5 := [("00", '.')] + t6;
    assert Concat(t5) == "00." + frac + "Z" by {
      ConcatCons(("00", '.'), t6);
    }
    var t4 := [("00", ':')] + t5;
    assert Concat(t4) == "00:00." + frac + "Z" by {
      ConcatCons(("00", ':'), t5);
    }
    ConcatCons(("10", ':'), t4);
    assert SamplePieces(frac)[3..] == [("10", ':')] + t4;
  }

  lemma SampleConcatDay(frac: string)
    ensures Concat(SamplePieces(frac)[2..]) == "01T10:00:00." + frac + "Z"
  {
    var t3 := SamplePieces(frac)[3..];
    SampleConcatTime(frac);
    ConcatCons(("01", 'T'), t3);
    assert SamplePieces(frac)[2..] == [("01", 'T')] + t3;
  }

  lemma SampleConcatMonth(frac: string)
    ensures Concat(SamplePieces(frac)[1..]) == "03-01T10:00:00." + frac + "Z"
  {
    var t2 := SamplePieces(frac)[2..];
    SampleConcatDay(frac);
    ConcatCons(("03", '-'), t2);
    assert SamplePieces(frac)[1..] == [("03", '-')] + t2;
  }

  lemma SampleConcat(frac: string)
    ensures Concat(SamplePieces(frac)) == "2024-03-01T10:00:00." + frac + "Z"
  {
    var t1 := SamplePieces(frac)[1..];
    SampleConcatMonth(frac);
    ConcatCons(("2024", '-'), t1);
    assert SamplePieces(frac) == [("2024", '-')] + t1;
  }

  lemma SampleMatch(frac: string)
    requires AllDigits(frac) && 1 <= |frac| <= 6
    ensures IsWellFormed(SamplePieces(frac))
    ensures MatchTime("2024-03-01T10:00:00." + frac + "Z") == Some(SamplePieces(frac))
  {
    SampleFits(frac);
    ExampleDigits();
    SampleConcat(frac);
    MatchTimeComplete(SamplePieces(frac));
  }

  lemma SampleDateTime(frac: string)
    requires AllDigits(frac) && 1 <= |frac| <= 6
    ensures IsWellFormed(SamplePieces(frac))
    ensures DateTimeOf(SamplePieces(frac)) == DateTime(Date(2024, 3, 1), 10, 0, 0, MicrosOfFraction(frac))
  {
    SampleMatch(frac);
    ExampleDigits();
    assert !IsSpacedDigit(SamplePieces(frac)[2].0);
  }

  lemma ExampleDays()
    ensures DaysFromCivil(Date(2024, 3, 1)) == 19783
  {
    assert 2024 / 400 == 5 && 2024 % 400 == 24;
    assert DaysBeforeMarchYear(24) == 8766;
    assert DaysBeforeMarchMonth(MarchMonth(3)) == 0;
    assert EraAndDay(Date(2024, 3, 1)) == (5, 8766);
  }

  /** A text whose pieces denote a valid time is read as that time. */
  lemma ParseOfPieces(s: string, ps: seq<Piece>, t: DateTime)
    requires MatchTime(s) == Some(ps) && IsWellFormed(ps) && DateTimeOf(ps) == t
    requires IsValidDateTime(t)
    ensures ParseTime(s) == Success(ToMicros(t))
  {
  }

  /** 1 March 2024, 10:00 UTC, with any fraction, is read as that instant
      plus the fraction's microseconds. */
  lemma ParseSample(frac: string)
    requires AllDigits(frac) && 1 <= |frac| <= 6
    ensures ParseTime("2024-03-01T10:00:00." + frac + "Z")
            == Success(1709287200000000 + MicrosOfFraction(frac))
  {
    SampleMatch(frac);
    SampleDateTime(frac);
    var t := DateTime(Date(2024, 3, 1), 10, 0, 0, MicrosOfFraction(frac));
    ExampleDays();
    FractionBelowSecond(frac);
    assert ToMicros(t) == 1709287200000000 + MicrosOfFraction(frac);
    ParseOfPieces("2024-03-01T10:00:00." + frac + "Z", SamplePieces(frac), t);
  }

  /** ParseSample, for a text and an instant given by name. */
  lemma ParseSampleAt(frac: string, s: string, us: int)
    requires AllDigits(frac) && 1 <= |frac| <= 6
    requires s == "2024-03-01T10:00:00." + frac + "Z"
    requires us == 1709287200000000 + MicrosOfFraction(frac)
    ensures ParseTime(s) == Success(us)
  {
    ParseSample(frac);
  }

  /** The start of 1 March 2024, 10:00 UTC, is read as that instant. */
  lemma ParseExample()
    ensures ParseTime("2024-03-01T10:00:00.000000Z") == Success(1709287200000000)
  {
    var frac := "000000";
    assert Value(frac) == 0 by {
      assert frac[..5] == "00000" && "00000"[..4] == "0000" && "0000"[..3] == "000";
      assert "000"[..2] == "00" && "00"[..1] == "0" && "0"[..0] == "";
    }
    FractionMicros(frac);
    ParseSampleAt(frac, "2024-03-01T10:00:00.000000Z", 1709287200000000);
  }

  /** A millisecond text, as the remote store returns it, is read with its
      three digits as thousandths of a second: `.123` is 123000
      microseconds. */
  lemma ParseMillisExample()
    ensures ParseTime("2024-03-01T10:00:00.123Z") == Success(1709287200123000)
  {
    var frac := "123";
    assert Value(frac) == 123 by {
      assert frac[..2] == "12" && "12"[..1] == "1" && "1"[..0] == "";
    }
    assert Pow10(3) == 1000;
    FractionMicros(frac);
    ParseSampleAt(frac, "2024-03-01T10:00:00.123Z", 1709287200123000);
  }

  /** The 1 March 2024 text without its `Z` is refused. */
  lemma RejectionWithoutZoneExample()
    ensures ParseTime("2024-03-01T10:00:00.000000") == Failure(Mismatch)
  {
    var s := "2024-03-01T10:00:00.000000";
    assert s[|s| - 1] == '0';
    RejectsWithoutZone(s);
  }

  /** The 1 March 2024 text without its fraction is refused. */
  lemma RejectionWithoutFractionExample()
    ensures ParseTime("2024-03-01T10:00:00Z") == Failure(Mismatch)
  {
    var s := "2024-03-01T10:00:00Z";
    assert forall i :: 0 <= i < |s| ==> s[i] != '.';
    RejectsWithoutFraction(s);
  }
}
