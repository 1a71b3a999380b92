/** Timestamps as the token store writes and reads them (section 5.6 of RFC 3339, in UTC). */
module Timestamp {
  import opened Common
  import opened Text

  function DaysIn(year: int, month: int): int {
    if month == 2 then (if year % 4 == 0 && (year % 100 != 0 || year % 400 == 0) then 29 else 28)
    else if month in {4, 6, 9, 11} then 30
    else 31
  }

  /** The leap years up to a year: every fourth, but not every hundredth, but every four hundredth. */
  function LeapYears(year: int): int {
    year / 4 - year / 100 + year / 400
  }

  lemma Multiples(year: int)
    ensures year / 4 - (year - 1) / 4 == if year % 4 == 0 then 1 else 0
    ensures year / 100 - (year - 1) / 100 == if year % 100 == 0 then 1 else 0
    ensures year / 400 - (year - 1) / 400 == if year % 400 == 0 then 1 else 0
    ensures year % 400 == 0 ==> year % 100 == 0
    ensures year % 100 == 0 ==> year % 4 == 0
  {
  }

  /** The days of the months, and the fields of times on them. */
  lemma MonthsAre(year: int, month: nat)
    requires 1 <= month <= 12
    ensures forall day: nat :: IsCivil(Civil(year, month, day, 0, 0, 0, 0)) <==> 1 <= day <= DaysIn(year, month)
    ensures forall h: nat, m: nat, s: nat, n: nat ::
              IsCivil(Civil(year, month, 1, h, m, s, n)) <==> h <= 23 && m <= 59 && s <= 59 && n <= 999_999_999
    ensures DaysIn(year, month) ==
            if month == 2 then 28 + LeapYears(year) - LeapYears(year - 1)
            else [31, 0, 31, 30, 31, 30, 31, 31, 30, 31, 30, 31][month - 1]
  {
    Multiples(year);
  }

  datatype Civil = Civil(year: int, month: nat, day: nat, hour: nat, minute: nat, second: nat, nanos: nat)

  predicate IsCivil(t: Civil) {
    && 1 <= t.month <= 12 && 1 <= t.day <= DaysIn(t.year, t.month)
    && t.hour < 24 && t.minute < 60 && t.second < 60 && t.nanos < 1_000_000_000
  }

  /** The UTC fields of an instant. */
  type Time = t: Civil | IsCivil(t) witness Civil(1, 1, 1, 0, 0, 0, 0)

  const ZERO: Time := Civil(1, 1, 1, 0, 0, 0, 0)

  /** The order of the wall clock. */
  predicate CivilBefore(s: Time, t: Time) {
    if s.year != t.year then s.year < t.year
    else if s.month != t.month then s.month < t.month
    else if s.day != t.day then s.day < t.day
    else if s.hour != t.hour then s.hour < t.hour
    else if s.minute != t.minute then s.minute < t.minute
    else if s.second != t.second then s.second < t.second
    else s.nanos < t.nanos
  }

  /** The nanoseconds of a calendar in which every month has 31 days: they have the order of the fields. */
  function Position(t: Time): int {
    ((((t.year * 12 + t.month) * 31 + t.day) * 24 + t.hour) * 60 + t.minute) * 60_000_000_000
      + t.second * 1_000_000_000 + t.nanos
  }

  lemma CivilOrder(s: Time, t: Time)
    ensures CivilBefore(s, t) <==> Position(s) < Position(t)
    ensures Position(s) == Position(t) ==> s == t
  {
  }

  /** An instant as the clock gives it: with a reading that only moves forward, which text does not carry. */
  datatype Instant = Instant(civil: Time, monotonic: Option<int>)

  /** time.Before compares the monotonic readings when both instants have one. */
  predicate Before(s: Instant, t: Instant) {
    if s.monotonic.Some? && t.monotonic.Some? then s.monotonic.value < t.monotonic.value
    else CivilBefore(s.civil, t.civil)
  }

  /** Two readings of one clock decide, and otherwise the fields. */
  lemma BeforeIs(s: Instant, t: Instant)
    ensures s.monotonic.Some? && t.monotonic.Some? ==>
              (Before(s, t) <==> !(s.monotonic.value >= t.monotonic.value))
    ensures s.monotonic.None? || t.monotonic.None? ==> (Before(s, t) <==> Position(s.civil) < Position(t.civil))
  {
    CivilOrder(s.civil, t.civil);
  }

  /** The instant without its monotonic reading, as it is read from text. */
  function Stripped(t: Instant): Instant {
    t.(monotonic := None)
  }

  // ---- Digits ----

  predicate IsDigit(b: byte) { 48 <= b <= 57 }

  predicate AllDigits(s: Bytes) {
    forall i | 0 <= i < |s| :: IsDigit(s[i])
  }

  function NumberOf(s: Bytes): nat
    requires AllDigits(s)
  {
    if s == [] then 0 else 10 * NumberOf(s[..|s| - 1]) + (s[|s| - 1] - 48)
  }

  function Zeros(n: nat): (z: Bytes)
    ensures |z| == n && forall i | 0 <= i < n :: z[i] == 48
  {
    seq(n, _ => 48)
  }

  /** At least this many digits. */
  function Pad(n: nat, width: nat): (p: Bytes)
    ensures |p| >= width
  {
    if |Decimal(n)| >= width then Decimal(n) else Zeros(width - |Decimal(n)|) + Decimal(n)
  }

  lemma {:induction false} DecimalNumber(n: nat)
    ensures AllDigits(Decimal(n)) && NumberOf(Decimal(n)) == n
  {
    if n >= 10 {
      DecimalNumber(n / 10);
      assert Decimal(n)[..|Decimal(n)| - 1] == Decimal(n / 10);
    } else {
      assert Decimal(n)[..0] == [];
    }
  }

  lemma {:induction false} LeadingZeros(k: nat, s: Bytes)
    requires AllDigits(s)
    ensures AllDigits(Zeros(k) + s) && NumberOf(Zeros(k) + s) == NumberOf(s)
    decreases k + |s|
  {
    var z := Zeros(k) + s;
    if s != [] {
      LeadingZeros(k, s[..|s| - 1]);
      assert z[..|z| - 1] == Zeros(k) + s[..|s| - 1];
    } else if k > 0 {
      LeadingZeros(k - 1, []);
      assert z[..|z| - 1] == Zeros(k - 1) + [];
    }
  }

  lemma PadNumber(n: nat, width: nat)
    ensures AllDigits(Pad(n, width)) && NumberOf(Pad(n, width)) == n
  {
    DecimalNumber(n);
    LeadingZeros(if |Decimal(n)| >= width then 0 else width - |Decimal(n)|, Decimal(n));
    assert Zeros(0) + Decimal(n) == Decimal(n);
  }

  lemma PadWidth(n: nat, width: nat)
    requires width > 0
    ensures |Pad(n, width)| == width <==> n < PowerOfTen(width)
  {
    if n < PowerOfTen(width) {
      DecimalBound(n, width, PowerOfTen(width));
    } else {
      DecimalLong(n, width);
    }
  }

  lemma {:induction false} DecimalLong(n: nat, width: nat)
    requires n >= PowerOfTen(width) && width > 0
    ensures |Decimal(n)| > width
  {
    if width > 1 {
      DecimalLong(n / 10, width - 1);
    } else {
      assert PowerOfTen(1) == 10;
    }
  }

  /** Trailing zeros removed. */
  function Trim(s: Bytes): (t: Bytes)
    ensures |t| <= |s| && t + Zeros(|s| - |t|) == s
  {
    if s != [] && s[|s| - 1] == 48 then
      var t := Trim(s[..|s| - 1]);
      assert t + Zeros(|s| - |t|) == s[..|s| - 1] + [48];
      t
    else s
  }

  // ---- The layout ----

  function FormatYear(year: int): Bytes {
    if year < 0 then [45] + Pad(-year, 4) else Pad(year, 4)
  }

  function Fraction(nanos: nat): Bytes {
    if nanos == 0 then [] else [46] + Trim(Pad(nanos, 9))
  }

  /** Format with the layout RFC3339Nano, in UTC. */
  function Format(t: Time): Bytes {
    FormatYear(t.year) + [45] + Pad(t.month, 2) + [45] + Pad(t.day, 2) + [84]
      + Pad(t.hour, 2) + [58] + Pad(t.minute, 2) + [58] + Pad(t.second, 2) + Fraction(t.nanos) + [90]
  }

  function ParseFraction(s: Bytes): Option<nat> {
    if s == [] then Some(0)
    else if s[0] != 46 || |s| == 1 || !AllDigits(s[1..]) then None
    else Some(NumberOf((s[1..] + Zeros(9))[..9]))
  }

  predicate Punctuated(s: Bytes) {
    && |s| >= 20
    && s[4] == 45 && s[7] == 45 && s[10] == 84 && s[13] == 58 && s[16] == 58 && s[|s| - 1] == 90
    && AllDigits(s[..4]) && AllDigits(s[5..7]) && AllDigits(s[8..10])
    && AllDigits(s[11..13]) && AllDigits(s[14..16]) && AllDigits(s[17..19])
  }

  /** parseTimestamp: UTC only, and not the zero time. */
  function Parse(s: Bytes): Option<Time> {
    if !Punctuated(s) then None
    else
      match ParseFraction(s[19..|s| - 1])
      case None => None
      case Some(nanos) =>
        var t := Civil(NumberOf(s[..4]), NumberOf(s[5..7]), NumberOf(s[8..10]),
                       NumberOf(s[11..13]), NumberOf(s[14..16]), NumberOf(s[17..19]), nanos);
        if IsCivil(t) && t != ZERO then Some(t) else None
  }

  lemma {:induction false} TrimKeeps(s: Bytes)
    requires AllDigits(s) && NumberOf(s) > 0
    ensures Trim(s) != []
  {
    if s[|s| - 1] == 48 {
      TrimKeeps(s[..|s| - 1]);
    }
  }

  lemma FractionRoundTrip(nanos: nat)
    requires nanos < 1_000_000_000
    ensures ParseFraction(Fraction(nanos)) == Some(nanos)
  {
    if nanos != 0 {
      var p := Pad(nanos, 9);
      PadNumber(nanos, 9);
      assert PowerOfTen(9) == 1_000_000_000 by { assert PowerOfTen(5) == 100_000; }
      PadWidth(nanos, 9);
      var t := Trim(p);
      var f := Fraction(nanos);
      assert f[1..] == t;
      TrimKeeps(p);
      assert AllDigits(t) by {
        assert forall i | 0 <= i < |t| :: t[i] == (t + Zeros(9 - |t|))[i];
      }
      assert (t + Zeros(9))[..9] == t + Zeros(9 - |t|);
    }
  }

  /** What is written with a year of four digits is read back; the zero time is not written. */
  lemma FormatRoundTrip(t: Time)
    requires t != ZERO && 0 <= t.year <= 9999
    ensures Parse(Format(t)) == Some(t)
  {
    hide Pad;
    hide Fraction;
    hide ParseFraction;
    hide NumberOf;
    assert PowerOfTen(2) == 100 && PowerOfTen(4) == 10_000;
    PadNumber(t.year, 4); PadWidth(t.year, 4);
    PadNumber(t.month, 2); PadWidth(t.month, 2);
    PadNumber(t.day, 2); PadWidth(t.day, 2);
    PadNumber(t.hour, 2); PadWidth(t.hour, 2);
    PadNumber(t.minute, 2); PadWidth(t.minute, 2);
    PadNumber(t.second, 2); PadWidth(t.second, 2);
    FractionRoundTrip(t.nanos);
    var s := Format(t);
    assert s[..4] == Pad(t.year, 4);
    assert s[5..7] == Pad(t.month, 2);
    assert s[8..10] == Pad(t.day, 2);
    assert s[11..13] == Pad(t.hour, 2);
    assert s[14..16] == Pad(t.minute, 2);
    assert s[17..19] == Pad(t.second, 2);
    assert s[19..|s| - 1] == Fraction(t.nanos);
  }

  /** Any other year is written, but cannot be read. */
  lemma FormatOutOfRange(t: Time)
    requires t.year < 0 || t.year > 9999
    ensures Parse(Format(t)).None?
  {
    hide Fraction;
    hide ParseFraction;
    var s := Format(t);
    if t.year < 0 {
      assert s[0] == 45;
      assert s[..4][0] == s[0];
    } else {
      assert PowerOfTen(4) == 10_000;
      PadNumber(t.year, 4);
      PadWidth(t.year, 4);
      assert s[4] == Pad(t.year, 4)[4];
    }
  }
}
