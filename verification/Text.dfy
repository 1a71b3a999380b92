/** Byte strings, decimal numbers and UTF-8 (section 4 of RFC 3629), as the Go runtime reads them. */
module Text {
  import opened Common

  type byte = b: int | 0 <= b < 256

  type Bytes = seq<byte>

  /** The bytes of an ASCII literal. */
  function Ascii(s: string): (b: Bytes)
    ensures |b| == |s|
    ensures forall i | 0 <= i < |s| :: b[i] == (s[i] as int) % 128
  {
    seq(|s|, i requires 0 <= i < |s| => (s[i] as int) % 128)
  }

  predicate IsLetter(c: char) { 'a' <= c <= 'z' || 'A' <= c <= 'Z' }

  predicate IsNumeral(c: char) { '0' <= c <= '9' }

  /** Decimal digits of a natural number. */
  function Decimal(n: nat): (b: Bytes)
    ensures |b| > 0
  {
    if n < 10 then [48 + n] else Decimal(n / 10) + [48 + n % 10]
  }

  /** strconv.FormatInt in base ten. */
  function FormatInt(n: int): Bytes {
    if n < 0 then [45] + Decimal(-n) else Decimal(n)
  }

  // ---- Reading decimals ----

  /** The number that these digits write, without leading zeros. */
  function DecimalValue(s: Bytes): Option<nat> {
    if s == [] then None
    else
      var last := s[|s| - 1];
      if !(48 <= last <= 57) then None
      else if |s| == 1 then Some(last - 48)
      else
        match DecimalValue(s[..|s| - 1])
        case Some(n) => if n == 0 then None else Some(10 * n + (last - 48))
        case None => None
  }

  /** The number that digits with or without a minus sign write; zero has none. */
  function IntValue(s: Bytes): Option<int> {
    if s != [] && s[0] == 45 then
      match DecimalValue(s[1..])
      case Some(n) => if n == 0 then None else Some(-(n as int))
      case None => None
    else
      match DecimalValue(s)
      case Some(n) => Some(n as int)
      case None => None
  }

  lemma {:induction false} DecimalIsRead(n: nat)
    ensures DecimalValue(Decimal(n)) == Some(n)
    ensures forall i | 0 <= i < |Decimal(n)| :: 48 <= Decimal(n)[i] <= 57
  {
    if n >= 10 {
      DecimalIsRead(n / 10);
      assert Decimal(n)[..|Decimal(n)| - 1] == Decimal(n / 10);
    }
  }

  lemma {:induction false} ValueIsDecimal(s: Bytes)
    requires DecimalValue(s).Some?
    ensures s == Decimal(DecimalValue(s).value)
    decreases |s|
  {
    var last := s[|s| - 1];
    assert s == s[..|s| - 1] + [last];
    if |s| > 1 {
      ValueIsDecimal(s[..|s| - 1]);
    }
  }

  /** A number is read from its text, and from no other. */
  lemma FormatIntIsRead(n: int, s: Bytes)
    ensures IntValue(s) == Some(n) <==> s == FormatInt(n)
  {
    assert s == [] ==> IntValue(s).None?;
    hide DecimalValue;
    hide Decimal;
    DecimalIsRead(if n < 0 then -n else n);
    FormattedIsRead(n);
    if IntValue(s) == Some(n) {
      if s[0] == 45 {
        ValueIsDecimal(s[1..]);
        assert s == [45] + s[1..];
      } else {
        ValueIsDecimal(s);
      }
    }
  }

  lemma FormattedIsRead(n: int)
    ensures IntValue(FormatInt(n)) == Some(n)
  {
    hide DecimalValue;
    hide Decimal;
    DecimalIsRead(if n < 0 then -n else n);
    if n < 0 {
      assert FormatInt(n)[1..] == Decimal(-n);
    }
  }

  lemma {:induction false} DecimalGrows(m: nat, n: nat)
    requires m <= n
    ensures |Decimal(m)| <= |Decimal(n)|
  {
    if m >= 10 {
      DecimalGrows(m / 10, n / 10);
    }
  }

  lemma {:induction false} DecimalSmall(n: nat)
    ensures |Decimal(n)| <= n + 1
  {
    if n >= 10 {
      DecimalSmall(n / 10);
    }
  }

  /** A number below a power of ten has at most that many digits. */
  lemma {:induction false} DecimalBound(n: nat, digits: nat, power: nat)
    requires power == PowerOfTen(digits) && n < power && digits > 0
    ensures |Decimal(n)| <= digits
    decreases digits
  {
    if n >= 10 {
      DecimalBound(n / 10, digits - 1, PowerOfTen(digits - 1));
    }
  }

  function PowerOfTen(n: nat): nat { if n == 0 then 1 else 10 * PowerOfTen(n - 1) }

  // ---- UTF-8 ----

  predicate Continuation(b: byte) { 0x80 <= b <= 0xBF }

  /** The range the second byte of a sequence with this first byte must lie in. */
  predicate SecondByte(first: byte, second: byte) {
    if first == 0xE0 then 0xA0 <= second <= 0xBF
    else if first == 0xED then 0x80 <= second <= 0x9F
    else if first == 0xF0 then 0x90 <= second <= 0xBF
    else if first == 0xF4 then 0x80 <= second <= 0x8F
    else Continuation(second)
  }

  /** The length of the code point at the start of the string, or 0 when its first byte does not start one. */
  function RuneSize(s: Bytes): (n: nat)
    requires s != []
    ensures n <= 4 && n <= |s|
  {
    if s[0] < 0x80 then 1
    else if 0xC2 <= s[0] <= 0xDF && |s| >= 2 && Continuation(s[1]) then 2
    else if 0xE0 <= s[0] <= 0xEF && |s| >= 3 && SecondByte(s[0], s[1]) && Continuation(s[2]) then 3
    else if 0xF0 <= s[0] <= 0xF4 && |s| >= 4
            && SecondByte(s[0], s[1]) && Continuation(s[2]) && Continuation(s[3]) then 4
    else 0
  }

  predicate ValidUtf8(s: Bytes) {
    s == [] || (RuneSize(s) > 0 && ValidUtf8(s[RuneSize(s)..]))
  }

  /** The code points of unicode.IsSpace. */
  predicate Space(r: Bytes) {
    || (|r| == 1 && (r[0] == 0x20 || 0x09 <= r[0] <= 0x0D))
    || r == [0xC2, 0x85]
    || r == [0xC2, 0xA0]
    || r == [0xE1, 0x9A, 0x80]
    || (|r| == 3 && r[0] == 0xE2 && r[1] == 0x80 && (0x80 <= r[2] <= 0x8A || r[2] in {0xA8, 0xA9, 0xAF}))
    || r == [0xE2, 0x81, 0x9F]
    || r == [0xE3, 0x80, 0x80]
  }

  /** U+FFFD in UTF-8. */
  const REPLACEMENT: Bytes := [0xEF, 0xBF, 0xBD]

  /** The string with every byte that is not part of a code point replaced by U+FFFD. */
  function Sanitised(s: Bytes): Bytes {
    if s == [] then []
    else if RuneSize(s) == 0 then REPLACEMENT + Sanitised(s[1..])
    else s[..RuneSize(s)] + Sanitised(s[RuneSize(s)..])
  }

  /** A code point is recognised whatever follows it. */
  lemma RuneSizePrefix(r: Bytes, t: Bytes)
    requires r != [] && RuneSize(r) == |r|
    ensures RuneSize(r + t) == |r|
    ensures (r + t)[..|r|] == r && (r + t)[|r|..] == t
  {
  }

  lemma RunePrefix(s: Bytes)
    requires s != [] && RuneSize(s) > 0
    ensures RuneSize(s[..RuneSize(s)]) == RuneSize(s)
    ensures s[..RuneSize(s)] + s[RuneSize(s)..] == s
  {
  }

  lemma {:induction false} ValidConcat(s: Bytes, t: Bytes)
    requires ValidUtf8(s)
    ensures ValidUtf8(t) <==> ValidUtf8(s + t)
    decreases |s|
  {
    if s == [] {
      assert s + t == t;
    } else {
      var n := RuneSize(s);
      RunePrefix(s);
      RuneSizePrefix(s[..n], s[n..] + t);
      assert s + t == s[..n] + (s[n..] + t);
      ValidConcat(s[n..], t);
    }
  }

  lemma {:induction false} SanitisedIsValid(s: Bytes)
    ensures ValidUtf8(Sanitised(s))
    ensures ValidUtf8(s) <==> Sanitised(s) == s
    decreases |s|
  {
    if s != [] {
      var n := RuneSize(s);
      if n == 0 {
        SanitisedIsValid(s[1..]);
        RuneSizePrefix(REPLACEMENT, Sanitised(s[1..]));
        assert Sanitised(s)[0] == 0xEF && Sanitised(s)[1] == 0xBF && Sanitised(s)[2] == 0xBD;
      } else {
        SanitisedIsValid(s[n..]);
        RunePrefix(s);
        RuneSizePrefix(s[..n], Sanitised(s[n..]));
        assert Sanitised(s)[n..] == Sanitised(s[n..]);
      }
    }
  }

  lemma {:induction false} SanitisedGrows(s: Bytes)
    ensures |s| <= |Sanitised(s)| <= 3 * |s|
    decreases |s|
  {
    if s != [] {
      SanitisedGrows(s[if RuneSize(s) == 0 then 1 else RuneSize(s)..]);
    }
  }

  lemma {:induction false} PlainIsValid(s: Bytes)
    requires forall i | 0 <= i < |s| :: s[i] < 0x80
    ensures ValidUtf8(s)
    decreases |s|
  {
    if s != [] {
      PlainIsValid(s[1..]);
    }
  }
}
