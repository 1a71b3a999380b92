/** Go's quoted strings, as strconv.Quote writes them, and their reader. */
module Strconv {
  import opened Common
  import opened Text
  import opened Unicode
  import Json
  import Delimited

  const QUOTE: byte := 34
  const BACKSLASH: byte := 92

  // ---- Writing ----

  /** So many hexadecimal digits, the lowest last. */
  function HexDigits(c: nat, n: nat): (h: Bytes)
    ensures |h| == n
    ensures forall i | 0 <= i < n :: h[i] != QUOTE && h[i] != BACKSLASH && h[i] > 0x20
  {
    if n == 0 then [] else HexDigits(c / 16, n - 1) + [Json.HexDigit(c % 16)]
  }

  /** unicode.IsPrint, beyond ASCII. */
  type Printable = Bytes -> bool

  function ControlLetter(b: byte): Option<byte> {
    if b == 7 then Some(97)
    else if b == 8 then Some(98)
    else if b == 12 then Some(102)
    else if b == 10 then Some(110)
    else if b == 13 then Some(114)
    else if b == 9 then Some(116)
    else if b == 11 then Some(118)
    else None
  }

  function ByteEscape(b: byte): Bytes {
    [BACKSLASH, 120] + HexDigits(b, 2)
  }

  function QuoteRune(isPrint: Printable, r: Bytes): Bytes
    requires r != [] && RuneSize(r) == |r|
  {
    if r[0] == QUOTE || r[0] == BACKSLASH then [BACKSLASH, r[0]]
    else if |r| == 1 && 0x20 <= r[0] < 0x7F then r
    else if |r| > 1 && isPrint(r) then r
    else if |r| == 1 && ControlLetter(r[0]).Some? then [BACKSLASH, ControlLetter(r[0]).value]
    else if |r| == 1 then ByteEscape(r[0])
    else if |r| <= 3 then [BACKSLASH, 117] + HexDigits(CodePoint(r), 4)
    else [BACKSLASH, 85] + HexDigits(CodePoint(r), 8)
  }

  /** The contents of strconv.Quote. */
  function QuoteContents(isPrint: Printable, s: Bytes): Bytes {
    if s == [] then []
    else if RuneSize(s) == 0 then ByteEscape(s[0]) + QuoteContents(isPrint, s[1..])
    else
      var r := s[..RuneSize(s)];
      RunePrefix(s);
      QuoteRune(isPrint, r) + QuoteContents(isPrint, s[RuneSize(s)..])
  }

  function Quote(isPrint: Printable, s: Bytes): Bytes {
    [QUOTE] + QuoteContents(isPrint, s) + [QUOTE]
  }

  /** Printable ASCII without quotation marks and backslashes is quoted as it is. */
  lemma {:induction false} PlainIsQuoted(isPrint: Printable, s: Bytes)
    requires forall i | 0 <= i < |s| :: ' ' <= s[i] as char <= '~' && s[i] as char != '"' && s[i] as char != '\\'
    ensures Quote(isPrint, s) == [QUOTE] + s + [QUOTE]
    decreases |s|
  {
    if s != [] {
      assert RuneSize(s) == 1 && s[..1] == [s[0]];
      PlainIsQuoted(isPrint, s[1..]);
      assert Quote(isPrint, s[1..])[1..|s|] == QuoteContents(isPrint, s[1..]);
      assert s == [s[0]] + s[1..];
    }
  }

  // ---- Reading ----

  function HexNumber(h: Bytes): Option<nat> {
    if h == [] then Some(0)
    else if HexNumber(h[..|h| - 1]).None? || Json.HexValue(h[|h| - 1]).None? then None
    else Some(16 * HexNumber(h[..|h| - 1]).value + Json.HexValue(h[|h| - 1]).value)
  }

  function LetterControl(b: byte): Option<byte> {
    if b == 97 then Some(7)
    else if b == 98 then Some(8)
    else if b == 102 then Some(12)
    else if b == 110 then Some(10)
    else if b == 114 then Some(13)
    else if b == 116 then Some(9)
    else if b == 118 then Some(11)
    else if b == QUOTE || b == BACKSLASH then Some(b)
    else None
  }

  predicate Octal(b: byte) { 48 <= b <= 55 }

  function OctalByte(a: byte, b: byte, c: byte): byte
    requires Octal(a) && Octal(b) && Octal(c) && a < 52
  {
    var high: int, middle: int, low: int := a - 48, b - 48, c - 48;
    high * 64 + middle * 8 + low
  }

  /** Three octal digits write a byte. */
  lemma OctalIs(b: byte)
    ensures var x, y, z := 48 + b / 64, 48 + b / 8 % 8, 48 + b % 8;
      Octal(x) && Octal(y) && Octal(z) && x < 52 && OctalByte(x, y, z) == b
    ensures Octal(b) <==> '0' <= b as char <= '7'
  {
    assert b / 8 / 8 == b / 64;
  }

  /** What an escape stands for, and how long it is. */
  function ReadEscape(s: Bytes): Option<(Bytes, nat)>
    requires s != [] && s[0] == BACKSLASH
  {
    if |s| < 2 then None
    else if LetterControl(s[1]).Some? then Some(([LetterControl(s[1]).value], 2))
    else if Octal(s[1]) then
      if |s| >= 4 && Octal(s[2]) && Octal(s[3]) && s[1] < 52 then
        Some(([OctalByte(s[1], s[2], s[3])], 4))
      else None
    else if s[1] == 120 && |s| >= 4 then
      match HexNumber(s[2..4])
      case Some(c) => if c < 256 then Some(([c], 4)) else None
      case None => None
    else if s[1] == 117 && |s| >= 6 then
      match HexNumber(s[2..6])
      case Some(c) => if EncodeCodePoint(c).Some? then Some((EncodeCodePoint(c).value, 6)) else None
      case None => None
    else if s[1] == 85 && |s| >= 10 then
      match HexNumber(s[2..10])
      case Some(c) => if EncodeCodePoint(c).Some? then Some((EncodeCodePoint(c).value, 10)) else None
      case None => None
    else None
  }

  lemma OctalIsRead(b: byte, t: Bytes)
    ensures ReadEscape([BACKSLASH, 48 + b / 64, 48 + b / 8 % 8, 48 + b % 8] + t) == Some(([b], 4))
  {
    OctalIs(b);
  }

  /** strconv.Unquote of what stands between the quotation marks; a byte that is no code point reads as U+FFFD. */
  function Unquote(s: Bytes): Option<Bytes> {
    if s == [] then Some([])
    else if s[0] == QUOTE || s[0] == 10 then None
    else if s[0] == BACKSLASH then
      match ReadEscape(s)
      case Some((value, n)) => if 0 < n <= |s| then Json.Prepend(value, Unquote(s[n..])) else None
      case None => None
    else if RuneSize(s) == 0 then Json.Prepend(REPLACEMENT, Unquote(s[1..]))
    else Json.Prepend(s[..RuneSize(s)], Unquote(s[RuneSize(s)..]))
  }

  // ---- Round trip ----

  function Power16(n: nat): nat { if n == 0 then 1 else 16 * Power16(n - 1) }

  lemma {:induction false} HexRoundTrip(c: nat, n: nat)
    requires c < Power16(n)
    ensures HexNumber(HexDigits(c, n)) == Some(c)
  {
    if n > 0 {
      HexRoundTrip(c / 16, n - 1);
      assert HexDigits(c, n)[..n - 1] == HexDigits(c / 16, n - 1);
      HexDigitRead(c % 16);
    }
  }

  lemma HexDigitRead(d: nat)
    requires d < 16
    ensures Json.HexValue(Json.HexDigit(d)) == Some(d)
  {
  }

  lemma Powers()
    ensures Power16(2) == 256 && Power16(4) == 0x10000 && Power16(8) > 0x110000
  {
    assert Power16(2) == 256;
    assert Power16(4) == 0x10000;
    assert Power16(6) == 0x1000000;
  }

  lemma UnquoteByte(b: byte, t: Bytes)
    ensures Unquote(ByteEscape(b) + t) == Json.Prepend([b], Unquote(t))
  {
    hide HexNumber;
    hide HexDigits;
    hide EncodeCodePoint;
    var s := ByteEscape(b) + t;
    Powers();
    HexRoundTrip(b, 2);
    assert s[2..4] == HexDigits(b, 2) && s[4..] == t;
    assert ReadEscape(s) == Some(([b], 4));
  }

  lemma UnquoteCode(letter: byte, n: nat, r: Bytes, t: Bytes)
    requires r != [] && RuneSize(r) == |r|
    requires (letter == 117 && n == 4 && |r| <= 3) || (letter == 85 && n == 8)
    ensures Unquote([BACKSLASH, letter] + HexDigits(CodePoint(r), n) + t) == Json.Prepend(r, Unquote(t))
  {
    hide HexNumber;
    hide HexDigits;
    hide EncodeCodePoint;
    hide RuneSize;
    hide CodePoint;
    var s := [BACKSLASH, letter] + HexDigits(CodePoint(r), n) + t;
    Powers();
    HexRoundTrip(CodePoint(r), n);
    CodePointRoundTrip(r);
    assert s[2..2 + n] == HexDigits(CodePoint(r), n) && s[2 + n..] == t;
    assert ReadEscape(s) == Some((r, 2 + n));
  }

  lemma UnquoteRune(isPrint: Printable, r: Bytes, t: Bytes)
    requires r != [] && RuneSize(r) == |r|
    ensures Unquote(QuoteRune(isPrint, r) + t) == Json.Prepend(r, Unquote(t))
  {
    hide HexNumber;
    hide HexDigits;
    hide CodePoint;
    hide EncodeCodePoint;
    var q := QuoteRune(isPrint, r);
    assert |r| == 1 ==> r == [r[0]];
    if q == r {
      RuneSizePrefix(r, t);
    } else if r[0] == QUOTE || r[0] == BACKSLASH || (|r| == 1 && ControlLetter(r[0]).Some?) {
      assert (q + t)[2..] == t && (q + t)[1] == q[1];
      assert LetterControl(q[1]) == Some(r[0]);
      assert ReadEscape(q + t) == Some(([r[0]], 2));
    } else if |r| == 1 {
      UnquoteByte(r[0], t);
    } else if |r| <= 3 {
      UnquoteCode(117, 4, r, t);
    } else {
      UnquoteCode(85, 8, r, t);
    }
  }

  /** What is quoted is read back, whatever the bytes. */
  lemma {:induction false} UnquoteQuote(isPrint: Printable, s: Bytes)
    ensures Unquote(QuoteContents(isPrint, s)) == Some(s)
    decreases |s|
  {
    hide QuoteRune;
    hide ByteEscape;
    if s != [] {
      var n := RuneSize(s);
      if n == 0 {
        UnquoteQuote(isPrint, s[1..]);
        UnquoteByte(s[0], QuoteContents(isPrint, s[1..]));
        assert [s[0]] + s[1..] == s;
      } else {
        RunePrefix(s);
        UnquoteQuote(isPrint, s[n..]);
        UnquoteRune(isPrint, s[..n], QuoteContents(isPrint, s[n..]));
      }
    }
  }

  // ---- Where the contents end ----

  lemma RuneQuoteEnds(isPrint: Printable, r: Bytes, t: Bytes)
    requires r != [] && RuneSize(r) == |r|
    ensures var q := QuoteRune(isPrint, r);
      Delimited.StringEnd(q + t) == |q| + Delimited.StringEnd(t) && 10 !in q
  {
    var q := QuoteRune(isPrint, r);
    if q == r {
      Delimited.StepOver(q, t);
    } else {
      assert q == [BACKSLASH, q[1]] + q[2..];
      Delimited.StepOverEscaped(q[1], q[2..], t);
      assert q + t == [BACKSLASH, q[1]] + q[2..] + t;
    }
  }

  /** The first quotation mark that is not escaped is the closing one, and there is no line break before it. */
  lemma {:induction false} QuoteEnds(isPrint: Printable, s: Bytes, t: Bytes)
    ensures var q := QuoteContents(isPrint, s);
      Delimited.StringEnd(q + [QUOTE] + t) == |q| && 10 !in q
    decreases |s|
  {
    hide QuoteRune;
    hide HexDigits;
    var q := QuoteContents(isPrint, s);
    if s == [] {
      assert q + [QUOTE] + t == [QUOTE] + t;
    } else {
      var n := RuneSize(s);
      var next := if n == 0 then s[1..] else s[n..];
      if n != 0 { RunePrefix(s); }
      var head := if n == 0 then ByteEscape(s[0]) else QuoteRune(isPrint, s[..n]);
      var rest := QuoteContents(isPrint, next) + [QUOTE] + t;
      QuoteEnds(isPrint, next, t);
      assert q + [QUOTE] + t == head + rest;
      if n == 0 {
        Delimited.StepOverEscaped(120, HexDigits(s[0], 2), rest);
      } else {
        RuneQuoteEnds(isPrint, s[..n], rest);
      }
    }
  }
}
