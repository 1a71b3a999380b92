/**
 JSON strings as encoding/json writes them (section 7 of RFC 8259, plus the escapes Go adds for
 `<`, `>`, `&`, U+2028, U+2029 and bytes that are not UTF-8), and their reader.
 */
module Json {
  import opened Text
  import opened Common
  import opened Unicode

  const QUOTE: byte := 34
  const BACKSLASH: byte := 92

  predicate NeedsEscape(b: byte) {
    b < 0x20 || b == QUOTE || b == BACKSLASH || b == 60 || b == 62 || b == 38
  }

  /** Control characters, quotation mark and backslash, and what HTML gives a meaning. */
  lemma EscapedAre(b: byte)
    ensures NeedsEscape(b) <==> var c := b as char; c < ' ' || c == '"' || c == '\\' || c == '<' || c == '>' || c == '&'
  {
  }

  function HexDigit(d: nat): byte
    requires d < 16
  {
    if d < 10 then 48 + d else 87 + d
  }

  /** The letter of a two-byte escape, when the byte has one. */
  function ShortEscape(b: byte): Option<byte> {
    if b == QUOTE || b == BACKSLASH then Some(b)
    else if b == 8 then Some(98)
    else if b == 12 then Some(102)
    else if b == 10 then Some(110)
    else if b == 13 then Some(114)
    else if b == 9 then Some(116)
    else None
  }

  /** Quotation mark, backslash, and the controls that have a letter: the others are written by their number. */
  lemma LettersAre(b: byte)
    ensures var c := b as char;
      ShortEscape(b) == if c == '"' || c == '\\' then Some(b)
                        else if b == 8 then Some('b' as int)
                        else if b == 12 then Some('f' as int)
                        else if c == '\n' then Some('n' as int)
                        else if c == '\r' then Some('r' as int)
                        else if c == '\t' then Some('t' as int)
                        else None
  {
  }

  function UnicodeEscape(a: byte, b: byte, c: byte, d: byte): Bytes {
    [BACKSLASH, 117, a, b, c, d]
  }

  /** The encoding of one code point. */
  function EscapeRune(r: Bytes): Bytes
    requires r != []
  {
    if |r| == 1 && NeedsEscape(r[0]) then
      match ShortEscape(r[0])
      case Some(letter) => [BACKSLASH, letter]
      case None => UnicodeEscape(48, 48, HexDigit(r[0] / 16), HexDigit(r[0] % 16))
    else if r == [0xE2, 0x80, 0xA8] then UnicodeEscape(50, 48, 50, 56)
    else if r == [0xE2, 0x80, 0xA9] then UnicodeEscape(50, 48, 50, 57)
    else r
  }

  const INVALID: Bytes := UnicodeEscape(102, 102, 102, 100)

  function Escape(s: Bytes): Bytes {
    if s == [] then []
    else if RuneSize(s) == 0 then INVALID + Escape(s[1..])
    else EscapeRune(s[..RuneSize(s)]) + Escape(s[RuneSize(s)..])
  }

  /** json.Marshal of a string. */
  function Quote(s: Bytes): Bytes {
    [QUOTE] + Escape(s) + [QUOTE]
  }

  // ---- Lengths ----

  /** No encoding is shorter than its string: a string longer than the room left cannot fit. */
  lemma {:induction false} EscapeAtLeast(s: Bytes)
    ensures |Escape(s)| >= |s|
    decreases |s|
  {
    if s != [] {
      EscapeAtLeast(s[if RuneSize(s) == 0 then 1 else RuneSize(s)..]);
    }
  }

  lemma {:induction false} EscapeAtMost(s: Bytes)
    ensures |Escape(s)| <= 6 * |s|
    decreases |s|
  {
    if s != [] {
      EscapeAtMost(s[if RuneSize(s) == 0 then 1 else RuneSize(s)..]);
    }
  }

  // ---- Structure ----

  /** Encoding distributes over concatenation at a code point boundary. */
  lemma {:induction false} EscapeConcat(s: Bytes, t: Bytes)
    requires ValidUtf8(s)
    ensures Escape(s + t) == Escape(s) + Escape(t)
    decreases |s|
  {
    hide EscapeRune;
    if s == [] {
      assert s + t == t;
    } else {
      var n := RuneSize(s);
      RunePrefix(s);
      RuneSizePrefix(s[..n], s[n..] + t);
      assert s + t == s[..n] + (s[n..] + t);
      EscapeConcat(s[n..], t);
    }
  }

  lemma EscapeRuneIsValid(r: Bytes)
    requires r != [] && RuneSize(r) == |r|
    ensures ValidUtf8(EscapeRune(r))
  {
    if EscapeRune(r) == r {
      assert r[|r|..] == [];
    } else {
      PlainIsValid(EscapeRune(r));
    }
  }

  /** Whatever bytes go in, the encoding is valid UTF-8. */
  lemma {:induction false} EscapeIsValid(s: Bytes)
    ensures ValidUtf8(Escape(s))
    decreases |s|
  {
    if s != [] {
      var n := RuneSize(s);
      if n == 0 {
        PlainIsValid(INVALID);
        EscapeIsValid(s[1..]);
        ValidConcat(INVALID, Escape(s[1..]));
      } else {
        RunePrefix(s);
        EscapeRuneIsValid(s[..n]);
        EscapeIsValid(s[n..]);
        ValidConcat(EscapeRune(s[..n]), Escape(s[n..]));
      }
    }
  }

  /** Characters that JSON writes as themselves. */
  predicate Plain(s: Bytes) {
    forall i | 0 <= i < |s| :: s[i] < 0x80 && !NeedsEscape(s[i])
  }

  lemma {:induction false} PlainEscape(s: Bytes)
    requires Plain(s)
    ensures Escape(s) == s
    decreases |s|
  {
    if s != [] {
      PlainEscape(s[1..]);
    }
  }

  lemma ShortEscapeTwice(b: byte)
    requires NeedsEscape(b) && ShortEscape(b).Some?
    ensures |Escape([BACKSLASH, ShortEscape(b).value])| <= 4
  {
    var e := [BACKSLASH, ShortEscape(b).value];
    assert e[..1] == [BACKSLASH] && e[1..] == [ShortEscape(b).value];
    assert e[1..][1..] == [] && e[1..][..1] == e[1..];
    assert Escape(e) == EscapeRune(e[..1]) + Escape(e[1..]);
    assert Escape(e[1..]) == EscapeRune(e[1..][..1]) + Escape([]);
  }

  lemma UnicodeEscapeTwice(a: byte, b: byte, c: byte, d: byte)
    requires Plain([a, b, c, d])
    ensures |Escape(UnicodeEscape(a, b, c, d))| == 7
  {
    var e := UnicodeEscape(a, b, c, d);
    assert e[..1] == [BACKSLASH] && e[1..] == [117, a, b, c, d];
    assert Plain(e[1..]) by {
      forall i | 0 <= i < |e[1..]| ensures e[1..][i] < 0x80 && !NeedsEscape(e[1..][i]) {
        if i > 0 { assert e[1..][i] == [a, b, c, d][i - 1]; }
      }
    }
    PlainEscape(e[1..]);
  }

  /** Encoding the encoding of a code point takes at most seven bytes for each of its bytes. */
  lemma EscapeRuneTwice(r: Bytes)
    requires r != [] && RuneSize(r) == |r|
    ensures |Escape(EscapeRune(r))| <= 7 * |r|
  {
    if EscapeRune(r) == r {
      EscapeAtMost(r);
    } else if |r| == 1 && ShortEscape(r[0]).Some? {
      ShortEscapeTwice(r[0]);
    } else if |r| == 1 {
      UnicodeEscapeTwice(48, 48, HexDigit(r[0] / 16), HexDigit(r[0] % 16));
    } else if r == [0xE2, 0x80, 0xA8] {
      UnicodeEscapeTwice(50, 48, 50, 56);
    } else {
      UnicodeEscapeTwice(50, 48, 50, 57);
    }
  }

  /** A valid string encoded twice grows at most sevenfold. */
  lemma {:induction false} EscapeTwiceAtMost(s: Bytes)
    requires ValidUtf8(s)
    ensures |Escape(Escape(s))| <= 7 * |s|
    decreases |s|
  {
    if s != [] {
      var n := RuneSize(s);
      RunePrefix(s);
      EscapeRuneIsValid(s[..n]);
      EscapeConcat(EscapeRune(s[..n]), Escape(s[n..]));
      EscapeRuneTwice(s[..n]);
      EscapeTwiceAtMost(s[n..]);
    }
  }

  // ---- Reading back ----

  function HexValue(b: byte): Option<nat> {
    if 48 <= b <= 57 then Some(b - 48)
    else if 97 <= b <= 102 then Some(b - 87)
    else if 65 <= b <= 70 then Some(b - 55)
    else None
  }

  /** Hexadecimal digits are read in either case. */
  lemma HexValueIs(b: byte)
    ensures var c := b as char;
      && (IsNumeral(c) ==> HexValue(b) == Some(b - '0' as int))
      && ('a' <= c <= 'f' ==> HexValue(b) == Some(10 + (b - 'a' as int)))
      && ('A' <= c <= 'F' ==> HexValue(b) == Some(10 + (b - 'A' as int)))
      && (HexValue(b).Some? ==> IsNumeral(c) || 'a' <= c <= 'f' || 'A' <= c <= 'F')
  {
  }

  function UnescapeLetter(b: byte): Option<byte> {
    if b == QUOTE || b == BACKSLASH || b == 47 then Some(b)
    else if b == 98 then Some(8)
    else if b == 102 then Some(12)
    else if b == 110 then Some(10)
    else if b == 114 then Some(13)
    else if b == 116 then Some(9)
    else None
  }

  function UnescapeUnicode(a: byte, b: byte, c: byte, d: byte): Option<Bytes> {
    match (HexValue(a), HexValue(b), HexValue(c), HexValue(d))
    case (Some(w), Some(x), Some(y), Some(z)) =>
      var code := w * 4096 + x * 256 + y * 16 + z;
      EncodeCodePoint(code)
    case _ => None
  }

  function Prepend(r: Bytes, rest: Option<Bytes>): Option<Bytes> {
    match rest
    case Some(t) => Some(r + t)
    case None => None
  }

  /** The contents of a JSON string, without surrogate escapes. */
  function Unescape(s: Bytes): Option<Bytes> {
    if s == [] then Some([])
    else if s[0] == QUOTE || s[0] < 0x20 || RuneSize(s) == 0 then None
    else if s[0] != BACKSLASH then Prepend(s[..RuneSize(s)], Unescape(s[RuneSize(s)..]))
    else if |s| >= 6 && s[1] == 117 then
      match UnescapeUnicode(s[2], s[3], s[4], s[5])
      case Some(r) => Prepend(r, Unescape(s[6..]))
      case None => None
    else if |s| >= 2 then
      match UnescapeLetter(s[1])
      case Some(b) => Prepend([b], Unescape(s[2..]))
      case None => None
    else None
  }

  lemma HexRoundTrip(b: byte)
    requires b < 0x80
    ensures UnescapeUnicode(48, 48, HexDigit(b / 16), HexDigit(b % 16)) == Some([b])
  {
    assert b / 16 * 16 + b % 16 == b;
  }

  lemma UnescapeUnicodeEscape(a: byte, b: byte, c: byte, d: byte, t: Bytes)
    requires UnescapeUnicode(a, b, c, d).Some?
    ensures Unescape(UnicodeEscape(a, b, c, d) + t) == Prepend(UnescapeUnicode(a, b, c, d).value, Unescape(t))
  {
    assert (UnicodeEscape(a, b, c, d) + t)[6..] == t;
  }

  lemma UnescapeEscapedRune(r: Bytes, t: Bytes)
    requires r != [] && RuneSize(r) == |r|
    ensures Unescape(EscapeRune(r) + t) == Prepend(r, Unescape(t))
  {
    var e := EscapeRune(r);
    assert |r| == 1 ==> r == [r[0]];
    if e == r {
      RuneSizePrefix(r, t);
    } else if |r| == 1 && ShortEscape(r[0]).Some? {
      assert (e + t)[2..] == t && (e + t)[1] == e[1];
      assert UnescapeLetter(e[1]) == Some(r[0]);
    } else if |r| == 1 {
      HexRoundTrip(r[0]);
      UnescapeUnicodeEscape(48, 48, HexDigit(r[0] / 16), HexDigit(r[0] % 16), t);
    } else if r == [0xE2, 0x80, 0xA8] {
      UnescapeUnicodeEscape(50, 48, 50, 56, t);
    } else {
      UnescapeUnicodeEscape(50, 48, 50, 57, t);
    }
  }

  /** Reading an encoded string gives back its sanitised bytes: exactly the string, when it is valid UTF-8. */
  lemma {:induction false} UnescapeEscape(s: Bytes)
    ensures Unescape(Escape(s)) == Some(Sanitised(s))
    ensures ValidUtf8(s) ==> Unescape(Escape(s)) == Some(s)
    decreases |s|
  {
    if s != [] {
      var n := RuneSize(s);
      if n == 0 {
        UnescapeEscape(s[1..]);
        assert (INVALID + Escape(s[1..]))[6..] == Escape(s[1..]);
        assert UnescapeUnicode(102, 102, 102, 100) == Some(REPLACEMENT);
      } else {
        RunePrefix(s);
        UnescapeEscapedRune(s[..n], Escape(s[n..]));
        UnescapeEscape(s[n..]);
      }
    }
    SanitisedIsValid(s);
  }

  /** Valid strings with equal encodings are equal. */
  lemma EscapeInjective(s: Bytes, t: Bytes)
    requires ValidUtf8(s) && ValidUtf8(t) && Escape(s) == Escape(t)
    ensures s == t
  {
    UnescapeEscape(s);
    UnescapeEscape(t);
  }
}
