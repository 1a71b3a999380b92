/** Code points and their UTF-8 (section 3 of RFC 3629), and the classes of them that the program asks for. */
module Unicode {
  import opened Common
  import opened Text

  /** The code point of a UTF-8 sequence. */
  function CodePoint(r: Bytes): (c: nat)
    requires r != [] && RuneSize(r) == |r|
    ensures c < 0x110000 && (|r| <= 3 ==> c < 0x10000)
  {
    var a: int := r[0];
    if |r| == 1 then a
    else
      var b: int := r[1];
      if |r| == 2 then (a - 0xC0) * 64 + (b - 0x80)
      else
        var c: int := r[2];
        if |r| == 3 then (a - 0xE0) * 4096 + (b - 0x80) * 64 + (c - 0x80)
        else
          var d: int := r[3];
          (a - 0xF0) * 262144 + (b - 0x80) * 4096 + (c - 0x80) * 64 + (d - 0x80)
  }

  /** utf8.AppendRune of a code point that is not a surrogate. */
  function EncodeCodePoint(c: nat): Option<Bytes> {
    if c < 0x80 then Some([c])
    else if c < 0x800 then Some([0xC0 + c / 64, 0x80 + c % 64])
    else if 0xD800 <= c < 0xE000 || c >= 0x110000 then None
    else if c < 0x10000 then Some([0xE0 + c / 4096, 0x80 + c / 64 % 64, 0x80 + c % 64])
    else Some([0xF0 + c / 262144, 0x80 + c / 4096 % 64, 0x80 + c / 64 % 64, 0x80 + c % 64])
  }

  lemma CodePointRoundTrip(r: Bytes)
    requires r != [] && RuneSize(r) == |r|
    ensures EncodeCodePoint(CodePoint(r)) == Some(r)
  {
    if |r| == 1 {
      assert r == [r[0]];
    } else if |r| == 2 {
      var a: int, b: int := r[0], r[1];
      assert r == [r[0], r[1]];
      assert CodePoint(r) / 64 == a - 0xC0 && CodePoint(r) % 64 == b - 0x80;
    } else if |r| == 3 {
      ThreeBytes(r);
    } else if |r| == 4 {
      FourBytes(r);
    }
  }

  lemma ThreeBytes(r: Bytes)
    requires |r| == 3 && RuneSize(r) == 3
    ensures EncodeCodePoint(CodePoint(r)) == Some(r)
  {
    var a: int, b: int, c: int := r[0], r[1], r[2];
    ThreeParts(a - 0xE0, b - 0x80, c - 0x80);
    var code := CodePoint(r);
    assert code == (a - 0xE0) * 4096 + (b - 0x80) * 64 + (c - 0x80);
    assert code >= 0x800 && (a <= 0xED ==> code < 0xD800) && (a >= 0xEE ==> code >= 0xE000);
    assert r == [r[0], r[1], r[2]];
  }

  lemma FourBytes(r: Bytes)
    requires |r| == 4 && RuneSize(r) == 4
    ensures EncodeCodePoint(CodePoint(r)) == Some(r)
  {
    var a: int, b: int, c: int, d: int := r[0], r[1], r[2], r[3];
    var code := CodePoint(r);
    assert code == (a - 0xF0) * 262144 + (b - 0x80) * 4096 + (c - 0x80) * 64 + (d - 0x80);
    FourParts(a - 0xF0, b - 0x80, c - 0x80, d - 0x80);
    FourCode(a, b, c, d, code);
    assert r == [r[0], r[1], r[2], r[3]];
  }

  lemma FourCode(a: int, b: int, c: int, d: int, code: int)
    requires 0xF0 <= a <= 0xF4 && 0x80 <= b <= 0xBF && 0x80 <= c <= 0xBF && 0x80 <= d <= 0xBF
    requires (a == 0xF0 ==> b >= 0x90) && (a == 0xF4 ==> b <= 0x8F)
    requires code == (a - 0xF0) * 262144 + (b - 0x80) * 4096 + (c - 0x80) * 64 + (d - 0x80)
    ensures 0x10000 <= code < 0x110000
  {
  }

  lemma ThreeParts(x: nat, y: nat, z: nat)
    requires y < 64 && z < 64
    ensures var c := x * 4096 + y * 64 + z; c / 4096 == x && c / 64 % 64 == y && c % 64 == z
  {
    var c := x * 4096 + y * 64 + z;
    assert c / 64 == x * 64 + y;
  }

  lemma FourParts(w: nat, x: nat, y: nat, z: nat)
    requires x < 64 && y < 64 && z < 64
    ensures var c := w * 262144 + x * 4096 + y * 64 + z;
      c / 262144 == w && c / 4096 % 64 == x && c / 64 % 64 == y && c % 64 == z
  {
    var c := w * 262144 + x * 4096 + y * 64 + z;
    assert c / 64 == w * 4096 + x * 64 + y;
    assert c / 4096 == w * 64 + x;
  }

  // ---- Sequences are code points ----

  /** A code point that is not a surrogate. */
  predicate Scalar(c: nat) {
    c < 0x110000 && !(0xD800 <= c < 0xE000)
  }

  /** What is recognised as one code point is the encoding of one: no overlong form, no surrogate, none left out. */
  lemma ScalarIsRune(c: nat)
    ensures EncodeCodePoint(c).Some? <==> Scalar(c)
    ensures Scalar(c) ==>
              var r := EncodeCodePoint(c).value;
              r != [] && RuneSize(r) == |r| && CodePoint(r) == c
  {
    if c < 0x80 {
    } else if c < 0x800 {
      assert c / 64 * 64 + c % 64 == c;
    } else if c < 0x10000 {
      ThreeRanges(c);
    } else if c < 0x110000 {
      FourRanges(c);
    }
  }

  lemma ThreeRanges(c: nat)
    requires 0x800 <= c < 0x10000
    ensures var x, y, z := c / 4096, c / 64 % 64, c % 64;
      && x * 4096 + y * 64 + z == c && x < 16
      && (x == 0 ==> y >= 0x20) && (x == 13 && c < 0xD800 ==> y < 0x20)
  {
    assert c / 64 / 64 == c / 4096;
    assert c / 64 * 64 + c % 64 == c;
  }

  lemma FourRanges(c: nat)
    requires 0x10000 <= c < 0x110000
    ensures var w, x, y, z := c / 262144, c / 4096 % 64, c / 64 % 64, c % 64;
      && w * 262144 + x * 4096 + y * 64 + z == c && w <= 4
      && (w == 0 ==> x >= 0x10) && (w == 4 ==> x < 0x10)
  {
    assert c / 64 / 64 == c / 4096;
    assert c / 4096 / 64 == c / 262144;
    assert c / 64 * 64 + c % 64 == c;
  }

  lemma RuneIsScalar(r: Bytes)
    requires r != [] && RuneSize(r) == |r|
    ensures Scalar(CodePoint(r)) && EncodeCodePoint(CodePoint(r)) == Some(r)
  {
    CodePointRoundTrip(r);
    ScalarIsRune(CodePoint(r));
  }

  /** A string starts with a code point exactly when it starts with the encoding of one, and that is its size. */
  lemma StartsWithRune(s: Bytes, c: nat)
    requires s != [] && Scalar(c)
    ensures EncodeCodePoint(c).Some?
    ensures RuneSize(s) > 0 && CodePoint(s[..RuneSize(s)]) == c <==> EncodeCodePoint(c).value <= s
    ensures EncodeCodePoint(c).value <= s ==> RuneSize(s) == |EncodeCodePoint(c).value|
  {
    hide EncodeCodePoint;
    hide CodePoint;
    ScalarIsRune(c);
    var r := EncodeCodePoint(c).value;
    if r <= s {
      RuneSizePrefix(r, s[|r|..]);
      assert s == r + s[|r|..];
    }
    if RuneSize(s) > 0 && CodePoint(s[..RuneSize(s)]) == c {
      RunePrefix(s);
      RuneIsScalar(s[..RuneSize(s)]);
    }
  }

  // ---- Classes ----

  /** unicode.IsSpace, of code points. */
  predicate IsWhite(c: nat) {
    || 9 <= c <= 13 || c == 0x20 || c == 0x85 || c == 0xA0 || c == 0x1680 || 0x2000 <= c <= 0x200A
    || c == 0x2028 || c == 0x2029 || c == 0x202F || c == 0x205F || c == 0x3000
  }

  ghost predicate AllWhite(cs: seq<nat>) {
    forall i | 0 <= i < |cs| :: IsWhite(cs[i])
  }

  /** The encodings of these code points, without surrogates. */
  function Encoded(cs: seq<nat>): Bytes {
    if cs == [] then []
    else (if EncodeCodePoint(cs[0]).Some? then EncodeCodePoint(cs[0]).value else []) + Encoded(cs[1..])
  }

  /** White space is white space by code points. */
  lemma SpaceIs(r: Bytes)
    requires r != [] && RuneSize(r) == |r|
    ensures Space(r) <==> IsWhite(CodePoint(r))
  {
    if |r| == 3 {
      var a: int, b: int, d: int := r[0], r[1], r[2];
      assert CodePoint(r) == (a - 0xE0) * 4096 + (b - 0x80) * 64 + (d - 0x80);
      assert r == [r[0], r[1], r[2]];
    } else if |r| == 4 {
      var a: int, b: int, d: int, e: int := r[0], r[1], r[2], r[3];
      FourCode(a, b, d, e, CodePoint(r));
    } else if |r| == 2 {
      assert r == [r[0], r[1]];
    }
  }

  lemma WhiteIsSpace(r: Bytes)
    requires r != [] && RuneSize(r) == |r|
    ensures Space(r) <==> IsWhite(CodePoint(r))
    ensures EncodeCodePoint(CodePoint(r)) == Some(r)
  {
    SpaceIs(r);
    RuneIsScalar(r);
  }

  lemma WhiteIsRune(c: nat, t: Bytes)
    requires IsWhite(c)
    ensures EncodeCodePoint(c).Some?
    ensures var r := EncodeCodePoint(c).value;
      && r != [] && Space(r) && RuneSize(r + t) == |r| && (r + t)[..|r|] == r && (r + t)[|r|..] == t
  {
    hide EncodeCodePoint;
    hide CodePoint;
    hide Space;
    ScalarIsRune(c);
    SpaceIs(EncodeCodePoint(c).value);
    RuneSizePrefix(EncodeCodePoint(c).value, t);
  }
}
