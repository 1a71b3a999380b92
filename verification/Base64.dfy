/** Unpadded base64url (section 5 of RFC 4648) as Go's lenient decoder reads it. */
module Base64 {
  import opened Common
  import opened Text

  type sextet = v: int | 0 <= v < 64

  function Letter(v: sextet): byte {
    if v < 26 then 65 + v
    else if v < 52 then 71 + v
    else if v < 62 then v - 4
    else if v == 62 then 45
    else 95
  }

  function LetterValue(b: byte): Option<sextet> {
    if 65 <= b <= 90 then Some(b - 65)
    else if 97 <= b <= 122 then Some(b - 71)
    else if 48 <= b <= 57 then Some(b + 4)
    else if b == 45 then Some(62)
    else if b == 95 then Some(63)
    else None
  }

  // Three bytes as four sextets, and back.
  function First(x: byte): sextet { x / 4 }
  function Second(x: byte, y: byte): sextet { x % 4 * 16 + y / 16 }
  function Third(y: byte, z: byte): sextet { y % 16 * 4 + z / 64 }
  function Fourth(z: byte): sextet { z % 64 }
  function Byte0(a: sextet, b: sextet): byte { a * 4 + b / 16 }
  function Byte1(b: sextet, c: sextet): byte { b % 16 * 16 + c / 4 }
  function Byte2(c: sextet, d: sextet): byte { c % 4 * 64 + d }

  lemma Group(x: byte, y: byte, z: byte)
    ensures Byte0(First(x), Second(x, y)) == x
    ensures Byte1(Second(x, y), Third(y, z)) == y
    ensures Byte2(Third(y, z), Fourth(z)) == z
  {
    assert Second(x, y) / 16 == x % 4 && Second(x, y) % 16 == y / 16;
    assert Third(y, z) / 4 == y % 16 && Third(y, z) % 4 == z / 64;
  }

  lemma Ungroup(a: sextet, b: sextet, c: sextet, d: sextet)
    ensures First(Byte0(a, b)) == a
    ensures Second(Byte0(a, b), Byte1(b, c)) == b
    ensures Third(Byte1(b, c), Byte2(c, d)) == c
    ensures Fourth(Byte2(c, d)) == d
    ensures Second(Byte0(a, b), 0) == b <==> b % 16 == 0
    ensures Third(Byte1(b, c), 0) == c <==> c % 4 == 0
  {
    assert Byte0(a, b) % 4 == b / 16;
    assert Byte1(b, c) / 16 == b % 16 && Byte1(b, c) % 16 == c / 4;
    assert Byte2(c, d) / 64 == c % 4;
  }

  /** RawURLEncoding.EncodeToString. */
  function Encode(s: Bytes): (t: Bytes)
    ensures forall i | 0 <= i < |t| :: LetterValue(t[i]).Some?
  {
    if s == [] then []
    else if |s| == 1 then [Letter(First(s[0])), Letter(Second(s[0], 0))]
    else if |s| == 2 then [Letter(First(s[0])), Letter(Second(s[0], s[1])), Letter(Third(s[1], 0))]
    else EncodeGroup(s[0], s[1], s[2]) + Encode(s[3..])
  }

  function EncodeGroup(x: byte, y: byte, z: byte): Bytes {
    [Letter(First(x)), Letter(Second(x, y)), Letter(Third(y, z)), Letter(Fourth(z))]
  }

  predicate LineBreak(b: byte) { b == 10 || b == 13 }

  /** The decoder skips line breaks wherever they stand. */
  function Strip(t: Bytes): (u: Bytes)
    ensures forall i | 0 <= i < |u| :: !LineBreak(u[i])
    ensures |u| <= |t|
  {
    if t == [] then []
    else if LineBreak(t[0]) then Strip(t[1..])
    else [t[0]] + Strip(t[1..])
  }

  /** Line breaks are a line feed and a carriage return. */
  lemma LineBreakIs(b: byte)
    ensures LineBreak(b) <==> b as char == '\n' || b as char == '\r'
  {
  }

  /** The 64 letters of the alphabet, in the order of their values. */
  lemma LetterIs(v: sextet)
    ensures Letter(v) as char == if v < 26 then 'A' + v as char
                                 else if v < 52 then 'a' + (v - 26) as char
                                 else if v < 62 then '0' + (v - 52) as char
                                 else if v == 62 then '-' else '_'
  {
  }

  predicate Letters(t: Bytes) {
    forall i | 0 <= i < |t| :: LetterValue(t[i]).Some?
  }

  function ValueAt(t: Bytes, i: nat): sextet
    requires Letters(t) && i < |t|
  {
    LetterValue(t[i]).value
  }

  /** Letters, four at a time; the bits a final group has to spare are not looked at. */
  function Ungrouped(t: Bytes): Bytes
    requires Letters(t)
  {
    if |t| <= 1 then []
    else if |t| == 2 then [Byte0(ValueAt(t, 0), ValueAt(t, 1))]
    else if |t| == 3 then [Byte0(ValueAt(t, 0), ValueAt(t, 1)), Byte1(ValueAt(t, 1), ValueAt(t, 2))]
    else DecodeGroup(ValueAt(t, 0), ValueAt(t, 1), ValueAt(t, 2), ValueAt(t, 3)) + Ungrouped(t[4..])
  }

  function DecodeGroup(a: sextet, b: sextet, c: sextet, d: sextet): Bytes {
    [Byte0(a, b), Byte1(b, c), Byte2(c, d)]
  }

  /** Fails on anything but a letter, and on a single letter left over. */
  function DecodeLetters(t: Bytes): Option<Bytes>
  {
    if Letters(t) && |t| % 4 != 1 then Some(Ungrouped(t)) else None
  }

  /** RawURLEncoding.DecodeString. */
  function Decode(t: Bytes): Option<Bytes> {
    DecodeLetters(Strip(t))
  }

  lemma LetterRoundTrip(v: sextet)
    ensures LetterValue(Letter(v)) == Some(v)
  {
  }

  lemma StripLetters(t: Bytes)
    requires forall i | 0 <= i < |t| :: LetterValue(t[i]).Some?
    ensures Strip(t) == t
  {
    if t != [] {
      StripLetters(t[1..]);
    }
  }

  lemma {:induction false} UngroupedEncode(s: Bytes)
    ensures Ungrouped(Encode(s)) == s
  {
    hide Letter;
    hide LetterValue;
    hide First;
    hide Second;
    hide Third;
    hide Fourth;
    hide Byte0;
    hide Byte1;
    hide Byte2;
    if s != [] {
      var x, y, z := s[0], if |s| > 1 then s[1] else 0, if |s| > 2 then s[2] else 0;
      Group(x, y, z);
      LetterRoundTrip(First(x));
      LetterRoundTrip(Second(x, y));
      LetterRoundTrip(Third(y, z));
      LetterRoundTrip(Fourth(z));
      if |s| > 2 {
        UngroupedEncode(s[3..]);
        assert Encode(s)[4..] == Encode(s[3..]);
        assert s == [x, y, z] + s[3..];
      }
    }
  }

  lemma {:induction false} EncodedLength(s: Bytes)
    ensures |Encode(s)| == (4 * |s| + 2) / 3
    ensures |Encode(s)| % 4 != 1
  {
    hide Letter;
    hide LetterValue;
    if |s| >= 3 {
      EncodedLength(s[3..]);
    }
  }

  lemma {:induction false} UngroupedLength(t: Bytes)
    requires Letters(t) && |t| % 4 != 1
    ensures |Ungrouped(t)| == |t| * 3 / 4
  {
    hide LetterValue;
    if |t| >= 4 {
      UngroupedLength(t[4..]);
    }
  }

  lemma DecodeEncode(s: Bytes)
    ensures Decode(Encode(s)) == Some(s)
  {
    hide Encode;
    hide Ungrouped;
    StripLetters(Encode(s));
    EncodedLength(s);
    UngroupedEncode(s);
  }

  /** The spare bits of the final group are zero. */
  predicate NoSpareBits(t: Bytes)
    requires Letters(t)
  {
    && (|t| % 4 == 2 ==> ValueAt(t, |t| - 1) % 16 == 0)
    && (|t| % 4 == 3 ==> ValueAt(t, |t| - 1) % 4 == 0)
  }

  lemma ValueRoundTrip(b: byte)
    requires LetterValue(b).Some?
    ensures Letter(LetterValue(b).value) == b
  {
  }

  lemma NothingEncodes()
    ensures Ungrouped([]) == [] && Encode([]) == []
  {
  }

  /** Letters are the encoding of what they decode to exactly when they have no spare bits. */
  lemma {:induction false} EncodeUngrouped(t: Bytes)
    requires Letters(t) && |t| % 4 != 1
    ensures Encode(Ungrouped(t)) == t <==> NoSpareBits(t)
    decreases |t|
  {
    hide LetterValue;
    hide Encode;
    hide Ungrouped;
    if |t| >= 4 {
      FullGroup(t);
      EncodeUngrouped(t[4..]);
      assert t == t[..4] + t[4..];
    } else if t == [] {
      NothingEncodes();
    } else {
      LastGroup(t);
    }
  }

  lemma EncodeCons(x: byte, y: byte, z: byte, rest: Bytes)
    ensures Encode([x, y, z] + rest) == EncodeGroup(x, y, z) + Encode(rest)
  {
    hide EncodeGroup;
    assert ([x, y, z] + rest)[3..] == rest;
  }

  lemma RegroupLetters(t: Bytes)
    requires Letters(t) && |t| == 4
    ensures var a, b, c, d := ValueAt(t, 0), ValueAt(t, 1), ValueAt(t, 2), ValueAt(t, 3);
      EncodeGroup(Byte0(a, b), Byte1(b, c), Byte2(c, d)) == t
  {
    hide Letter;
    hide LetterValue;
    hide First;
    hide Second;
    hide Third;
    hide Fourth;
    hide Byte0;
    hide Byte1;
    hide Byte2;
    forall i | 0 <= i < 4 ensures Letter(ValueAt(t, i)) == t[i] {
      ValueRoundTrip(t[i]);
    }
    Ungroup(ValueAt(t, 0), ValueAt(t, 1), ValueAt(t, 2), ValueAt(t, 3));
  }

  lemma FullGroup(t: Bytes)
    requires Letters(t) && |t| >= 4
    ensures Encode(Ungrouped(t)) == t[..4] + Encode(Ungrouped(t[4..]))
  {
    hide Encode;
    hide EncodeGroup;
    hide LetterValue;
    var a, b, c, d := ValueAt(t, 0), ValueAt(t, 1), ValueAt(t, 2), ValueAt(t, 3);
    RegroupLetters(t[..4]);
    EncodeCons(Byte0(a, b), Byte1(b, c), Byte2(c, d), Ungrouped(t[4..]));
  }

  lemma LastGroup(t: Bytes)
    requires Letters(t) && 2 <= |t| <= 3
    ensures Encode(Ungrouped(t)) == t <==> NoSpareBits(t)
  {
    hide Letter;
    hide LetterValue;
    hide First;
    hide Second;
    hide Third;
    hide Fourth;
    hide Byte0;
    hide Byte1;
    hide Byte2;
    forall i | 0 <= i < |t| ensures Letter(ValueAt(t, i)) == t[i] {
      ValueRoundTrip(t[i]);
    }
    var a, b, c := ValueAt(t, 0), ValueAt(t, 1), if |t| > 2 then ValueAt(t, 2) else 0;
    Ungroup(a, b, c, 0);
    SameLetter(Second(Byte0(a, b), 0), b);
    SameLetter(Third(Byte1(b, c), 0), c);
  }

  lemma SameLetter(u: sextet, v: sextet)
    ensures Letter(u) == Letter(v) <==> u == v
  {
    LetterRoundTrip(u);
    LetterRoundTrip(v);
  }
}
