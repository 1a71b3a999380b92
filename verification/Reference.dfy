/** Secret references: a scheme and a locator, `scheme://locator`. */
module Reference {
  import opened Common
  import opened Text
  import opened Unicode
  import Base64

  const SEPARATOR: Bytes := [58, 47, 47]
  const LOCAL: Bytes := [108, 111, 99, 97, 108]

  predicate StartsWith(s: Bytes, prefix: Bytes) {
    |prefix| <= |s| && s[..|prefix|] == prefix
  }

  /** strings.Cut at the first separator. */
  function Cut(raw: Bytes): Option<(Bytes, Bytes)> {
    if StartsWith(raw, SEPARATOR) then Some(([], raw[3..]))
    else if raw == [] then None
    else
      match Cut(raw[1..])
      case Some(parts) => Some(([raw[0]] + parts.0, parts.1))
      case None => None
  }

  predicate Lower(b: byte) { 97 <= b <= 122 }

  predicate Digit(b: byte) { 48 <= b <= 57 }

  predicate ValidScheme(scheme: Bytes) {
    && scheme != []
    && Lower(scheme[0])
    && forall i | 1 <= i < |scheme| :: Lower(scheme[i]) || Digit(scheme[i]) || scheme[i] == 45
  }

  /** The code points of unicode.IsControl. */
  predicate Control(r: Bytes) {
    || (|r| == 1 && (r[0] < 0x20 || r[0] == 0x7F))
    || (|r| == 2 && r[0] == 0xC2 && 0x80 <= r[1] <= 0x9F)
  }

  /** A scheme is a lower-case letter followed by lower-case letters, numerals and hyphens. */
  lemma SchemeIs(scheme: Bytes)
    ensures ValidScheme(scheme) <==>
              && |scheme| >= 1 && 'a' <= scheme[0] as char <= 'z'
              && forall i | 1 <= i < |scheme| ::
                   var c := scheme[i] as char; 'a' <= c <= 'z' || IsNumeral(c) || c == '-'
  {
  }

  /** Control characters, by code points. */
  lemma ControlIs(r: Bytes)
    requires r != [] && RuneSize(r) == |r|
    ensures Control(r) <==> CodePoint(r) < 0x20 || 0x7F <= CodePoint(r) <= 0x9F
  {
    RuneIsScalar(r);
    if |r| == 3 {
      var a: int, b: int, c: int := r[0], r[1], r[2];
      assert CodePoint(r) == (a - 0xE0) * 4096 + (b - 0x80) * 64 + (c - 0x80);
    } else if |r| == 4 {
      var a: int, b: int, c: int, d: int := r[0], r[1], r[2], r[3];
      FourCode(a, b, c, d, CodePoint(r));
    }
  }

  /** Valid UTF-8 with no space and no control character. */
  predicate Visible(s: Bytes) {
    s == [] || (RuneSize(s) > 0 && !Space(s[..RuneSize(s)]) && !Control(s[..RuneSize(s)]) && Visible(s[RuneSize(s)..]))
  }

  predicate ValidLocator(locator: Bytes) {
    locator != [] && Visible(locator)
  }

  /** Reference.Parts, which parses first. */
  function Parts(raw: Bytes): (r: Option<(Bytes, Bytes)>)
    ensures r.Some? ==> ValidScheme(r.value.0) && ValidLocator(r.value.1)
  {
    match Cut(raw)
    case Some(parts) => if ValidScheme(parts.0) && ValidLocator(parts.1) then Some(parts) else None
    case None => None
  }

  /** secret.Parse accepts the reference. */
  predicate Valid(raw: Bytes) {
    Parts(raw).Some?
  }

  function NewLocal(identifier: Bytes): Option<Bytes> {
    var raw := LOCAL + SEPARATOR + identifier;
    if 47 in identifier || !Valid(raw) then None else Some(raw)
  }

  /** The cut is at the first separator: nothing but the prefix decides. */
  lemma {:induction false} CutAfter(prefix: Bytes, rest: Bytes)
    requires 58 !in prefix
    ensures Cut(prefix + SEPARATOR + rest) == Some((prefix, rest))
  {
    var raw := prefix + SEPARATOR + rest;
    if prefix == [] {
      assert raw == SEPARATOR + rest;
      assert raw[..3] == SEPARATOR && raw[3..] == rest;
    } else {
      assert raw[0] == prefix[0] != 58;
      assert raw[..3][0] != SEPARATOR[0];
      assert raw[1..] == prefix[1..] + SEPARATOR + rest;
      CutAfter(prefix[1..], rest);
      assert [prefix[0]] + prefix[1..] == prefix;
    }
  }

  lemma {:induction false} CutJoins(raw: Bytes)
    requires Cut(raw).Some?
    ensures raw == Cut(raw).value.0 + SEPARATOR + Cut(raw).value.1
  {
    if StartsWith(raw, SEPARATOR) {
      assert raw == raw[..3] + raw[3..];
    } else {
      CutJoins(raw[1..]);
      assert raw == [raw[0]] + raw[1..];
    }
  }

  lemma {:induction false} VisibleIsText(s: Bytes)
    requires Visible(s)
    ensures ValidUtf8(s)
    decreases |s|
  {
    if s != [] {
      VisibleIsText(s[RuneSize(s)..]);
    }
  }

  /** A valid reference is valid UTF-8. */
  lemma ValidIsText(raw: Bytes)
    requires Valid(raw)
    ensures ValidUtf8(raw)
  {
    hide Cut;
    var (scheme, locator) := Parts(raw).value;
    CutJoins(raw);
    PlainIsValid(scheme + SEPARATOR);
    VisibleIsText(locator);
    ValidConcat(scheme + SEPARATOR, locator);
  }

  lemma LocalScheme()
    ensures ValidScheme(LOCAL) && 58 !in LOCAL
  {
  }

  /** A local reference exists for every visible identifier without a slash, and names it. */
  lemma LocalParts(identifier: Bytes)
    ensures NewLocal(identifier).Some? <==> ValidLocator(identifier) && 47 !in identifier
    ensures NewLocal(identifier).Some? ==> Parts(NewLocal(identifier).value) == Some((LOCAL, identifier))
  {
    hide Cut;
    LocalScheme();
    CutAfter(LOCAL, identifier);
  }

  /** What the store generates: the encoding of random bytes. */
  lemma {:induction false} LettersAreVisible(s: Bytes)
    requires forall i | 0 <= i < |s| :: Base64.LetterValue(s[i]).Some?
    ensures Visible(s) && 47 !in s
  {
    hide Base64.LetterValue;
    if s != [] {
      LetterIsVisible(s[0]);
      LettersAreVisible(s[1..]);
      assert s == [s[0]] + s[1..];
    }
  }

  lemma LetterIsVisible(b: byte)
    requires Base64.LetterValue(b).Some?
    ensures 0x20 < b < 0x7F && b != 47
  {
  }

  lemma GeneratedIsLocal(raw: Bytes)
    requires raw != []
    ensures NewLocal(Base64.Encode(raw)).Some?
    ensures Parts(NewLocal(Base64.Encode(raw)).value) == Some((LOCAL, Base64.Encode(raw)))
  {
    hide Base64.LetterValue;
    hide NewLocal;
    Base64.EncodedLength(raw);
    LettersAreVisible(Base64.Encode(raw));
    LocalParts(Base64.Encode(raw));
  }
}
