/** Page cursors: where a page ended, bound to the request by a fingerprint. */
module Cursor {
  import opened Common
  import opened Text
  import opened Json
  import opened Delimited
  import Timestamp
  import Base64
  import Order

  const DIGEST_SIZE := 32
  const MAX_CURSOR := 8192
  const MAX_PAYLOAD := 4096

  datatype CursorRequest = CursorRequest(
    operation: Bytes,
    sourceID: Bytes,
    schema: Bytes,
    table: Bytes,
    limit: nat,
    search: Bytes,
    includeDescriptions: bool)

  datatype Payload = Payload(version: int, fingerprint: Bytes, lastName: Bytes, lastOrdinal: int)

  const CURSOR_VERSION := 1

  // ---- Fingerprints ----

  /** json.Marshal of the request. */
  function MarshalRequest(r: CursorRequest): Bytes {
    Ascii("{\"operation\":") + (Quote(r.operation) + (Ascii(",\"source_id\":") + (Quote(r.sourceID)
      + (Ascii(",\"schema\":") + (Quote(r.schema) + (Ascii(",\"table\":") + (Quote(r.table)
      + (Ascii(",\"limit\":") + (Decimal(r.limit) + (Ascii(",\"search\":") + (Quote(r.search)
      + (Ascii(",\"include_descriptions\":") + Flag(r.includeDescriptions)))))))))))))
  }

  function Flag(b: bool): (f: Bytes)
    ensures f != [] && f[0] == if b then 116 else 102
  {
    Ascii(if b then "true}" else "false}")
  }

  predicate ValidRequest(r: CursorRequest) {
    ValidUtf8(r.operation) && ValidUtf8(r.sourceID) && ValidUtf8(r.schema) && ValidUtf8(r.table) && ValidUtf8(r.search)
  }

  /** Requests of valid strings are told apart by their encodings. */
  lemma MarshalRequestInjective(a: CursorRequest, b: CursorRequest)
    requires ValidRequest(a) && ValidRequest(b) && MarshalRequest(a) == MarshalRequest(b)
    ensures a == b
  {
    hide Quote;
    hide Ascii;
    hide Decimal;
    hide ValidUtf8;
    hide Flag;
    var (s6, t6) := (Ascii(",\"include_descriptions\":") + Flag(a.includeDescriptions),
                     Ascii(",\"include_descriptions\":") + Flag(b.includeDescriptions));
    var (s5, t5) := (Ascii(",\"search\":") + (Quote(a.search) + s6), Ascii(",\"search\":") + (Quote(b.search) + t6));
    var (s4, t4) := (Ascii(",\"limit\":") + (Decimal(a.limit) + s5), Ascii(",\"limit\":") + (Decimal(b.limit) + t5));
    var (s3, t3) := (Ascii(",\"table\":") + (Quote(a.table) + s4), Ascii(",\"table\":") + (Quote(b.table) + t4));
    var (s2, t2) := (Ascii(",\"schema\":") + (Quote(a.schema) + s3), Ascii(",\"schema\":") + (Quote(b.schema) + t3));
    var (s1, t1) := (Ascii(",\"source_id\":") + (Quote(a.sourceID) + s2),
                     Ascii(",\"source_id\":") + (Quote(b.sourceID) + t2));
    LiteralPeel(Ascii("{\"operation\":"), Quote(a.operation) + s1, Quote(b.operation) + t1);
    QuotePeel(a.operation, s1, b.operation, t1);
    LiteralPeel(Ascii(",\"source_id\":"), Quote(a.sourceID) + s2, Quote(b.sourceID) + t2);
    QuotePeel(a.sourceID, s2, b.sourceID, t2);
    LiteralPeel(Ascii(",\"schema\":"), Quote(a.schema) + s3, Quote(b.schema) + t3);
    QuotePeel(a.schema, s3, b.schema, t3);
    LiteralPeel(Ascii(",\"table\":"), Quote(a.table) + s4, Quote(b.table) + t4);
    QuotePeel(a.table, s4, b.table, t4);
    LiteralPeel(Ascii(",\"limit\":"), Decimal(a.limit) + s5, Decimal(b.limit) + t5);
    CommaFollows(",\"search\":", Quote(a.search) + s6);
    CommaFollows(",\"search\":", Quote(b.search) + t6);
    DecimalPeel(a.limit, s5, b.limit, t5);
    LiteralPeel(Ascii(",\"search\":"), Quote(a.search) + s6, Quote(b.search) + t6);
    QuotePeel(a.search, s6, b.search, t6);
    LiteralPeel(Ascii(",\"include_descriptions\":"), Flag(a.includeDescriptions), Flag(b.includeDescriptions));
  }

  lemma CommaFollows(literal: string, rest: Bytes)
    requires literal != [] && literal[0] == ','
    ensures var s := Ascii(literal) + rest; s != [] && !Timestamp.IsDigit(s[0])
  {
  }

  /** SHA-256, as a function. */
  type Digest = Bytes -> Bytes

  ghost predicate DigestSized(digest: Digest) {
    forall data :: |digest(data)| == DIGEST_SIZE
  }

  function Hex(d: Bytes): (h: Bytes)
    ensures |h| == 2 * |d|
    ensures forall i | 0 <= i < |h| :: IsHexDigit(h[i])
  {
    if d == [] then [] else [HexDigit(d[0] / 16), HexDigit(d[0] % 16)] + Hex(d[1..])
  }

  predicate IsHexDigit(b: byte) { 48 <= b <= 57 || 65 <= b <= 70 || 97 <= b <= 102 }

  lemma {:induction false} HexInjective(d: Bytes, e: Bytes)
    requires Hex(d) == Hex(e)
    ensures d == e
  {
    if d != [] && e != [] {
      assert Hex(d)[2..] == Hex(d[1..]) && Hex(e)[2..] == Hex(e[1..]);
      assert Hex(d)[0] == HexDigit(d[0] / 16) && Hex(d)[1] == HexDigit(d[0] % 16);
      assert Hex(e)[0] == HexDigit(e[0] / 16) && Hex(e)[1] == HexDigit(e[0] % 16);
      assert d[0] == d[0] / 16 * 16 + d[0] % 16 && e[0] == e[0] / 16 * 16 + e[0] % 16;
      HexInjective(d[1..], e[1..]);
    }
  }

  function Fingerprint(digest: Digest, r: CursorRequest): Bytes {
    Hex(digest(MarshalRequest(r)))
  }

  /** Without a collision, requests with one fingerprint are the same request. */
  lemma FingerprintBinds(digest: Digest, a: CursorRequest, b: CursorRequest)
    requires ValidRequest(a) && ValidRequest(b) && Fingerprint(digest, a) == Fingerprint(digest, b)
    requires digest(MarshalRequest(a)) == digest(MarshalRequest(b)) ==> MarshalRequest(a) == MarshalRequest(b)
    ensures a == b
  {
    hide MarshalRequest;
    HexInjective(digest(MarshalRequest(a)), digest(MarshalRequest(b)));
    MarshalRequestInjective(a, b);
  }

  // ---- Payloads ----

  /** json.Marshal of the payload: empty positions are omitted. */
  function MarshalPayload(p: Payload): Bytes {
    Ascii("{\"version\":") + (FormatInt(p.version)
      + (Ascii(",\"fingerprint\":") + (Quote(p.fingerprint) + Position(p))))
  }

  function Position(p: Payload): Bytes {
    if p.lastName != [] then
      Ascii(",\"last_name\":") + (Quote(p.lastName)
        + ((if p.lastOrdinal != 0 then Ascii(",\"last_ordinal\":") + FormatInt(p.lastOrdinal) else []) + Ascii("}")))
    else if p.lastOrdinal != 0 then Ascii(",\"last_ordinal\":") + (FormatInt(p.lastOrdinal) + Ascii("}"))
    else Ascii("}")
  }

  /** What encodeCursor writes: a name or a positive ordinal, not both. */
  predicate Written(p: Payload) {
    && p.version == CURSOR_VERSION
    && |p.fingerprint| == 2 * DIGEST_SIZE && (forall i | 0 <= i < |p.fingerprint| :: IsHexDigit(p.fingerprint[i]))
    && if p.lastName != [] then p.lastOrdinal == 0 else p.lastOrdinal > 0
  }

  /** As it is read back: bytes of a name that are not UTF-8 were replaced when it was written. */
  function AsRead(p: Payload): Payload {
    p.(lastName := Sanitised(p.lastName))
  }

  /** The JSON reader, which may accept more than encodeCursor writes, but reads that as it is. */
  type Reader = Bytes -> Option<Payload>

  ghost predicate ReadsBack(read: Reader) {
    forall p | Written(p) :: read(MarshalPayload(p)) == Some(AsRead(p))
  }

  /** The reader of texts in the form in which they are written. */
  function ReadPayload(data: Bytes): Option<Payload> {
    match Skip(Ascii("{\"version\":"), data)
    case None => None
    case Some(s1) =>
      match ReadNumber(s1)
      case None => None
      case Some((version, s2)) =>
        match Skip(Ascii(",\"fingerprint\":"), s2)
        case None => None
        case Some(s3) =>
          match ReadString(s3)
          case None => None
          case Some((fingerprint, s4)) =>
            match ReadPosition(s4)
            case None => None
            case Some((name, ordinal)) => Some(Payload(version, fingerprint, name, ordinal))
  }

  function ReadPosition(s: Bytes): Option<(Bytes, nat)> {
    match Skip(Ascii(",\"last_name\":"), s)
    case Some(s1) =>
      (match ReadString(s1)
       case None => None
       case Some((name, s2)) => if s2 == Ascii("}") then Some((name, 0)) else None)
    case None =>
      match Skip(Ascii(",\"last_ordinal\":"), s)
      case None => None
      case Some(s1) =>
        match ReadNumber(s1)
        case None => None
        case Some((ordinal, s2)) => if s2 == Ascii("}") then Some(([], ordinal)) else None
  }

  lemma PositionReadBack(p: Payload)
    requires Written(p)
    ensures ReadPosition(Position(p)) == Some((Sanitised(p.lastName), p.lastOrdinal))
  {
    hide Quote;
    hide Decimal;
    hide Sanitised;
    hide ReadString;
    hide ReadNumber;
    var end := Ascii("}");
    assert Sanitised([]) == [] by { SanitisedGrows([]); }
    if p.lastName != [] {
      var rest := Quote(p.lastName) + end;
      assert Position(p) == Ascii(",\"last_name\":") + rest by { assert [] + end == end; }
      SkipLiteral(Ascii(",\"last_name\":"), rest);
      ReadQuoted(p.lastName, end);
    } else {
      var rest := Decimal(p.lastOrdinal) + end;
      assert Position(p) == Ascii(",\"last_ordinal\":") + rest;
      NotAName(rest);
      SkipLiteral(Ascii(",\"last_ordinal\":"), rest);
      BraceFollows();
      ReadDecimal(p.lastOrdinal, end);
    }
  }

  lemma BraceFollows()
    ensures Ascii("}") != [] && !Timestamp.IsDigit(Ascii("}")[0])
  {
  }

  /** A name and an ordinal are told apart by the eighth byte. */
  lemma NotAName(rest: Bytes)
    ensures Skip(Ascii(",\"last_name\":"), Ascii(",\"last_ordinal\":") + rest).None?
  {
    var name, ordinal := Ascii(",\"last_name\":"), Ascii(",\"last_ordinal\":");
    assert name[7] == 110 && ordinal[7] == 111;
    assert (ordinal + rest)[..|name|][7] == ordinal[7];
  }

  /** There are readers with the property the others assume. */
  lemma WrittenIsReadBack()
    ensures ReadsBack(ReadPayload)
  {
    hide MarshalPayload;
    hide ReadPayload;
    hide Written;
    forall p | Written(p) ensures ReadPayload(MarshalPayload(p)) == Some(AsRead(p)) {
      PayloadReadBack(p);
    }
  }

  lemma PayloadReadBack(p: Payload)
    requires Written(p)
    ensures ReadPayload(MarshalPayload(p)) == Some(AsRead(p))
  {
    hide Quote;
    hide Ascii;
    hide Decimal;
    hide Position;
    hide ReadPosition;
    hide ReadString;
    hide ReadNumber;
    hide Skip;
    var s4 := Position(p);
    var s3 := Quote(p.fingerprint) + s4;
    var s2 := Ascii(",\"fingerprint\":") + s3;
    var s1 := Decimal(p.version) + s2;
    SkipLiteral(Ascii("{\"version\":"), s1);
    CommaFollows(",\"fingerprint\":", s3);
    ReadDecimal(p.version, s2);
    SkipLiteral(Ascii(",\"fingerprint\":"), s3);
    ReadQuoted(p.fingerprint, s4);
    PlainIsValid(p.fingerprint);
    SanitisedIsValid(p.fingerprint);
    PositionReadBack(p);
  }

  // ---- Cursors ----

  function PayloadFor(digest: Digest, r: CursorRequest, lastName: Bytes, lastOrdinal: int): Payload {
    Payload(CURSOR_VERSION, Fingerprint(digest, r), lastName, lastOrdinal)
  }

  function EncodeCursor(digest: Digest, r: CursorRequest, lastName: Bytes, lastOrdinal: int): Bytes {
    Base64.Encode(MarshalPayload(PayloadFor(digest, r, lastName, lastOrdinal)))
  }

  /** The shape a cursor of this kind must have. */
  predicate Shaped(p: Payload, ordinal: bool) {
    if ordinal then p.lastOrdinal > 0 && p.lastName == [] else p.lastName != [] && p.lastOrdinal == 0
  }

  /** A cursor is accepted exactly when its bytes are read as a payload of this version, request and kind. */
  lemma AcceptedIs(digest: Digest, read: Reader, value: Bytes, r: CursorRequest, ordinal: bool, p: Payload)
    requires value != [] && DigestSized(digest)
    ensures DecodeCursor(digest, read, value, r, ordinal) == Some(p) <==>
              && |value| <= MAX_CURSOR && Base64.Decode(value).Some? && |Base64.Decode(value).value| <= MAX_PAYLOAD
              && read(Base64.Decode(value).value) == Some(p)
              && p.version == 1 && p.fingerprint == Fingerprint(digest, r)
              && (if ordinal then p.lastName == [] && p.lastOrdinal >= 1 else p.lastName != [] && p.lastOrdinal == 0)
  {
    hide MarshalRequest;
    hide Base64.Decode;
    FingerprintSize(digest, r);
  }

  const START := Payload(0, [], [], 0)

  /** None is ErrInvalidCursor; no cursor is the start. */
  function DecodeCursor(digest: Digest, read: Reader, value: Bytes, r: CursorRequest,
                        ordinal: bool): (p: Option<Payload>)
    ensures p.Some? && value != [] ==> Shaped(p.value, ordinal) && p.value.fingerprint == Fingerprint(digest, r)
  {
    if value == [] then Some(START)
    else if |value| > MAX_CURSOR then None
    else
      match Base64.Decode(value)
      case None => None
      case Some(decoded) =>
        if |decoded| > MAX_PAYLOAD then None
        else
          match read(decoded)
          case None => None
          case Some(p) =>
            if p.version != CURSOR_VERSION || |p.fingerprint| != 2 * DIGEST_SIZE
               || (exists i | 0 <= i < |p.fingerprint| :: !IsHexDigit(p.fingerprint[i])) then None
            else if !Shaped(p, ordinal) then None
            else if p.fingerprint != Fingerprint(digest, r) then None
            else Some(p)
  }

  lemma PayloadIsWritten(digest: Digest, r: CursorRequest, lastName: Bytes, lastOrdinal: int)
    requires DigestSized(digest)
    requires if lastName != [] then lastOrdinal == 0 else lastOrdinal > 0
    ensures Written(PayloadFor(digest, r, lastName, lastOrdinal))
  {
    hide MarshalRequest;
    var d := digest(MarshalRequest(r));
    assert |d| == DIGEST_SIZE;
  }

  /** A cursor is read back for its own request exactly when its payload is within the limit of the reader. */
  lemma CursorRoundTrip(digest: Digest, read: Reader, r: CursorRequest, lastName: Bytes, lastOrdinal: int)
    requires DigestSized(digest) && ReadsBack(read)
    requires if lastName != [] then lastOrdinal == 0 else lastOrdinal > 0
    ensures var p := PayloadFor(digest, r, lastName, lastOrdinal);
      DecodeCursor(digest, read, EncodeCursor(digest, r, lastName, lastOrdinal), r, lastName == [])
        == if |MarshalPayload(p)| <= MAX_PAYLOAD then Some(AsRead(p)) else None
  {
    hide MarshalPayload;
    hide Fingerprint;
    hide Base64.Encode;
    hide Base64.Decode;
    var p := PayloadFor(digest, r, lastName, lastOrdinal);
    var data := MarshalPayload(p);
    PayloadIsWritten(digest, r, lastName, lastOrdinal);
    Base64.DecodeEncode(data);
    Base64.EncodedLength(data);
    NameSurvives(lastName);
    assert read(data) == Some(AsRead(p));
    PayloadIsLong(p);
  }

  lemma PayloadIsLong(p: Payload)
    ensures MarshalPayload(p) != []
  {
  }

  lemma NameSurvives(name: Bytes)
    ensures Sanitised(name) == [] <==> name == []
    ensures Sanitised(name) == name <==> ValidUtf8(name)
  {
    SanitisedIsValid(name);
    SanitisedGrows(name);
  }

  /** Four thousand letters: the cursor is emitted, and refused when it comes back. */
  lemma LongNameIsRefused(digest: Digest, read: Reader, r: CursorRequest)
    requires DigestSized(digest) && ReadsBack(read)
    ensures var name := seq(4000, _ => 97);
      DecodeCursor(digest, read, EncodeCursor(digest, r, name, 0), r, false).None?
  {
    hide DecodeCursor;
    hide EncodeCursor;
    hide MarshalPayload;
    var name: Bytes := seq(4000, _ => 97);
    assert Plain(name);
    PlainEscape(name);
    NamePayloadSize(digest, r, name);
    CursorRoundTrip(digest, read, r, name, 0);
  }

  /**
   The byte FF: its cursor comes back as the position after U+FFFD, which is before that name, so the next
   page begins with it again.
   */
  lemma InvalidNameComesAgain(digest: Digest, read: Reader, r: CursorRequest)
    requires DigestSized(digest) && ReadsBack(read)
    ensures var p := DecodeCursor(digest, read, EncodeCursor(digest, r, [0xFF], 0), r, false);
      p.Some? && p.value.lastName == REPLACEMENT && Order.Less(REPLACEMENT, [0xFF])
  {
    hide DecodeCursor;
    hide EncodeCursor;
    hide MarshalPayload;
    assert [0xFF][1..] == [] && Sanitised([0xFF]) == REPLACEMENT + Sanitised([]);
    EscapeAtMost([0xFF]);
    NamePayloadSize(digest, r, [0xFF]);
    CursorRoundTrip(digest, read, r, [0xFF], 0);
  }

  /** What a payload with a name takes beside the name. */
  const NAME_FRAME := 109

  /** The size of a payload with a name: the rest of it has a fixed length. */
  lemma NamePayloadSize(digest: Digest, r: CursorRequest, name: Bytes)
    requires DigestSized(digest) && name != []
    ensures |MarshalPayload(PayloadFor(digest, r, name, 0))| == NAME_FRAME + |Escape(name)|
  {
    hide Ascii;
    hide Escape;
    hide Fingerprint;
    FingerprintSize(digest, r);
    HexIsPlain(Fingerprint(digest, r));
    PlainEscape(Fingerprint(digest, r));
  }

  lemma HexIsPlain(h: Bytes)
    requires forall i | 0 <= i < |h| :: IsHexDigit(h[i])
    ensures Plain(h)
  {
  }

  /** Any positive machine integer makes a cursor that can be read. */
  lemma OrdinalsFit(digest: Digest, r: CursorRequest, lastOrdinal: int)
    requires DigestSized(digest) && 0 <= lastOrdinal < 0x8000_0000_0000_0000
    ensures |MarshalPayload(PayloadFor(digest, r, [], lastOrdinal))| <= MAX_PAYLOAD
  {
    hide Ascii;
    hide Escape;
    hide Fingerprint;
    var p := PayloadFor(digest, r, [], lastOrdinal);
    EscapeAtMost(p.fingerprint);
    FingerprintSize(digest, r);
    assert PowerOfTen(20) > 0x8000_0000_0000_0000 by {
      assert PowerOfTen(5) == 100_000;
      assert PowerOfTen(10) == 10_000_000_000;
      assert PowerOfTen(15) == 1_000_000_000_000_000;
    }
    DecimalBound(lastOrdinal, 20, PowerOfTen(20));
  }

  lemma FingerprintSize(digest: Digest, r: CursorRequest)
    requires DigestSized(digest)
    ensures |Fingerprint(digest, r)| == 64
    ensures forall i | 0 <= i < 64 :: IsHexDigit(Fingerprint(digest, r)[i])
  {
    hide MarshalRequest;
    var d := digest(MarshalRequest(r));
    assert |d| == DIGEST_SIZE;
  }

  /** Whatever the bytes, a cursor accepted for names is not accepted for ordinals, and the other way round. */
  lemma NamesAreNotOrdinals(digest: Digest, read: Reader, value: Bytes, r: CursorRequest, q: CursorRequest)
    requires value != []
    ensures DecodeCursor(digest, read, value, r, true).None? || DecodeCursor(digest, read, value, q, false).None?
  {
  }

  /** A cursor is accepted for one request only: the other, if its digest is the same, is the same request. */
  lemma CursorsBind(digest: Digest, read: Reader, value: Bytes, r: CursorRequest, q: CursorRequest, ordinal: bool)
    requires value != [] && ValidRequest(r) && ValidRequest(q)
    requires DecodeCursor(digest, read, value, r, ordinal).Some? && DecodeCursor(digest, read, value, q, ordinal).Some?
    requires digest(MarshalRequest(r)) == digest(MarshalRequest(q)) ==> MarshalRequest(r) == MarshalRequest(q)
    ensures r == q
  {
    hide Fingerprint;
    hide MarshalRequest;
    FingerprintBinds(digest, r, q);
  }
}
