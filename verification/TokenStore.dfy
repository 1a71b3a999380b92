/** The file that keeps the verifier of the MCP access token. */
module TokenStore {
  import opened Common
  import opened Text
  import opened Timestamp
  import Base64
  import opened SecretStore

  const HASH_SIZE := 32

  function ZeroVerifier(): Bytes { seq(HASH_SIZE, _ => 0) }

  datatype PersistedState = PersistedState(verifier: Bytes, createdAt: Instant, rotatedAt: Option<Instant>)

  /** The content of the file, a JSON object. */
  datatype File = File(version: int, verifier: Bytes, createdAt: Bytes, rotatedAt: Option<Bytes>)

  const FILE_VERSION := 1

  predicate Ordered(s: PersistedState) {
    s.rotatedAt.Some? ==> !Before(s.rotatedAt.value, s.createdAt)
  }

  predicate IsZero(t: Instant) { t.civil == ZERO }

  /** A state worth writing: some verifier, times other than the first of January of the year one, in order. */
  ghost predicate IsState(s: PersistedState) {
    && (|s.verifier| == 32 ==> exists i :: 0 <= i < 32 && s.verifier[i] != 0)
    && s.createdAt.civil != Civil(1, 1, 1, 0, 0, 0, 0)
    && (s.rotatedAt.Some? ==>
          s.rotatedAt.value.civil != Civil(1, 1, 1, 0, 0, 0, 0) && !Before(s.rotatedAt.value, s.createdAt))
  }

  /** Corrupt states are refused. */
  function Encode(s: PersistedState): Option<File> {
    if s.verifier == ZeroVerifier() || IsZero(s.createdAt) || (s.rotatedAt.Some? && IsZero(s.rotatedAt.value))
       || !Ordered(s) then None
    else Some(File(FILE_VERSION, Base64.Encode(s.verifier), Format(s.createdAt.civil),
                   if s.rotatedAt.Some? then Some(Format(s.rotatedAt.value.civil)) else None))
  }

  lemma StatesAreEncoded(s: PersistedState)
    ensures IsState(s) <==> Encode(s).Some?
  {
    var zero := ZeroVerifier();
    assert |s.verifier| == 32 ==> (s.verifier == zero <==> forall i | 0 <= i < 32 :: s.verifier[i] == zero[i]);
  }

  function ParseInstant(text: Bytes): Option<Instant> {
    match Parse(text)
    case Some(t) => Some(Instant(t, None))
    case None => None
  }

  function ParseOptional(s: Option<Bytes>): Option<Option<Instant>> {
    match s
    case None => Some(None)
    case Some(text) => if ParseInstant(text).Some? then Some(ParseInstant(text)) else None
  }

  function Decode(f: File): (s: Option<PersistedState>)
    ensures s.Some? ==> |s.value.verifier| == HASH_SIZE && Ordered(s.value)
  {
    var verifier := Base64.Decode(f.verifier);
    if f.version != FILE_VERSION || verifier.None? || |verifier.value| != HASH_SIZE
       || Base64.Encode(verifier.value) != f.verifier then None
    else if ParseInstant(f.createdAt).None? || ParseOptional(f.rotatedAt).None? then None
    else
      var s := PersistedState(verifier.value, ParseInstant(f.createdAt).value, ParseOptional(f.rotatedAt).value);
      if Ordered(s) then Some(s) else None
  }

  predicate FourDigits(t: Instant) { 0 <= t.civil.year <= 9999 }

  /** Its times have years of four digits, and the wall clock did not go back between them. */
  predicate Readable(s: PersistedState) {
    && FourDigits(s.createdAt)
    && (s.rotatedAt.Some? ==>
          FourDigits(s.rotatedAt.value) && !CivilBefore(s.rotatedAt.value.civil, s.createdAt.civil))
  }

  /** The state as the file carries it. */
  function AsRead(s: PersistedState): PersistedState {
    s.(createdAt := Stripped(s.createdAt),
       rotatedAt := if s.rotatedAt.Some? then Some(Stripped(s.rotatedAt.value)) else None)
  }

  /**
   A state that can be written is read back, but for the monotonic readings, exactly when its years have four
   digits and its times are in the order of the wall clock; otherwise the file is refused.
   */
  lemma DecodeEncode(s: PersistedState)
    requires Encode(s).Some? && |s.verifier| == HASH_SIZE
    ensures Decode(Encode(s).value) == if Readable(s) then Some(AsRead(s)) else None
  {
    hide Format;
    hide Parse;
    hide CivilBefore;
    hide Base64.Encode;
    hide Base64.Decode;
    Base64.DecodeEncode(s.verifier);
    InstantReadBack(s.createdAt);
    if s.rotatedAt.Some? {
      InstantReadBack(s.rotatedAt.value);
    }
  }

  lemma InstantReadBack(t: Instant)
    requires !IsZero(t)
    ensures ParseInstant(Format(t.civil)) == if FourDigits(t) then Some(Stripped(t)) else None
  {
    hide Format;
    hide Parse;
    if FourDigits(t) {
      FormatRoundTrip(t.civil);
    } else {
      FormatOutOfRange(t.civil);
    }
  }

  /** A token rotated after the wall clock was set back by a second: written, and refused when it is read. */
  lemma ClockSetBack(verifier: Bytes)
    requires |verifier| == HASH_SIZE && verifier != ZeroVerifier()
    ensures var createdAt := Instant(Civil(2025, 1, 1, 12, 0, 1, 0), Some(1));
      var rotatedAt := Instant(Civil(2025, 1, 1, 12, 0, 0, 0), Some(2));
      var s := PersistedState(verifier, createdAt, Some(rotatedAt));
      Encode(s).Some? && Decode(Encode(s).value).None?
  {
    hide Format;
    hide Base64.Encode;
    hide Decode;
    var createdAt := Instant(Civil(2025, 1, 1, 12, 0, 1, 0), Some(1));
    var rotatedAt := Instant(Civil(2025, 1, 1, 12, 0, 0, 0), Some(2));
    DecodeEncode(PersistedState(verifier, createdAt, Some(rotatedAt)));
  }

  /** A token of the year 10000: written, and refused when it is read. */
  lemma FarFuture(verifier: Bytes)
    requires |verifier| == HASH_SIZE && verifier != ZeroVerifier()
    ensures var s := PersistedState(verifier, Instant(Civil(10_000, 1, 1, 0, 0, 0, 0), None), None);
      Encode(s).Some? && Decode(Encode(s).value).None?
  {
    hide Format;
    hide Base64.Encode;
    hide Decode;
    DecodeEncode(PersistedState(verifier, Instant(Civil(10_000, 1, 1, 0, 0, 0, 0), None), None));
  }

  class Store {
    var file: Option<File>
    /** The file may be ahead of what its writer was told, after a torn write. */
    ghost var torn: bool

    constructor ()
      ensures file == None && !torn
    {
      file, torn := None, false;
    }

    /** Fails on a corrupt file, and when the file cannot be read. */
    method Load(readable: bool) returns (r: Result<Option<PersistedState>, ()>)
      ensures r.Ok? <==> readable && (file.None? || Decode(file.value).Some?)
      ensures r.Ok? ==> r.value == if file.None? then None else Decode(file.value)
    {
      if !readable {
        return Err(());
      }
      if file.None? {
        return Ok(None);
      }
      var state := Decode(file.value);
      return if state.Some? then Ok(state) else Err(());
    }

    method Save(s: PersistedState, fate: Write) returns (ok: bool)
      modifies this
      ensures ok <==> fate == Written && IsState(s)
      ensures IsState(s) <==> Encode(s).Some?
      ensures file == if fate == Unwritten || !IsState(s) then old(file) else Encode(s)
      ensures torn == if fate == Unwritten || !IsState(s) then old(torn) else fate == Torn
    {
      hide IsState;
      StatesAreEncoded(s);
      var data := Encode(s);
      if data.None? {
        return false;
      }
      if fate != Unwritten {
        file := data;
        torn := fate == Torn;
      }
      return fate == Written;
    }

    method Delete(fails: bool) returns (ok: bool)
      modifies this
      ensures ok <==> !fails
      ensures ok ==> file == None && !torn
      ensures !ok ==> file == old(file) && torn == old(torn)
    {
      if fails {
        return false;
      }
      file, torn := None, false;
      return true;
    }
  }
}
