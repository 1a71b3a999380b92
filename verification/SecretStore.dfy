/** The local secret store: sealed values by random id, persisted as a whole before they are visible. */
module SecretStore {
  import opened Common
  import opened Text
  import Base64
  import Reference

  const SECRET_ID_SIZE := 18

  /** An authenticated cipher, as functions: of the nonce, the text and the data that goes with it. */
  datatype Aead = Aead(seal: (Bytes, Bytes, Bytes) -> Bytes, open: (Bytes, Bytes) -> Option<Bytes>)

  ghost predicate Authentic(a: Aead) {
    forall nonce, text, extra :: a.open(a.seal(nonce, text, extra), extra) == Some(text)
  }

  lemma Opens(a: Aead, nonce: Bytes, text: Bytes, extra: Bytes)
    requires Authentic(a)
    ensures a.open(a.seal(nonce, text, extra), extra) == Some(text)
  {
  }

  datatype SecretError = ContextEnded | InvalidReference | WrongProvider | Corrupt | NotFound

  /**
   How an operation that replaces a file fares: a torn write has renamed the file and then failed to sync the
   directory; one that fails before that, or an operation that fails before its write, has not written.
   */
  datatype Write = Written | Unwritten | Torn

  /** The id a reference names in this store; its callers check the provider first. */
  function SecretId(ref: Bytes): Bytes {
    match Reference.Parts(ref)
    case Some(parts) => parts.1
    case None => []
  }

  predicate IsLocal(ref: Bytes) {
    Reference.Parts(ref).Some? && Reference.Parts(ref).value.0 == Reference.LOCAL
  }

  function LocalID(ref: Bytes): Result<Bytes, SecretError> {
    match Reference.Parts(ref)
    case Some(parts) => if parts.0 == Reference.LOCAL then Ok(parts.1) else Err(WrongProvider)
    case None => Err(InvalidReference)
  }

  lemma LocalIs()
    ensures Reference.LOCAL == Ascii("local")
  {
  }

  /** What a reference resolves to, in terms of the plain values. */
  ghost function Resolution(plain: map<Bytes, Bytes>, ref: Bytes): Result<Bytes, SecretError> {
    match LocalID(ref)
    case Err(err) => Err(err)
    case Ok(id) =>
      if Base64.Decode(id).None? then Err(Corrupt)
      else if id !in plain then Err(NotFound)
      else Ok(plain[id])
  }

  /** Each outcome, and exactly when. */
  lemma ResolutionIs(plain: map<Bytes, Bytes>, ref: Bytes)
    ensures var r := Resolution(plain, ref);
      && (r == Err(InvalidReference) <==> !Reference.Valid(ref))
      && (r == Err(WrongProvider) <==> Reference.Valid(ref) && Reference.Parts(ref).value.0 != Ascii("local"))
      && (Reference.Valid(ref) && Reference.Parts(ref).value.0 == Ascii("local") ==>
            var id := Reference.Parts(ref).value.1;
            && (r == Err(Corrupt) <==> Base64.Decode(id).None?)
            && (r == Err(NotFound) <==> Base64.Decode(id).Some? && id !in plain)
            && (r.Ok? <==> Base64.Decode(id).Some? && id in plain)
            && (r.Ok? ==> r.value == plain[id]))
  {
    hide Base64.Decode;
    hide Reference.Parts;
    LocalIs();
  }

  class Store {
    const aead: Aead
    var entries: map<Bytes, Bytes>
    var file: map<Bytes, Bytes>
    /** The values behind the sealed entries. */
    ghost var plain: map<Bytes, Bytes>
    ghost var failedDeletes: nat
    /** The file may be ahead of the entries, after a torn write. */
    ghost var torn: bool

    ghost predicate Valid()
      reads this
    {
      && Authentic(aead)
      && plain.Keys == entries.Keys
      && (forall id | id in entries ::
            && Base64.Decode(id).Some?
            && aead.open(entries[id], Base64.Decode(id).value) == Some(plain[id]))
      && (!torn ==> file == entries)
    }

    /** Open on a snapshot whose entries were sealed by this cipher, each with its own id. */
    constructor (aead: Aead, snapshot: map<Bytes, Bytes>, ghost plain: map<Bytes, Bytes>)
      requires Authentic(aead) && plain.Keys == snapshot.Keys
      requires forall id | id in snapshot ::
                 Base64.Decode(id).Some? && aead.open(snapshot[id], Base64.Decode(id).value) == Some(plain[id])
      ensures Valid() && this.plain == plain && entries == snapshot && !torn
    {
      this.aead, this.plain := aead, plain;
      entries, file, failedDeletes, torn := snapshot, snapshot, 0, false;
    }

    method WriteSnapshot(next: map<Bytes, Bytes>, fate: Write) returns (ok: bool)
      modifies this`file, this`torn
      ensures ok <==> fate == Written
      ensures file == if fate == Unwritten then old(file) else next
      ensures torn == if fate == Unwritten then old(torn) else fate == Torn
    {
      if fate != Unwritten {
        file := next;
        torn := fate == Torn;
      }
      return fate == Written;
    }

    /** Seals the value under the encoding of fresh random bytes. */
    method Put(plaintext: Bytes, random: Bytes, fate: Write) returns (r: Option<Bytes>)
      requires Valid() && |random| == SECRET_ID_SIZE
      modifies this
      ensures Valid() && failedDeletes == old(failedDeletes)
      ensures r.Some? <==> fate == Written
      ensures r.None? ==> plain == old(plain)
      ensures r.Some? ==>
                && IsLocal(r.value) && SecretId(r.value) == Base64.Encode(random)
                && plain == old(plain)[Base64.Encode(random) := plaintext]
    {
      hide Base64.Encode;
      hide Base64.Decode;
      hide Reference.NewLocal;
      hide Reference.Parts;
      var id := Base64.Encode(random);
      var ref := Reference.NewLocal(id);
      Reference.GeneratedIsLocal(random);
      Base64.DecodeEncode(random);
      var nonce: Bytes := *;
      var sealed := aead.seal(nonce, plaintext, random);
      Opens(aead, nonce, plaintext, random);
      var next := entries[id := sealed];
      var ok := WriteSnapshot(next, fate);
      if !ok {
        return None;
      }
      entries := next;
      plain := plain[id := plaintext];
      assert Base64.Decode(id).value == random;
      return ref;
    }

    method Resolve(ref: Bytes, ended: bool) returns (r: Result<Bytes, SecretError>)
      requires Valid()
      ensures r == if ended then Err(ContextEnded) else Resolution(plain, ref)
    {
      if ended {
        return Err(ContextEnded);
      }
      var id := LocalID(ref);
      if id.Err? {
        return Err(id.error);
      }
      var raw := Base64.Decode(id.value);
      if raw.None? {
        return Err(Corrupt);
      }
      if id.value !in entries {
        return Err(NotFound);
      }
      var text := aead.open(entries[id.value], raw.value);
      return if text.Some? then Ok(text.value) else Err(Corrupt);
    }

    method Delete(ref: Bytes, fate: Write) returns (ok: bool)
      requires Valid()
      modifies this
      ensures Valid()
      ensures ok <==> fate == Written && IsLocal(ref) && SecretId(ref) in old(plain)
      ensures ok ==> plain == old(plain) - {SecretId(ref)} && failedDeletes == old(failedDeletes)
      ensures !ok ==> plain == old(plain) && failedDeletes == old(failedDeletes) + 1
    {
      var id := LocalID(ref);
      if id.Err? || id.value !in entries {
        failedDeletes := failedDeletes + 1;
        return false;
      }
      var next := entries - {id.value};
      ok := WriteSnapshot(next, fate);
      if !ok {
        failedDeletes := failedDeletes + 1;
        return;
      }
      entries := next;
      plain := plain - {id.value};
    }
  }
}
