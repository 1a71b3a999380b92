/** The MCP access token: one at a time, known to the service by its hash only. */
module TokenService {
  import opened Common
  import opened Text
  import opened Timestamp
  import opened TokenStore
  import SecretStore
  import Base64

  const TOKEN_SIZE := 32
  const PREFIX: Bytes := Ascii("dp-")

  datatype State = StateNone | StateActive | StateDegraded

  datatype TokenError = TokenExists | NoToken | InvalidToken | Unavailable | StoreFailed | NoRandomness

  datatype Metadata = Metadata(createdAt: Instant, rotatedAt: Option<Instant>)

  function TokenOf(random: Bytes): Bytes {
    PREFIX + Base64.Encode(random)
  }

  /** Different random bytes make different tokens. */
  lemma TokensDiffer(a: Bytes, b: Bytes)
    requires TokenOf(a) == TokenOf(b)
    ensures a == b
  {
    hide Base64.Encode;
    hide Base64.Decode;
    assert TokenOf(a)[|PREFIX|..] == Base64.Encode(a) && TokenOf(b)[|PREFIX|..] == Base64.Encode(b);
    Base64.DecodeEncode(a);
    Base64.DecodeEncode(b);
  }

  lemma TokenIsRandom(random: Bytes)
    ensures Ascii("dp-") <= TokenOf(random) && Base64.Decode(TokenOf(random)[3..]) == Some(random)
  {
    hide Base64.Encode;
    hide Base64.Decode;
    assert TokenOf(random)[3..] == Base64.Encode(random);
    Base64.DecodeEncode(random);
  }

  /** What happened to the token: issued by a successful Create or Rotate, or revoked. */
  datatype Event = Issued(token: Bytes, metadata: Metadata) | Revoked

  /** The token of the last Create or Rotate that succeeded and that no successful Revoke followed. */
  function Current(log: seq<Event>): Option<Event> {
    if log == [] || log[|log| - 1].Revoked? then None else Some(log[|log| - 1])
  }

  function StateFor(hash: Bytes -> Bytes, e: Event): PersistedState
    requires e.Issued?
  {
    PersistedState(hash(e.token), e.metadata.createdAt, e.metadata.rotatedAt)
  }

  /** The file a store without torn writes holds after these events. */
  function FileFor(hash: Bytes -> Bytes, log: seq<Event>): Option<File> {
    match Current(log)
    case Some(e) => Encode(StateFor(hash, e))
    case None => None
  }

  /** The metadata as it was issued, or as it was read back. */
  predicate Knows(metadata: Metadata, issued: Metadata) {
    metadata == issued || metadata == ReadMetadata(issued)
  }

  function ReadMetadata(m: Metadata): Metadata {
    Metadata(Stripped(m.createdAt), if m.rotatedAt.Some? then Some(Stripped(m.rotatedAt.value)) else None)
  }

  ghost predicate HashSized(hash: Bytes -> Bytes) {
    forall token :: |hash(token)| == HASH_SIZE
  }

  class Service {
    const store: Store
    const hash: Bytes -> Bytes
    var state: State
    var verifier: Bytes
    var metadata: Option<Metadata>
    ghost var log: seq<Event>

    /**
     Unless degraded, the service knows the current token, and only that; so does the file, unless a write
     was torn.
     */
    ghost predicate Valid()
      reads this, store
    {
      && HashSized(hash)
      && (state == StateActive ==>
            && Current(log).Some?
            && verifier == hash(Current(log).value.token)
            && metadata.Some?
            && Knows(metadata.value, Current(log).value.metadata))
      && (state == StateNone ==> Current(log).None?)
      && (!store.torn ==> store.file == FileFor(hash, log))
      && (!store.torn && Current(log).Some? ==> store.file.Some?)
    }

    constructor (store: Store, hash: Bytes -> Bytes, state: State, verifier: Bytes, metadata: Option<Metadata>,
                 ghost log: seq<Event>)
      ensures this.store == store && this.hash == hash && this.log == log
      ensures this.state == state && this.verifier == verifier && this.metadata == metadata
    {
      this.store, this.hash, this.log := store, hash, log;
      this.state, this.verifier, this.metadata := state, verifier, metadata;
    }

    method CommitActive(verifier: Bytes, metadata: Metadata)
      modifies this
      ensures state == StateActive && this.verifier == verifier && this.metadata == Some(metadata) && log == old(log)
    {
      this.state, this.verifier, this.metadata := StateActive, verifier, Some(metadata);
    }

    /** A token, or an error and nothing changed. */
    method Create(random: Option<Bytes>, now: Instant, fate: SecretStore.Write)
      returns (r: Result<(Bytes, Metadata), TokenError>)
      requires Valid() && (random.Some? ==> |random.value| == TOKEN_SIZE)
      modifies this, store
      ensures Valid()
      ensures r.Ok? <==> old(state) == StateNone && random.Some? && fate == SecretStore.Written
                         && IsState(PersistedState(hash(TokenOf(random.value)), now, None))
      ensures r.Ok? ==> Ascii("dp-") <= r.value.0 && Base64.Decode(r.value.0[3..]) == random
      ensures r.Ok? ==> state == StateActive
                        && r.value == (TokenOf(random.value), Metadata(now, None))
                        && log == old(log) + [Issued(r.value.0, r.value.1)] && !store.torn
      ensures r.Err? ==> log == old(log) && state == old(state)
      ensures r.Err? ==> verifier == old(verifier) && metadata == old(metadata)
      ensures r == Err(TokenExists) <==> old(state) == StateActive
      ensures r == Err(Unavailable) <==> old(state) == StateDegraded
      ensures r == Err(NoRandomness) <==> old(state) == StateNone && random.None?
    {
      hide Encode;
      if state != StateNone {
        return Err(if state == StateActive then TokenExists else Unavailable);
      }
      if random.None? {
        return Err(NoRandomness);
      }
      var token := TokenOf(random.value);
      var created := Metadata(now, None);
      var saved := store.Save(PersistedState(hash(token), now, None), fate);
      if !saved {
        return Err(StoreFailed);
      }
      TokenIsRandom(random.value);
      CommitActive(hash(token), created);
      log := log + [Issued(token, created)];
      return Ok((token, created));
    }

    /** Replaces the token; the old one is valid until the new one is saved, and if it is not. */
    method Rotate(random: Option<Bytes>, now: Instant, fate: SecretStore.Write)
      returns (r: Result<(Bytes, Metadata), TokenError>)
      requires Valid() && (random.Some? ==> |random.value| == TOKEN_SIZE)
      modifies this, store
      ensures Valid()
      ensures r.Ok? <==> old(state) == StateActive && random.Some? && fate == SecretStore.Written
                         && IsState(PersistedState(hash(TokenOf(random.value)),
                                                   old(metadata).value.createdAt, Some(now)))
      ensures r.Ok? ==> Ascii("dp-") <= r.value.0 && Base64.Decode(r.value.0[3..]) == random
      ensures r.Ok? ==> state == StateActive
                        && r.value == (TokenOf(random.value),
                                       Metadata(old(metadata).value.createdAt, Some(now)))
                        && log == old(log) + [Issued(r.value.0, r.value.1)] && !store.torn
      ensures r.Err? ==> log == old(log) && state == old(state)
      ensures r.Err? ==> verifier == old(verifier) && metadata == old(metadata)
      ensures r == Err(NoToken) <==> old(state) == StateNone
      ensures r == Err(Unavailable) <==> old(state) == StateDegraded
      ensures r == Err(NoRandomness) <==> old(state) == StateActive && random.None?
    {
      hide Encode;
      if state != StateActive {
        return Err(if state == StateNone then NoToken else Unavailable);
      }
      if random.None? {
        return Err(NoRandomness);
      }
      var token := TokenOf(random.value);
      var rotated := Metadata(metadata.value.createdAt, Some(now));
      var saved := store.Save(PersistedState(hash(token), rotated.createdAt, rotated.rotatedAt), fate);
      if !saved {
        return Err(StoreFailed);
      }
      TokenIsRandom(random.value);
      CommitActive(hash(token), rotated);
      log := log + [Issued(token, rotated)];
      return Ok((token, rotated));
    }

    /** Also the way out of a degraded state. */
    method Revoke(fails: bool) returns (r: Result<(), TokenError>)
      requires Valid()
      modifies this, store
      ensures Valid()
      ensures r.Ok? <==> old(state) == StateNone || !fails
      ensures r.Ok? ==> state == StateNone
      ensures r.Ok? ==> log == if old(state) == StateNone then old(log) else old(log) + [Revoked]
      ensures r.Ok? ==> Current(log).None?
      ensures r.Err? ==> log == old(log) && state == old(state)
      ensures r.Err? ==> verifier == old(verifier) && metadata == old(metadata)
    {
      hide Encode;
      if state == StateNone {
        return Ok(());
      }
      var deleted := store.Delete(fails);
      if !deleted {
        return Err(StoreFailed);
      }
      state, verifier, metadata := StateNone, ZeroVerifier(), None;
      log := log + [Revoked];
      return Ok(());
    }

    /**
     Accepts the current token and what collides with it; rejects everything else, and everything when
     there is no token or the service is degraded.
     */
    method Verify(token: Bytes) returns (r: Result<(), TokenError>)
      requires Valid()
      ensures r.Ok? <==> state == StateActive && hash(token) == hash(Current(log).value.token)
      ensures r == Err(Unavailable) <==> state == StateDegraded
      ensures r == Err(NoToken) <==> state == StateNone
      ensures r.Err? && r.error != Unavailable && r.error != NoToken ==> r.error == InvalidToken
      ensures state != StateDegraded && CollisionFree(hash, token, log) ==>
                (r.Ok? <==> Current(log).Some? && Current(log).value.token == token)
    {
      if state == StateDegraded {
        return Err(Unavailable);
      }
      if state == StateNone {
        return Err(NoToken);
      }
      return if hash(token) == verifier then Ok(()) else Err(InvalidToken);
    }
  }

  /** The presented token does not collide with an issued one. */
  ghost predicate CollisionFree(hash: Bytes -> Bytes, token: Bytes, log: seq<Event>) {
    forall i | 0 <= i < |log| && log[i].Issued? :: hash(log[i].token) == hash(token) ==> log[i].token == token
  }

  /**
   The file of the current token can be read: its years have four digits, and its times the order of the wall
   clock.
   */
  predicate ReadableNow(log: seq<Event>) {
    Current(log).Some? ==>
      var m := Current(log).value.metadata;
      Readable(PersistedState([], m.createdAt, m.rotatedAt))
  }

  /**
   New, on the store an earlier service left. When the file can be read, the new service accepts what the
   earlier one would have; it is degraded exactly when the file cannot be opened, or when it holds a year of
   more than four digits, or a rotation that the wall clock put before the creation.
   */
  method New(store: Store, hash: Bytes -> Bytes, readable: bool, ghost log: seq<Event>) returns (service: Service)
    requires HashSized(hash) && !store.torn
    requires store.file == FileFor(hash, log) && (Current(log).Some? ==> store.file.Some?)
    ensures fresh(service) && service.Valid()
    ensures service.store == store && service.hash == hash && service.log == log
    ensures !readable ==> service.state == StateDegraded
    ensures readable && !ReadableNow(log) ==> service.state == StateDegraded
    ensures readable && ReadableNow(log) ==> service.state == if Current(log).Some? then StateActive else StateNone
  {
    hide Encode;
    hide Decode;
    hide CivilBefore;
    var loaded := store.Load(readable);
    if Current(log).Some? {
      DecodeEncode(StateFor(hash, Current(log).value));
    }
    if loaded.Err? {
      service := new Service(store, hash, StateDegraded, [], None, log);
      return;
    }
    if loaded.value.None? {
      service := new Service(store, hash, StateNone, [], None, log);
      return;
    }
    var persisted := loaded.value.value;
    service := new Service(store, hash, StateActive, persisted.verifier,
                           Some(Metadata(persisted.createdAt, persisted.rotatedAt)), log);
  }
}
