/** The definition file store and the connection manager. */
module Repository {
  import opened Common
  import opened Text
  import opened Connection
  import opened SecretStore
  import Order

  datatype RepositoryError = Unavailable | DefinitionNotFound

  class FileStore {
    var definitions: Definitions
    /** The snapshot on disk; a missing file reads as no definitions. */
    var file: seq<Definition>
    /** The file may be ahead of the definitions, after a torn write. */
    ghost var torn: bool

    ghost predicate Valid()
      reads this
    {
      Keyed(definitions) && (!torn ==> Collect(file) == Some(StoredAll(definitions)))
    }

    /** filestore.Open on a file with this content, whose texts the JSON reader delivers as UTF-8. */
    constructor (file: seq<Definition>, loaded: Definitions)
      requires StoredList(file) == file && Collect(file) == Some(loaded)
      ensures Valid() && definitions == loaded && !torn && this.file == file
    {
      ReadIsStored(file);
      this.file, definitions, torn := file, loaded, false;
    }

    method WriteSnapshot(snapshot: seq<Definition>, fate: Write) returns (ok: bool)
      modifies this`file, this`torn
      ensures ok <==> fate == Written
      ensures file == if fate == Unwritten then old(file) else StoredList(snapshot)
      ensures torn == if fate == Unwritten then old(torn) else fate == Torn
    {
      if fate != Unwritten {
        file := StoredList(snapshot);
        torn := fate == Torn;
      }
      return fate == Written;
    }

    method Lookup(id: Bytes, ended: bool) returns (r: Result<Definition, RepositoryError>)
      ensures r.Ok? <==> !ended && id in definitions
      ensures r.Ok? ==> r.value == definitions[id]
      ensures r == Err(Unavailable) <==> ended
    {
      if ended {
        return Err(Unavailable);
      }
      if id !in definitions {
        return Err(DefinitionNotFound);
      }
      return Ok(definitions[id]);
    }

    /** Copies, persists, then swaps. */
    method Upsert(definition: Definition, fate: Write) returns (ok: bool)
      requires Valid()
      modifies this
      ensures Valid()
      ensures ok <==> ValidDefinition(definition) && fate == Written
      ensures ok ==> definitions == old(definitions)[definition.id := definition] && !torn
                     && file == StoredList(SortedDefinitions(definitions))
      ensures !ok ==> definitions == old(definitions)
    {
      hide ValidDefinition;
      hide SortedDefinitions;
      hide StoredList;
      hide StoredAll;
      hide Collect;
      if !ValidDefinition(definition) {
        return false;
      }
      var next := definitions[definition.id := definition];
      var snapshot := SortDefinitions(next);
      ok := WriteSnapshot(snapshot, fate);
      if ok {
        ReadBack(next);
        definitions := next;
      }
    }

    method List() returns (r: seq<Definition>)
      ensures r == SortedDefinitions(definitions)
    {
      r := SortDefinitions(definitions);
    }
  }

  /**
   After an intact write, opening the store again, and a manager over its list, see the definitions written: the
   ones in memory exactly when every kind and every setting is UTF-8. Opening it once more changes nothing.
   */
  lemma RestartKeeps(store: FileStore)
    requires store.Valid() && !store.torn
    ensures Collect(store.file) == Some(StoredAll(store.definitions))
    ensures Collect(store.file) == Some(store.definitions)
            <==> forall id | id in store.definitions :: Textual(store.definitions[id])
    ensures StoredAll(StoredAll(store.definitions)) == StoredAll(store.definitions)
  {
    hide Collect;
    hide StoredAll;
    hide Textual;
    hide ValidDefinition;
    ReadBack(store.definitions);
    StoredAllTwice(store.definitions);
  }

  datatype Registration = Registration(previous: Option<Definition>)

  datatype PrepareError = NotRegistered | NotPrepared

  /** What Prepare delivers when every secret resolves. */
  ghost function Prepared(d: Definition, plain: map<Bytes, Bytes>): Resolved
    requires forall name | name in d.secretRefs :: Resolution(plain, d.secretRefs[name]).Ok?
  {
    Resolved(d.id, d.kind, d.settings,
             map name | name in d.secretRefs :: Resolution(plain, d.secretRefs[name]).value)
  }

  class Manager {
    const resolver: Store
    var definitions: Definitions

    constructor (resolver: Store, list: seq<Definition>, definitions: Definitions)
      requires Collect(list) == Some(definitions)
      ensures this.resolver == resolver && this.definitions == definitions
    {
      this.resolver, this.definitions := resolver, definitions;
    }

    method Register(definition: Definition) returns (r: Option<Registration>)
      modifies this
      ensures r.Some? <==> ValidDefinition(definition)
      ensures r.None? ==> definitions == old(definitions)
      ensures r.Some? ==> definitions == old(definitions)[definition.id := definition]
      ensures r.Some? ==> r.value.previous ==
                          if definition.id in old(definitions) then Some(old(definitions)[definition.id]) else None
    {
      if !ValidDefinition(definition) {
        return None;
      }
      var previous := if definition.id in definitions then Some(definitions[definition.id]) else None;
      definitions := definitions[definition.id := definition];
      return Some(Registration(previous));
    }

    method Lookup(id: Bytes) returns (r: Option<Definition>)
      ensures r == if id in definitions then Some(definitions[id]) else None
    {
      return if id in definitions then Some(definitions[id]) else None;
    }

    method List() returns (r: seq<Definition>)
      ensures r == SortedDefinitions(definitions)
    {
      r := SortDefinitions(definitions);
    }

    /** The definition with its secrets resolved, while the context lasts: it is looked at before each step. */
    method Prepare(id: Bytes, lasts: nat) returns (r: Result<Resolved, PrepareError>)
      requires resolver.Valid()
      ensures r == Err(NotRegistered) <==> lasts > 0 && id !in definitions
      ensures r.Ok? <==>
                && id in definitions
                && |definitions[id].secretRefs| < lasts
                && (forall name | name in definitions[id].secretRefs ::
                      Resolution(resolver.plain, definitions[id].secretRefs[name]).Ok?)
      ensures r.Ok? ==> r.value == Prepared(definitions[id], resolver.plain)
    {
      hide Resolution;
      hide Order.SortedOf;
      if lasts == 0 {
        return Err(NotPrepared);
      }
      var found := Lookup(id);
      if found.None? {
        return Err(NotRegistered);
      }
      var refs := found.value.secretRefs;
      var names := Order.SortStrings(refs.Keys);
      Order.SortedCount(refs.Keys);
      assert forall k | 0 <= k < |names| :: names[k] in names;
      var secrets: map<Bytes, Bytes> := map[];
      var i := 0;
      while i < |names|
        invariant 0 <= i <= |names| && i < lasts
        invariant forall k | 0 <= k < |names| :: names[k] in refs
        invariant forall name | name in secrets ::
                    name in refs && Resolution(resolver.plain, refs[name]) == Ok(secrets[name])
        invariant forall k | 0 <= k < i :: names[k] in secrets
      {
        var name := names[i];
        var value := resolver.Resolve(refs[name], i + 1 >= lasts);
        if value.Err? {
          return Err(NotPrepared);
        }
        secrets := secrets[name := value.value];
        i := i + 1;
      }
      assert forall name | name in refs :: name in names && name in secrets;
      return Ok(Resolved(found.value.id, found.value.kind, found.value.settings, secrets));
    }
  }
}
