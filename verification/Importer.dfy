/**
 The import of a connection: secrets first, then the definition, then the registration, and
 compensation when a step fails. Imports of one id do not overlap.
 */
module Importer {
  import opened Common
  import opened Text
  import opened Connection
  import opened SecretStore
  import opened Repository
  import opened Registrar
  import opened Saga
  import Base64
  import Order

  class ConnectionImporter {
    const secrets: Store
    const repository: FileStore
    const registrar: ReplacementRegistrar
    /** The ids whose old secrets could not all be deleted, as told to the warning hook. */
    var warnings: seq<Bytes>

    constructor (secrets: Store, repository: FileStore, registrar: ReplacementRegistrar)
      ensures this.secrets == secrets && this.repository == repository && this.registrar == registrar && warnings == []
    {
      this.secrets, this.repository, this.registrar, this.warnings := secrets, repository, registrar, [];
    }

    /** The stores and the manager agree: same definitions, every reference backed, none shared. */
    ghost predicate Consistent()
      reads this, secrets, repository, registrar.manager, registrar.Objects()
    {
      && secrets.Valid() && repository.Valid() && registrar.Ready()
      && this !in registrar.Objects() && secrets !in registrar.Objects() && repository !in registrar.Objects()
      && registrar.manager.resolver == secrets
      && registrar.manager.definitions == repository.definitions
      && AllBacked(repository.definitions, secrets.plain.Keys)
    }

    /** deleteNew: tries them all. */
    method DeleteNew(refs: References, deletes: nat -> Write)
      requires secrets.Valid()
      modifies secrets
      ensures secrets.Valid() && secrets.failedDeletes >= old(secrets.failedDeletes)
      ensures Deleted(old(secrets.plain), secrets.plain, IdsOf(refs),
                      secrets.failedDeletes == old(secrets.failedDeletes))
      ensures Backed(refs, old(secrets.plain.Keys)) ==>
                (secrets.failedDeletes == old(secrets.failedDeletes) <==> AllWritten(deletes, |refs|))
    {
      hide SecretId;
      hide IsLocal;
      hide Store.Valid;
      hide AllWritten;
      hide Backed;
      hide Deleted;
      hide IdsAmong;
      hide IdsOf;
      hide Parted;
      ghost var before := secrets.plain;
      var rest, n := refs.Keys, 0;
      ghost var done: set<Bytes> := {};
      NothingDeleted(before, refs, deletes);
      NothingParted(refs.Keys);
      while rest != {}
        invariant Parted(refs.Keys, rest, done, n)
        invariant secrets.Valid() && secrets.failedDeletes >= old(secrets.failedDeletes)
        invariant Deleted(before, secrets.plain, IdsAmong(refs, done),
                          secrets.failedDeletes == old(secrets.failedDeletes))
        invariant Backed(refs, before.Keys) ==>
                    (secrets.failedDeletes == old(secrets.failedDeletes) <==> AllWritten(deletes, n))
        decreases rest
      {
        var name :| name in rest;
        PartedNext(refs.Keys, rest, done, n, name);
        if Backed(refs, before.Keys) {
          StillThere(refs, done, name, before, secrets.plain,
                     secrets.failedDeletes == old(secrets.failedDeletes));
        }
        ghost var plain := secrets.plain;
        ghost var all := secrets.failedDeletes == old(secrets.failedDeletes);
        var ok := secrets.Delete(refs[name], deletes(n));
        DeletedNext(refs, done, name, before, plain, secrets.plain, all, ok);
        AllWrittenNext(deletes, n);
        rest, n, done := rest - {name}, n + 1, done + {name};
      }
      AllParted(refs.Keys, rest, done, n);
      IdsAmongAll(refs);
    }

    /** deleteOld: stops and warns at the first that cannot be deleted. */
    method DeleteOld(id: Bytes, refs: References, deletes: nat -> Write)
      requires secrets.Valid()
      modifies secrets, this
      ensures secrets.Valid() && secrets.failedDeletes >= old(secrets.failedDeletes)
      ensures Deleted(old(secrets.plain), secrets.plain, IdsOf(refs),
                      secrets.failedDeletes == old(secrets.failedDeletes))
      ensures warnings == old(warnings) + if secrets.failedDeletes == old(secrets.failedDeletes) then [] else [id]
      ensures Backed(refs, old(secrets.plain.Keys)) ==>
                (secrets.failedDeletes == old(secrets.failedDeletes) <==> AllWritten(deletes, |refs|))
    {
      hide SecretId;
      hide IsLocal;
      hide Store.Valid;
      hide AllWritten;
      hide Backed;
      hide Deleted;
      hide IdsAmong;
      hide IdsOf;
      hide Parted;
      ghost var before := secrets.plain;
      var rest, n := refs.Keys, 0;
      ghost var done: set<Bytes> := {};
      NothingDeleted(before, refs, deletes);
      NothingParted(refs.Keys);
      while rest != {}
        invariant Parted(refs.Keys, rest, done, n) && warnings == old(warnings)
        invariant secrets.Valid() && secrets.failedDeletes == old(secrets.failedDeletes)
        invariant Deleted(before, secrets.plain, IdsAmong(refs, done), true)
        invariant Backed(refs, before.Keys) ==> AllWritten(deletes, n)
        decreases rest
      {
        var name :| name in rest;
        PartedNext(refs.Keys, rest, done, n, name);
        if Backed(refs, before.Keys) {
          StillThere(refs, done, name, before, secrets.plain, true);
        }
        ghost var plain := secrets.plain;
        var ok := secrets.Delete(refs[name], deletes(n));
        DeletedNext(refs, done, name, before, plain, secrets.plain, true, ok);
        AllWrittenNext(deletes, n);
        if !ok {
          DeletedMore(before, secrets.plain, refs, done + {name});
          if Backed(refs, before.Keys) {
            AllWrittenLess(deletes, n + 1, |refs|);
          }
          warnings := warnings + [id];
          return;
        }
        rest, n, done := rest - {name}, n + 1, done + {name};
      }
      AllParted(refs.Keys, rest, done, n);
      IdsAmongAll(refs);
    }

    /** Deletes the secrets of the definition that was replaced, if there was one. */
    method DropOld(id: Bytes, previous: Option<Definition>, deletes: nat -> Write, ghost defs: Definitions,
                   ghost live: map<Bytes, Bytes>)
      requires secrets.Valid() && previous == Previous(defs, id)
      requires AllBacked(defs, live.Keys) && Extends(secrets.plain, live)
      modifies secrets, this
      ensures secrets.Valid() && secrets.failedDeletes >= old(secrets.failedDeletes)
      ensures Deleted(old(secrets.plain), secrets.plain, PreviousIds(defs, id),
                      secrets.failedDeletes == old(secrets.failedDeletes))
      ensures secrets.failedDeletes == old(secrets.failedDeletes) <==> AllWritten(deletes, OldSecrets(defs, id))
      ensures warnings == old(warnings) + if secrets.failedDeletes == old(secrets.failedDeletes) then [] else [id]
      ensures NoneFails(deletes) ==> secrets.failedDeletes == old(secrets.failedDeletes)
    {
      hide AllBacked;
      hide Backed;
      hide Deleted;
      hide AllWritten;
      hide NoneFails;
      hide Store.Valid;
      hide PreviousIds;
      hide OldSecrets;
      hide Extends;
      OldAreBacked(defs, id, previous, live, secrets.plain);
      NoneOfThem(deletes, OldSecrets(defs, id));
      if previous.Some? {
        DeleteOld(id, previous.value.secretRefs, deletes);
      } else {
        NothingDeleted(secrets.plain, map[], deletes);
      }
      PreviousGone(defs, id, previous, old(secrets.plain), secrets.plain,
                   secrets.failedDeletes == old(secrets.failedDeletes));
    }

    /** storeSecrets: all of them, in the order of their names, or none but those that cannot be deleted again. */
    method StoreSecrets(values: map<Bytes, Bytes>, random: seq<Bytes>, puts: nat -> Write, deletes: nat -> Write)
      returns (r: Option<References>)
      requires secrets.Valid() && FreshIds(random, |values|, secrets.plain.Keys)
      modifies secrets
      ensures secrets.Valid() && secrets.failedDeletes >= old(secrets.failedDeletes)
      ensures Extends(secrets.plain, old(secrets.plain))
      ensures r.Some? <==> AllWritten(puts, |values|)
      ensures NoneFails(deletes) ==> secrets.failedDeletes == old(secrets.failedDeletes)
      ensures r.Some? ==> r.value.Keys == values.Keys && Holds(r.value, values, secrets.plain, old(secrets.plain))
                          && secrets.failedDeletes == old(secrets.failedDeletes)
      ensures NewOnly(secrets.plain.Keys, old(secrets.plain.Keys), random)
      ensures r.None? && secrets.failedDeletes == old(secrets.failedDeletes) ==>
                secrets.plain.Keys == old(secrets.plain.Keys)
    {
      hide *;
      NewOnlyStarts(secrets.plain.Keys, random);
      var names := Order.SortStrings(values.Keys);
      NamesAreKeys(names, values);
      var refs: References := map[];
      NothingHeld(values, secrets.plain, names);
      FreshFrom(random, |values|, secrets.plain.Keys);
      AllWrittenStarts(puts);
      var i := 0;
      while i < |names|
        invariant 0 <= i <= |names|
        invariant secrets.Valid() && secrets.failedDeletes == old(secrets.failedDeletes)
        invariant Named(refs, names, i) && AllWritten(puts, i)
        invariant Holds(refs, values, secrets.plain, old(secrets.plain))
        invariant Unused(random, i, secrets.plain.Keys)
        invariant NewOnly(secrets.plain.Keys, old(secrets.plain.Keys), random)
      {
        NextName(refs, names, i, values);
        NextUnused(random, i, secrets.plain.Keys);
        NewOnlyGrows(secrets.plain.Keys, old(secrets.plain.Keys), random, i);
        ghost var plain := secrets.plain;
        var stored := secrets.Put(values[names[i]], random[i], puts(i));
        AllWrittenNext(puts, i);
        if stored.None? {
          AllWrittenLess(puts, i + 1, |values|);
          HoldsGives(refs, values, secrets.plain, old(secrets.plain));
          DeleteNew(refs, deletes);
          NoneOfThem(deletes, |refs|);
          NewOnlyShrinks(secrets.plain, plain, old(secrets.plain.Keys), random, IdsOf(refs),
                         secrets.failedDeletes == old(secrets.failedDeletes));
          DeletedAgain(old(secrets.plain), plain, secrets.plain, IdsOf(refs),
                       secrets.failedDeletes == old(secrets.failedDeletes));
          return None;
        }
        assert secrets.plain.Keys == plain.Keys + {Base64.Encode(random[i])};
        HoldsOneMore(refs, values, plain, old(secrets.plain), names[i], stored.value);
        NamedNext(refs, names, i, stored.value);
        refs := refs[names[i] := stored.value];
        i := i + 1;
      }
      HoldsGives(refs, values, secrets.plain, old(secrets.plain));
      AllNamed(refs, names, values);
      return Some(refs);
    }

    /** newDefinition: store the secrets, then validate what refers to them. */
    method NewDefinition(request: Request, parsed: Parsed, random: seq<Bytes>, faults: Faults)
      returns (r: Result<Definition, ImportError>)
      requires secrets.Valid() && FreshIds(random, |parsed.secrets|, secrets.plain.Keys)
      modifies secrets
      ensures secrets.Valid() && secrets.failedDeletes >= old(secrets.failedDeletes)
      ensures Extends(secrets.plain, old(secrets.plain))
      ensures r.Ok? ==> Imported(r.value, request, parsed, secrets.plain, old(secrets.plain))
                        && secrets.failedDeletes == old(secrets.failedDeletes)
      ensures r.Err? && secrets.failedDeletes == old(secrets.failedDeletes) ==>
                secrets.plain.Keys == old(secrets.plain.Keys)
      ensures NewOnly(secrets.plain.Keys, old(secrets.plain.Keys), random)
      ensures r.Ok? <==> AllWritten(faults.puts, |parsed.secrets|) && ValidParsed(request, parsed)
      ensures r == Err(InvalidConnectionString) <==>
                AllWritten(faults.puts, |parsed.secrets|) && !ValidParsed(request, parsed)
      ensures NoneFails(faults.deletes) ==> secrets.failedDeletes == old(secrets.failedDeletes)
    {
      hide *;
      var refs := StoreSecrets(parsed.secrets, random, faults.puts, faults.deletes);
      if refs.None? {
        return Err(ImportUnavailable);
      }
      ghost var plain := secrets.plain;
      var definition := Definition(request.id, request.kind, parsed.settings, refs.value);
      HeldDefinition(definition, request, parsed, secrets.plain, old(secrets.plain));
      if !ValidDefinition(definition) {
        HoldsGives(refs.value, parsed.secrets, secrets.plain, old(secrets.plain));
        DeleteNew(refs.value, faults.deletes);
        NoneOfThem(faults.deletes, |refs.value|);
        NewOnlyShrinks(secrets.plain, plain, old(secrets.plain.Keys), random, IdsOf(refs.value),
                       secrets.failedDeletes == old(secrets.failedDeletes));
        DeletedAgain(old(secrets.plain), plain, secrets.plain, IdsOf(refs.value),
                     secrets.failedDeletes == old(secrets.failedDeletes));
        return Err(InvalidConnectionString);
      }
      return Ok(definition);
    }

    /** No definition changed, no secret went, no runtime was touched. */
    twostate predicate Aborted()
      reads this, secrets, repository, registrar.Objects()
    {
      && repository.definitions == old(repository.definitions)
      && Extends(secrets.plain, old(secrets.plain))
      && registrar.States() == old(registrar.States())
    }

    /** One definition was replaced, by what was parsed, and the runtimes it concerns were invalidated. */
    twostate predicate Committed(request: Request, parsed: Parsed)
      reads this, secrets, repository, registrar.Objects()
    {
      && request.id in repository.definitions
      && repository.definitions == old(repository.definitions)[request.id := repository.definitions[request.id]]
      && IsImported(repository.definitions[request.id], request, parsed, secrets.plain)
      && registrar.States() ==
         InvalidatedIn(old(registrar.States()),
                       Touched(Previous(old(repository.definitions), request.id), request.kind), request.id)
    }

    /** No secret leaked, unless a deletion failed; secrets of other definitions are where and what they were. */
    twostate predicate Conserved(id: Bytes)
      reads this, secrets, repository
    {
      && (secrets.failedDeletes == old(secrets.failedDeletes) ==>
            Leaked(repository.definitions, secrets.plain.Keys)
              == Leaked(old(repository.definitions), old(secrets.plain.Keys)))
      && Unchanged(old(repository.definitions), old(secrets.plain), secrets.plain, id)
    }

    /**
     Import. Whatever fails, the stores and the manager agree afterwards, every reference resolves and none
     is shared. An error leaves the definitions and the runtimes as they were; a success replaces one
     definition, by one whose secrets are exactly the parsed ones, and invalidates the runtimes it concerns.
     Secrets leak only when a deletion failed.
     */
    method Import(request: Request, adapterFound: bool, parsed: Option<Parsed>, random: seq<Bytes>,
                  faults: Faults)
      returns (r: Result<ImportResult, ImportError>)
      requires Consistent()
      requires FreshIds(random, if parsed.Some? then |parsed.value.secrets| else 0, secrets.plain.Keys)
      modifies this, secrets, repository, registrar.manager, registrar.Objects()
      ensures Consistent() && Conserved(request.id) && secrets.failedDeletes >= old(secrets.failedDeletes)
      ensures NewOnly(secrets.plain.Keys, old(secrets.plain.Keys), random)
      ensures r.Err? ==> Aborted()
      ensures r.Ok? ==> parsed.Some? && Committed(request, parsed.value)
      ensures r.Ok? ==> r.value == ImportResult(request.id, request.id in old(repository.definitions))
      ensures r.Ok? <==> Succeeds(request, adapterFound, parsed, faults)
      ensures r == Err(InvalidConnectionString) <==>
                && !faults.ended && ValidID(request.id) && !Blank(request.kind) && adapterFound
                && (parsed.None? || !ValidParsed(request, parsed.value))
      ensures NoneFails(faults.deletes) ==> secrets.failedDeletes == old(secrets.failedDeletes)
      ensures r.Ok? ==> (secrets.failedDeletes == old(secrets.failedDeletes)
                         <==> AllWritten(faults.deletes, OldSecrets(old(repository.definitions), request.id)))
      ensures warnings == old(warnings) + if r.Ok? && secrets.failedDeletes > old(secrets.failedDeletes)
                                          then [request.id] else []
    {
      hide *;
      NothingDone(request.id);
      NewOnlyStarts(secrets.plain.Keys, random);
      NothingFails(request, adapterFound, parsed, faults);
      if faults.ended || !ValidDefinition(Definition(request.id, request.kind, map[], map[])) || !adapterFound {
        return Err(ImportUnavailable);
      }
      if parsed.None? || !ValidParsed(request, parsed.value) {
        return Err(InvalidConnectionString);
      }
      r := ImportParsed(request, parsed.value, random, faults);
    }

    /**
     Any sequence of imports, one after the other, with any failures. When no deletion fails, no secret leaks;
     and if none had leaked before, the live secrets are exactly those the stored definitions use.
     */
    method ImportAll(jobs: seq<Job>) returns (results: seq<Result<ImportResult, ImportError>>)
      requires Consistent() && FreshJobs(jobs, 0, secrets.plain.Keys)
      modifies this, secrets, repository, registrar.manager, registrar.Objects()
      ensures Consistent() && secrets.failedDeletes >= old(secrets.failedDeletes)
      ensures |results| == |jobs|
      ensures forall i | 0 <= i < |jobs| :: results[i].Ok? <==> JobSucceeds(jobs[i])
      ensures (forall i | 0 <= i < |jobs| :: NoneFails(jobs[i].faults.deletes)) ==>
                secrets.failedDeletes == old(secrets.failedDeletes)
      ensures secrets.failedDeletes == old(secrets.failedDeletes) ==>
                Leaked(repository.definitions, secrets.plain.Keys)
                  == Leaked(old(repository.definitions), old(secrets.plain.Keys))
      ensures secrets.failedDeletes == old(secrets.failedDeletes)
              && Leaked(old(repository.definitions), old(secrets.plain.Keys)) == {} ==>
                secrets.plain.Keys == Used(repository.definitions)
    {
      hide Leaked;
      hide FreshJobs;
      hide AllBacked;
      hide Used;
      hide NewOnly;
      hide Store.Valid;
      hide FileStore.Valid;
      hide ReplacementRegistrar.Ready;
      hide Succeeds;
      hide NoneFails;
      results := [];
      var i := 0;
      while i < |jobs|
        invariant 0 <= i <= |jobs|
        invariant Consistent() && secrets.failedDeletes >= old(secrets.failedDeletes)
        invariant FreshJobs(jobs, i, secrets.plain.Keys)
        invariant |results| == i && forall k | 0 <= k < i :: results[k].Ok? <==> JobSucceeds(jobs[k])
        invariant (forall k | 0 <= k < i :: NoneFails(jobs[k].faults.deletes)) ==>
                    secrets.failedDeletes == old(secrets.failedDeletes)
        invariant secrets.failedDeletes == old(secrets.failedDeletes) ==>
                    Leaked(repository.definitions, secrets.plain.Keys)
                      == Leaked(old(repository.definitions), old(secrets.plain.Keys))
      {
        ghost var live := secrets.plain.Keys;
        ThisJobFresh(jobs, i, live);
        var result := Import(jobs[i].request, jobs[i].adapterFound, jobs[i].parsed, jobs[i].random, jobs[i].faults);
        results := results + [result];
        NextJobFresh(jobs, i, live, secrets.plain.Keys);
        i := i + 1;
      }
      if Leaked(repository.definitions, secrets.plain.Keys) == {} {
        NothingLeaked(repository.definitions, secrets.plain.Keys);
      }
    }

    twostate lemma NothingDone(id: Bytes)
      requires registrar.States() == old(registrar.States()) && repository.definitions == old(repository.definitions)
      requires secrets.plain == old(secrets.plain)
      ensures Aborted() && Conserved(id)
    {
    }

    twostate lemma ConservedNow(id: Bytes)
      requires secrets.failedDeletes == old(secrets.failedDeletes) ==>
                 Leaked(repository.definitions, secrets.plain.Keys)
                   == Leaked(old(repository.definitions), old(secrets.plain.Keys))
      requires Unchanged(old(repository.definitions), old(secrets.plain), secrets.plain, id)
      ensures Conserved(id)
    {
    }

    twostate lemma AbortDone(id: Bytes)
      requires registrar.States() == old(registrar.States()) && repository.definitions == old(repository.definitions)
      requires Extends(secrets.plain, old(secrets.plain))
      requires secrets.failedDeletes == old(secrets.failedDeletes) ==> secrets.plain.Keys == old(secrets.plain.Keys)
      ensures Aborted() && Conserved(id)
    {
    }

    /** The part of Import that changes something. */
    method ImportParsed(request: Request, parsed: Parsed, random: seq<Bytes>, faults: Faults)
      returns (r: Result<ImportResult, ImportError>)
      requires Consistent()
      requires FreshIds(random, |parsed.secrets|, secrets.plain.Keys)
      modifies this, secrets, repository, registrar.manager, registrar.Objects()
      ensures Consistent() && Conserved(request.id) && secrets.failedDeletes >= old(secrets.failedDeletes)
      ensures NewOnly(secrets.plain.Keys, old(secrets.plain.Keys), random)
      ensures r.Err? ==> Aborted()
      ensures r.Ok? ==> Committed(request, parsed)
      ensures r.Ok? ==> r.value == ImportResult(request.id, request.id in old(repository.definitions))
      ensures r.Ok? <==> Saves(request, parsed, faults)
      ensures r == Err(InvalidConnectionString) <==>
                AllWritten(faults.puts, |parsed.secrets|) && !ValidParsed(request, parsed)
      ensures NoneFails(faults.deletes) ==> secrets.failedDeletes == old(secrets.failedDeletes)
      ensures r.Ok? ==> (secrets.failedDeletes == old(secrets.failedDeletes)
                         <==> AllWritten(faults.deletes, OldSecrets(old(repository.definitions), request.id)))
      ensures warnings == old(warnings) + if r.Ok? && secrets.failedDeletes > old(secrets.failedDeletes)
                                          then [request.id] else []
    {
      hide Holds;
      hide NewOnly;
      hide SecretId;
      hide IsLocal;
      hide IdsOf;
      hide AllBacked;
      hide Backed;
      hide Used;
      hide Leaked;
      hide ValidDefinition;
      hide ValidParsed;
      hide Deleted;
      hide Extends;
      hide IsImported;
      hide Imported;
      hide FreshIds;
      hide Touched;
      hide PreviousIds;
      hide Unchanged;
      hide Store.Valid;
      hide FileStore.Valid;
      hide ReplacementRegistrar.Ready;
      hide ReplacementRegistrar.States;
      hide InvalidatedIn;
      hide Aborted;
      hide Conserved;
      hide AllWritten;
      hide NoneFails;
      hide OldSecrets;
      hide Saves;
      ghost var defs, live := repository.definitions, secrets.plain;
      var saved := SaveDefinition(request, parsed, random, faults);
      if saved.Err? {
        AbortKeeps(defs, live, secrets.plain, request.id);
        AbortDone(request.id);
        return Err(saved.error);
      }
      var (definition, previous) := saved.value;
      ghost var stored := secrets.plain;
      ImportedGives(definition, request, parsed, stored, live);
      var registered := registrar.Register(definition);
      // The definition was validated before it was saved, so its registration cannot fail.
      assert registered.Some?;
      DropOld(request.id, previous, faults.deletes, defs, live);
      NewOnlyShrinks(secrets.plain, stored, live.Keys, random, PreviousIds(defs, request.id),
                     secrets.failedDeletes == old(secrets.failedDeletes));
      CommitKeeps(defs, definition, live, stored, secrets.plain, secrets.failedDeletes == old(secrets.failedDeletes));
      ImportedStays(defs, definition, request, parsed, stored, live, secrets.plain,
                    secrets.failedDeletes == old(secrets.failedDeletes));
      ConservedNow(request.id);
      return Ok(ImportResult(request.id, previous.Some?));
    }

    /** Stores the secrets and the definition; deletes the secrets again when the definition cannot be stored. */
    method SaveDefinition(request: Request, parsed: Parsed, random: seq<Bytes>, faults: Faults)
      returns (r: Result<(Definition, Option<Definition>), ImportError>)
      requires secrets.Valid() && repository.Valid()
      requires FreshIds(random, |parsed.secrets|, secrets.plain.Keys)
      modifies secrets, repository
      ensures secrets.Valid() && repository.Valid() && secrets.failedDeletes >= old(secrets.failedDeletes)
      ensures Extends(secrets.plain, old(secrets.plain))
      ensures r.Ok? ==>
                && Imported(r.value.0, request, parsed, secrets.plain, old(secrets.plain))
                && repository.definitions == old(repository.definitions)[request.id := r.value.0]
                && r.value.1 == Previous(old(repository.definitions), request.id)
                && secrets.failedDeletes == old(secrets.failedDeletes)
      ensures r.Err? ==> repository.definitions == old(repository.definitions)
      ensures r.Err? && secrets.failedDeletes == old(secrets.failedDeletes) ==>
                secrets.plain.Keys == old(secrets.plain.Keys)
      ensures NewOnly(secrets.plain.Keys, old(secrets.plain.Keys), random)
      ensures r.Ok? <==> Saves(request, parsed, faults)
      ensures r == Err(InvalidConnectionString) <==>
                AllWritten(faults.puts, |parsed.secrets|) && !ValidParsed(request, parsed)
      ensures NoneFails(faults.deletes) ==> secrets.failedDeletes == old(secrets.failedDeletes)
    {
      hide Holds;
      hide NewOnly;
      hide SecretId;
      hide IsLocal;
      hide IdsOf;
      hide Backed;
      hide ValidDefinition;
      hide ValidParsed;
      hide Deleted;
      hide Extends;
      hide IsImported;
      hide FreshIds;
      hide Store.Valid;
      hide FileStore.Valid;
      hide AllWritten;
      hide NoneFails;
      ghost var live := secrets.plain;
      var created := NewDefinition(request, parsed, random, faults);
      if created.Err? {
        return Err(created.error);
      }
      var definition := created.value;
      ghost var stored := secrets.plain;
      ImportedGives(definition, request, parsed, stored, live);
      var previous := repository.Lookup(request.id, faults.lookupEnded);
      if previous == Err(Unavailable) {
        DeleteNew(definition.secretRefs, faults.deletes);
        NoneOfThem(faults.deletes, |definition.secretRefs|);
        NewOnlyShrinks(secrets.plain, stored, live.Keys, random, IdsOf(definition.secretRefs),
                       secrets.failedDeletes == old(secrets.failedDeletes));
        DeletedAgain(live, stored, secrets.plain, IdsOf(definition.secretRefs),
                     secrets.failedDeletes == old(secrets.failedDeletes));
        return Err(ImportUnavailable);
      }
      var saved := repository.Upsert(definition, faults.upsert);
      if !saved {
        DeleteNew(definition.secretRefs, faults.deletes);
        NoneOfThem(faults.deletes, |definition.secretRefs|);
        NewOnlyShrinks(secrets.plain, stored, live.Keys, random, IdsOf(definition.secretRefs),
                       secrets.failedDeletes == old(secrets.failedDeletes));
        DeletedAgain(live, stored, secrets.plain, IdsOf(definition.secretRefs),
                     secrets.failedDeletes == old(secrets.failedDeletes));
        return Err(ImportUnavailable);
      }
      assert previous.Err? ==> previous.error.DefinitionNotFound?;
      return Ok((definition, if previous.Ok? then Some(previous.value) else None));
    }

    /**
     In a consistent state every secret of every registered definition resolves, so Prepare can fail on a
     registered id only because its context ended; and what was imported is what it delivers.
     */
    lemma EverythingResolves(id: Bytes)
      requires Consistent() && id in registrar.manager.definitions
      ensures var refs := registrar.manager.definitions[id].secretRefs;
        forall name | name in refs :: Resolution(secrets.plain, refs[name]) == Ok(secrets.plain[SecretId(refs[name])])
    {
      hide SecretId;
      hide IsLocal;
      hide Resolution;
      var refs := registrar.manager.definitions[id].secretRefs;
      assert Backed(refs, secrets.plain.Keys);
      forall name | name in refs
        ensures Resolution(secrets.plain, refs[name]) == Ok(secrets.plain[SecretId(refs[name])])
      {
        BackedResolves(refs[name], secrets.plain);
      }
    }

    lemma ImportedIsPrepared(request: Request, parsed: Parsed)
      requires Consistent() && request.id in registrar.manager.definitions
      requires IsImported(registrar.manager.definitions[request.id], request, parsed, secrets.plain)
      ensures forall name | name in registrar.manager.definitions[request.id].secretRefs ::
                Resolution(secrets.plain, registrar.manager.definitions[request.id].secretRefs[name]).Ok?
      ensures Prepared(registrar.manager.definitions[request.id], secrets.plain)
                == Resolved(request.id, request.kind, parsed.settings, parsed.secrets)
    {
      hide SecretId;
      hide IsLocal;
      hide Resolution;
      hide AllBacked;
      hide Store.Valid;
      hide FileStore.Valid;
      hide ReplacementRegistrar.Ready;
      EverythingResolves(request.id);
    }
  }

  lemma BackedResolves(ref: Bytes, plain: map<Bytes, Bytes>)
    requires IsLocal(ref) && SecretId(ref) in plain && Base64.Decode(SecretId(ref)).Some?
    ensures Resolution(plain, ref) == Ok(plain[SecretId(ref)])
  {
  }
}
