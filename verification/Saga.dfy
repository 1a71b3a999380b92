/**
 What imports are judged by: who uses which secret, what is backed by the store, what has leaked, and
 how each step of an import changes that.
 */
module Saga {
  import opened Common
  import opened Text
  import opened Connection
  import opened SecretStore
  import opened Registrar
  import Base64
  import Order
  import Reference

  type References = map<Bytes, Bytes>

  /** The ids a definition's references name. */
  function IdsOf(refs: References): set<Bytes> {
    set name | name in refs :: SecretId(refs[name])
  }

  function Used(defs: Definitions): set<Bytes> {
    set id, name | id in defs && name in defs[id].secretRefs :: SecretId(defs[id].secretRefs[name])
  }

  /** The references are local, name secrets in the store, and no two name the same. */
  ghost predicate Backed(refs: References, live: set<Bytes>) {
    && (forall name | name in refs :: IsLocal(refs[name]) && SecretId(refs[name]) in live)
    && (forall m, n | m in refs && n in refs && SecretId(refs[m]) == SecretId(refs[n]) :: m == n)
  }

  ghost predicate AllBacked(defs: Definitions, live: set<Bytes>) {
    && (forall id | id in defs :: Backed(defs[id].secretRefs, live))
    && (forall id, other | id in defs && other in defs && id != other ::
          IdsOf(defs[id].secretRefs) !! IdsOf(defs[other].secretRefs))
  }

  /** Secrets that no definition uses. */
  ghost function Leaked(defs: Definitions, live: set<Bytes>): set<Bytes> {
    live - Used(defs)
  }

  function PreviousIds(defs: Definitions, id: Bytes): set<Bytes> {
    if id in defs then IdsOf(defs[id].secretRefs) else {}
  }

  lemma UsedIsLive(defs: Definitions, live: set<Bytes>)
    requires AllBacked(defs, live)
    ensures Used(defs) <= live
  {
    forall x | x in Used(defs) ensures x in live {
      var id, name :| id in defs && name in defs[id].secretRefs && x == SecretId(defs[id].secretRefs[name]);
      assert Backed(defs[id].secretRefs, live);
    }
  }

  lemma UsedHas(defs: Definitions, id: Bytes)
    requires id in defs
    ensures IdsOf(defs[id].secretRefs) <= Used(defs)
  {
  }

  /** A restart reads the definitions as they were written: the same secrets are in use, and none is shared or lost. */
  lemma RestartBacks(defs: Definitions, live: set<Bytes>)
    requires Keyed(defs) && AllBacked(defs, live)
    ensures AllBacked(StoredAll(defs), live)
    ensures Used(StoredAll(defs)) == Used(defs) && Leaked(StoredAll(defs), live) == Leaked(defs, live)
  {
    hide Stored;
    hide ValidDefinition;
    var next := StoredAll(defs);
    forall id | id in defs ensures next[id].secretRefs == defs[id].secretRefs {
      StoredIsValid(defs[id]);
    }
    forall id | id in next ensures Backed(next[id].secretRefs, live) {
      assert Backed(defs[id].secretRefs, live);
    }
    forall x ensures x in Used(next) <==> x in Used(defs) {
      if x in Used(next) {
        var id, name :| id in next && name in next[id].secretRefs && x == SecretId(next[id].secretRefs[name]);
        assert id in defs && name in defs[id].secretRefs;
      }
      if x in Used(defs) {
        var id, name :| id in defs && name in defs[id].secretRefs && x == SecretId(defs[id].secretRefs[name]);
        assert id in next && name in next[id].secretRefs;
      }
    }
  }

  /** Replacing one definition: its new secrets come in, its old ones may go, the others' stay. */
  lemma ReplaceKeeps(defs: Definitions, d: Definition, live: set<Bytes>, live': set<Bytes>)
    requires AllBacked(defs, live) && Backed(d.secretRefs, live') && IdsOf(d.secretRefs) !! live
    requires live - PreviousIds(defs, d.id) <= live'
    ensures AllBacked(defs[d.id := d], live')
  {
    var next := defs[d.id := d];
    UsedIsLive(defs, live);
    forall id | id in next ensures Backed(next[id].secretRefs, live') {
      if id != d.id {
        OtherStays(defs, d.id, id, live, live');
      }
    }
    forall id, other | id in next && other in next && id != other
      ensures IdsOf(next[id].secretRefs) !! IdsOf(next[other].secretRefs)
    {
      if id == d.id { UsedHas(defs, other); }
      if other == d.id { UsedHas(defs, id); }
    }
  }

  lemma OtherStays(defs: Definitions, replaced: Bytes, id: Bytes, live: set<Bytes>, live': set<Bytes>)
    requires AllBacked(defs, live) && id in defs && id != replaced
    requires live - PreviousIds(defs, replaced) <= live'
    ensures Backed(defs[id].secretRefs, live')
  {
    var refs := defs[id].secretRefs;
    forall name | name in refs ensures IsLocal(refs[name]) && SecretId(refs[name]) in live' {
      assert Backed(refs, live);
      assert SecretId(refs[name]) in IdsOf(refs);
    }
    assert Backed(refs, live);
  }

  lemma UsedReplaced(defs: Definitions, d: Definition, live: set<Bytes>)
    requires AllBacked(defs, live)
    ensures Used(defs[d.id := d]) == Used(defs) - PreviousIds(defs, d.id) + IdsOf(d.secretRefs)
  {
    hide SecretId;
    hide Backed;
    var next := defs[d.id := d];
    forall x ensures x in Used(next) <==> x in Used(defs) - PreviousIds(defs, d.id) + IdsOf(d.secretRefs) {
      if x in Used(next) {
        var id, name :| id in next && name in next[id].secretRefs && x == SecretId(next[id].secretRefs[name]);
        if id != d.id {
          assert x in IdsOf(defs[id].secretRefs);
          assert x in Used(defs);
        }
      }
      if x in Used(defs) && x !in PreviousIds(defs, d.id) {
        var id, name :| id in defs && name in defs[id].secretRefs && x == SecretId(defs[id].secretRefs[name]);
        assert id in next && name in next[id].secretRefs;
      }
      if x in IdsOf(d.secretRefs) {
        var name :| name in d.secretRefs && x == SecretId(d.secretRefs[name]);
        assert next[d.id].secretRefs[name] == d.secretRefs[name];
      }
    }
  }

  /** When all old secrets are deleted, no secret leaks that did not before. */
  lemma LeakedReplaced(defs: Definitions, d: Definition, live: set<Bytes>)
    requires AllBacked(defs, live) && IdsOf(d.secretRefs) !! live
    ensures Leaked(defs[d.id := d], live + IdsOf(d.secretRefs) - PreviousIds(defs, d.id)) == Leaked(defs, live)
  {
    UsedReplaced(defs, d, live);
    UsedIsLive(defs, live);
    if d.id in defs { UsedHas(defs, d.id); }
  }

  // ---- The operation ----

  datatype Request = Request(id: Bytes, kind: Bytes)

  datatype ImportResult = ImportResult(id: Bytes, isUpdated: bool)

  datatype ImportError = ImportUnavailable | InvalidConnectionString

  const PLACEHOLDER: Bytes := Ascii("local://validation")

  const VALIDATION: Bytes := [118, 97, 108, 105, 100, 97, 116, 105, 111, 110]

  lemma PlaceholderIsValid()
    ensures Reference.Valid(PLACEHOLDER)
  {
    hide *;
    PlaceholderParts();
    ValidationIsVisible();
    Reference.LocalScheme();
    Reference.CutAfter(Reference.LOCAL, VALIDATION);
    PlaceholderParses();
  }

  lemma PlaceholderParses()
    requires Reference.Cut(PLACEHOLDER) == Some((Reference.LOCAL, VALIDATION)) && Reference.Visible(VALIDATION)
    ensures Reference.Valid(PLACEHOLDER)
  {
    hide Reference.Cut;
    hide Reference.Visible;
  }

  lemma PlaceholderParts()
    ensures PLACEHOLDER == Reference.LOCAL + Reference.SEPARATOR + VALIDATION
  {
  }

  lemma ValidationIsVisible()
    ensures Reference.Visible(VALIDATION)
  {
    hide Reference.Visible;
    Reference.LettersAreVisible(VALIDATION);
  }

  /** validateParsed: the names, with a reference that is known to be valid. */
  predicate ValidParsed(request: Request, parsed: Parsed) {
    ValidDefinition(Definition(request.id, request.kind, parsed.settings,
                               map name | name in parsed.secrets :: PLACEHOLDER))
  }

  /** A definition with validated names and valid references is valid. */
  lemma ParsedIsDefinition(request: Request, parsed: Parsed, refs: References)
    requires refs.Keys == parsed.secrets.Keys && forall name | name in refs :: IsLocal(refs[name])
    ensures var d := Definition(request.id, request.kind, parsed.settings, refs);
      ValidDefinition(d) <==> ValidParsed(request, parsed)
  {
    PlaceholderIsValid();
  }

  /** Random ids that no secret has, no two the same. */
  ghost predicate FreshIds(random: seq<Bytes>, n: nat, live: set<Bytes>) {
    && n <= |random|
    && (forall i | 0 <= i < |random| :: |random[i]| == SECRET_ID_SIZE && Base64.Encode(random[i]) !in live)
    && (forall i, j | 0 <= i < j < |random| :: Base64.Encode(random[i]) != Base64.Encode(random[j]))
  }

  /** The ids that these random bytes make. */
  function Generated(random: seq<Bytes>): set<Bytes> {
    set i | 0 <= i < |random| :: Base64.Encode(random[i])
  }

  /** What is live now was live before, or has one of the new ids. */
  ghost predicate NewOnly(after: set<Bytes>, before: set<Bytes>, random: seq<Bytes>) {
    after <= before + Generated(random)
  }

  lemma NewOnlyStarts(live: set<Bytes>, random: seq<Bytes>)
    ensures NewOnly(live, live, random)
  {
  }

  lemma NewOnlyGrows(after: set<Bytes>, before: set<Bytes>, random: seq<Bytes>, i: nat)
    requires NewOnly(after, before, random) && i < |random|
    ensures NewOnly(after + {Base64.Encode(random[i])}, before, random)
  {
    hide Base64.Encode;
  }

  lemma NewOnlyShrinks(after: map<Bytes, Bytes>, middle: map<Bytes, Bytes>, before: set<Bytes>, random: seq<Bytes>,
                       ids: set<Bytes>, all: bool)
    requires NewOnly(middle.Keys, before, random) && Deleted(middle, after, ids, all)
    ensures NewOnly(after.Keys, before, random)
  {
    hide Generated;
    assert forall id | id in after.Keys :: id in middle;
  }

  // ---- What may fail ----

  /**
   How what an import asks of its context and its stores fares: its context has ended at the start, the k-th secret
   is stored, the lookup of the previous definition finds its context ended, the definition is written, the k-th
   deletion is made.
   */
  datatype Faults = Faults(ended: bool, puts: nat -> Write, lookupEnded: bool, upsert: Write, deletes: nat -> Write)

  /** The first n are written. */
  ghost predicate AllWritten(fates: nat -> Write, n: nat) {
    forall k: nat | k < n :: fates(k) == Written
  }

  /** None is not written. */
  ghost predicate NoneFails(fates: nat -> Write) {
    forall k: nat :: fates(k) == Written
  }

  lemma AllWrittenStarts(fates: nat -> Write)
    ensures AllWritten(fates, 0)
  {
  }

  lemma AllWrittenNext(fates: nat -> Write, n: nat)
    ensures AllWritten(fates, n + 1) <==> AllWritten(fates, n) && fates(n) == Written
  {
  }

  lemma AllWrittenLess(fates: nat -> Write, m: nat, n: nat)
    requires !AllWritten(fates, m) && m <= n
    ensures !AllWritten(fates, n)
  {
  }

  lemma NoneOfThem(fates: nat -> Write, n: nat)
    ensures NoneFails(fates) ==> AllWritten(fates, n)
  {
  }

  /** How many secrets the definition of the id has. */
  function OldSecrets(defs: Definitions, id: Bytes): nat {
    if id in defs then |defs[id].secretRefs| else 0
  }

  /** A good connection is stored when nothing fails. */
  ghost predicate Saves(request: Request, parsed: Parsed, faults: Faults) {
    && AllWritten(faults.puts, |parsed.secrets|) && ValidParsed(request, parsed)
    && !faults.lookupEnded && faults.upsert == Written
  }

  /** The request and the connection it is for are good, and nothing that the import needs fails. */
  ghost predicate Succeeds(request: Request, adapterFound: bool, parsed: Option<Parsed>, faults: Faults) {
    && !faults.ended && ValidID(request.id) && !Blank(request.kind) && adapterFound
    && parsed.Some? && ValidParsed(request, parsed.value)
    && AllWritten(faults.puts, |parsed.value.secrets|) && !faults.lookupEnded && faults.upsert == Written
  }

  lemma NothingFails(request: Request, adapterFound: bool, parsed: Option<Parsed>, faults: Faults)
    ensures ValidDefinition(Definition(request.id, request.kind, map[], map[]))
            <==> ValidID(request.id) && !Blank(request.kind)
    ensures parsed.Some? ==> (Succeeds(request, adapterFound, parsed, faults) <==>
              && !faults.ended && ValidID(request.id) && !Blank(request.kind) && adapterFound
              && Saves(request, parsed.value, faults))
    ensures Succeeds(request, adapterFound, parsed, faults) ==>
              && parsed.Some? && !faults.ended && ValidID(request.id) && !Blank(request.kind) && adapterFound
              && ValidParsed(request, parsed.value)
    ensures NoneFails(faults.deletes) ==> AllWritten(faults.deletes, 0)
  {
  }

  // ---- Sequences of imports ----

  /** One import, with what its adapter makes of it, the random bytes it draws and how what it asks for fares. */
  datatype Job = Job(request: Request, adapterFound: bool, parsed: Option<Parsed>, random: seq<Bytes>, faults: Faults)

  ghost predicate JobSucceeds(job: Job) {
    Succeeds(job.request, job.adapterFound, job.parsed, job.faults)
  }

  function SecretsIn(job: Job): nat {
    if job.parsed.Some? then |job.parsed.value.secrets| else 0
  }

  /** From this job on, each draws ids that are not live, and no two jobs draw the same. */
  ghost predicate FreshJobs(jobs: seq<Job>, n: nat, live: set<Bytes>) {
    && (forall i | n <= i < |jobs| :: FreshIds(jobs[i].random, SecretsIn(jobs[i]), live))
    && (forall i, j | 0 <= i < j < |jobs| :: Generated(jobs[i].random) !! Generated(jobs[j].random))
  }

  lemma NextJobFresh(jobs: seq<Job>, n: nat, live: set<Bytes>, live': set<Bytes>)
    requires n < |jobs| && FreshJobs(jobs, n, live) && NewOnly(live', live, jobs[n].random)
    ensures FreshJobs(jobs, n + 1, live')
  {
    hide Base64.Encode;
    forall i | n + 1 <= i < |jobs| ensures FreshIds(jobs[i].random, SecretsIn(jobs[i]), live') {
      assert FreshIds(jobs[i].random, SecretsIn(jobs[i]), live);
      forall k | 0 <= k < |jobs[i].random| ensures Base64.Encode(jobs[i].random[k]) !in live' {
        assert Base64.Encode(jobs[i].random[k]) in Generated(jobs[i].random);
      }
    }
  }

  lemma ThisJobFresh(jobs: seq<Job>, n: nat, live: set<Bytes>)
    requires n < |jobs| && FreshJobs(jobs, n, live)
    ensures FreshIds(jobs[n].random, SecretsIn(jobs[n]), live)
  {
  }

  /** With nothing leaked, what is live is what is used. */
  lemma NothingLeaked(defs: Definitions, live: set<Bytes>)
    requires AllBacked(defs, live) && Leaked(defs, live) == {}
    ensures live == Used(defs)
  {
    hide AllBacked;
    hide Used;
    UsedIsLive(defs, live);
    assert live == Leaked(defs, live) + Used(defs);
  }

  /** `plain` kept all of `before`, unchanged. */
  ghost predicate Extends(plain: map<Bytes, Bytes>, before: map<Bytes, Bytes>) {
    forall id | id in before :: id in plain && plain[id] == before[id]
  }

  /** The references are to new secrets, one each, holding these values; nothing else is new. */
  ghost predicate Holds(refs: References, values: map<Bytes, Bytes>, plain: map<Bytes, Bytes>,
                        before: map<Bytes, Bytes>)
  {
    && refs.Keys <= values.Keys
    && Backed(refs, plain.Keys)
    && IdsOf(refs) !! before.Keys
    && plain.Keys == before.Keys + IdsOf(refs)
    && Extends(plain, before)
    && forall name | name in refs && SecretId(refs[name]) in plain :: plain[SecretId(refs[name])] == values[name]
  }

  lemma IdsOfAdd(refs: References, name: Bytes, ref: Bytes)
    requires name !in refs
    ensures IdsOf(refs[name := ref]) == IdsOf(refs) + {SecretId(ref)}
  {
    hide SecretId;
    var next := refs[name := ref];
    forall x ensures x in IdsOf(next) <==> x in IdsOf(refs) || x == SecretId(ref) {
      if x in IdsOf(refs) {
        var n :| n in refs && x == SecretId(refs[n]);
        assert next[n] == refs[n];
      }
      assert next[name] == ref;
    }
  }

  lemma HoldsOneMore(refs: References, values: map<Bytes, Bytes>, plain: map<Bytes, Bytes>, before: map<Bytes, Bytes>,
                     name: Bytes, ref: Bytes)
    requires Holds(refs, values, plain, before) && name in values && name !in refs
    requires IsLocal(ref) && SecretId(ref) !in plain
    ensures Holds(refs[name := ref], values, plain[SecretId(ref) := values[name]], before)
  {
    hide SecretId;
    hide IsLocal;
    var next, id := refs[name := ref], SecretId(ref);
    IdsOfAdd(refs, name, ref);
    forall n | n in refs ensures SecretId(refs[n]) != id {
      assert SecretId(refs[n]) in IdsOf(refs);
    }
  }

  /** Of these secrets some were deleted, all of them unless a deletion failed, and nothing else changed. */
  ghost predicate Deleted(before: map<Bytes, Bytes>, after: map<Bytes, Bytes>, ids: set<Bytes>, all: bool) {
    && Extends(before, after)
    && before.Keys - ids <= after.Keys
    && (all ==> after.Keys == before.Keys - ids)
  }

  function IdsAmong(refs: References, names: set<Bytes>): (ids: set<Bytes>)
    ensures names == refs.Keys ==> ids == IdsOf(refs)
  {
    set name | name in names && name in refs :: SecretId(refs[name])
  }

  lemma IdsAmongAdd(refs: References, names: set<Bytes>, name: Bytes)
    requires name in refs
    ensures IdsAmong(refs, names + {name}) == IdsAmong(refs, names) + {SecretId(refs[name])}
  {
  }

  lemma IdsAmongAll(refs: References)
    ensures IdsAmong(refs, refs.Keys) == IdsOf(refs)
  {
  }

  lemma IdsAmongMore(refs: References, names: set<Bytes>)
    ensures IdsAmong(refs, names) <= IdsOf(refs)
  {
  }

  /** A set, of which n members had their turn. */
  ghost predicate Parted(all: set<Bytes>, rest: set<Bytes>, done: set<Bytes>, n: nat) {
    rest + done == all && rest !! done && |done| == n
  }

  lemma NothingParted(all: set<Bytes>)
    ensures Parted(all, all, {}, 0)
  {
  }

  lemma PartedNext(all: set<Bytes>, rest: set<Bytes>, done: set<Bytes>, n: nat, x: Bytes)
    requires Parted(all, rest, done, n) && x in rest
    ensures Parted(all, rest - {x}, done + {x}, n + 1) && x in all && x !in done && n + 1 <= |all|
  {
    var next := done + {x};
    assert |all| == |next| + |all - next|;
  }

  lemma AllParted(all: set<Bytes>, rest: set<Bytes>, done: set<Bytes>, n: nat)
    requires Parted(all, rest, done, n) && rest == {}
    ensures done == all && n == |all|
  {
  }

  lemma NothingDeleted(plain: map<Bytes, Bytes>, refs: References, fates: nat -> Write)
    ensures Deleted(plain, plain, IdsAmong(refs, {}), true) && AllWritten(fates, 0)
  {
  }

  /** What has not had its turn is still in the store. */
  lemma StillThere(refs: References, done: set<Bytes>, name: Bytes, before: map<Bytes, Bytes>,
                   after: map<Bytes, Bytes>, all: bool)
    requires Backed(refs, before.Keys) && name in refs && name !in done
    requires Deleted(before, after, IdsAmong(refs, done), all)
    ensures IsLocal(refs[name]) && SecretId(refs[name]) in after
  {
    hide SecretId;
    hide IsLocal;
  }

  lemma DeletedNext(refs: References, done: set<Bytes>, name: Bytes, before: map<Bytes, Bytes>,
                    middle: map<Bytes, Bytes>, after: map<Bytes, Bytes>, all: bool, ok: bool)
    requires name in refs && Deleted(before, middle, IdsAmong(refs, done), all)
    requires after == if ok then middle - {SecretId(refs[name])} else middle
    ensures Deleted(before, after, IdsAmong(refs, done + {name}), all && ok)
  {
    hide SecretId;
    IdsAmongAdd(refs, done, name);
  }

  lemma DeletedMore(before: map<Bytes, Bytes>, after: map<Bytes, Bytes>, refs: References, done: set<Bytes>)
    requires Deleted(before, after, IdsAmong(refs, done), false)
    ensures Deleted(before, after, IdsOf(refs), false)
  {
    IdsAmongMore(refs, done);
  }

  /** The references of a definition that is to be replaced lead to secrets that are still there. */
  lemma OldAreBacked(defs: Definitions, id: Bytes, previous: Option<Definition>, live: map<Bytes, Bytes>,
                     stored: map<Bytes, Bytes>)
    requires AllBacked(defs, live.Keys) && Extends(stored, live) && previous == Previous(defs, id)
    ensures previous.Some? ==>
              Backed(previous.value.secretRefs, stored.Keys) && OldSecrets(defs, id) == |previous.value.secretRefs|
    ensures previous.None? ==> OldSecrets(defs, id) == 0
  {
    hide SecretId;
    hide IsLocal;
    if id in defs {
      assert Backed(defs[id].secretRefs, live.Keys);
    }
  }

  lemma HeldDefinition(d: Definition, request: Request, parsed: Parsed, plain: map<Bytes, Bytes>,
                       before: map<Bytes, Bytes>)
    requires d == Definition(request.id, request.kind, parsed.settings, d.secretRefs)
    requires d.secretRefs.Keys == parsed.secrets.Keys && Holds(d.secretRefs, parsed.secrets, plain, before)
    ensures ValidDefinition(d) <==> ValidParsed(request, parsed)
    ensures ValidDefinition(d) ==> Imported(d, request, parsed, plain, before)
  {
    hide IsLocal;
    hide SecretId;
    hide ValidDefinition;
    ParsedIsDefinition(request, parsed, d.secretRefs);
  }

  lemma AbortKeeps(defs: Definitions, before: map<Bytes, Bytes>, after: map<Bytes, Bytes>, id: Bytes)
    requires AllBacked(defs, before.Keys) && Extends(after, before)
    ensures AllBacked(defs, after.Keys) && Unchanged(defs, before, after, id)
  {
    hide IsLocal;
    hide SecretId;
    hide IdsOf;
  }

  lemma ImportedGives(d: Definition, request: Request, parsed: Parsed, plain: map<Bytes, Bytes>,
                      before: map<Bytes, Bytes>)
    requires Imported(d, request, parsed, plain, before)
    ensures d.id == request.id && d.kind == request.kind && ValidDefinition(d)
    ensures Extends(plain, before) && IdsOf(d.secretRefs) !! before.Keys
    ensures plain.Keys - IdsOf(d.secretRefs) == before.Keys && plain.Keys == before.Keys + IdsOf(d.secretRefs)
    ensures Backed(d.secretRefs, plain.Keys)
  {
  }

  lemma PreviousGone(defs: Definitions, id: Bytes, previous: Option<Definition>,
                     before: map<Bytes, Bytes>, after: map<Bytes, Bytes>, all: bool)
    requires previous == Previous(defs, id)
    requires if previous.Some? then Deleted(before, after, IdsOf(previous.value.secretRefs), all) else before == after
    ensures Deleted(before, after, PreviousIds(defs, id), all)
  {
  }

  lemma CommitKeeps(defs: Definitions, d: Definition, live: map<Bytes, Bytes>, stored: map<Bytes, Bytes>,
                    after: map<Bytes, Bytes>, all: bool)
    requires AllBacked(defs, live.Keys) && Backed(d.secretRefs, stored.Keys) && IdsOf(d.secretRefs) !! live.Keys
    requires stored.Keys == live.Keys + IdsOf(d.secretRefs) && Extends(stored, live)
    requires Deleted(stored, after, PreviousIds(defs, d.id), all)
    ensures AllBacked(defs[d.id := d], after.Keys)
    ensures all ==> Leaked(defs[d.id := d], after.Keys) == Leaked(defs, live.Keys)
    ensures Unchanged(defs, live, after, d.id)
  {
    hide SecretId;
    hide IsLocal;
    hide AllBacked;
    hide Leaked;
    hide Used;
    PreviousIsLive(defs, d.id, live.Keys);
    NewStay(d.secretRefs, stored.Keys, after.Keys, PreviousIds(defs, d.id));
    ReplaceKeeps(defs, d, live.Keys, after.Keys);
    LeakedReplaced(defs, d, live.Keys);
    if all {
      assert after.Keys == live.Keys + IdsOf(d.secretRefs) - PreviousIds(defs, d.id);
    }
  }

  lemma PreviousIsLive(defs: Definitions, id: Bytes, live: set<Bytes>)
    requires AllBacked(defs, live)
    ensures PreviousIds(defs, id) <= live
  {
    hide SecretId;
    hide IsLocal;
  }

  lemma NewStay(refs: References, live: set<Bytes>, live': set<Bytes>, gone: set<Bytes>)
    requires Backed(refs, live) && live - gone <= live' && IdsOf(refs) !! gone
    ensures Backed(refs, live')
  {
    hide SecretId;
    hide IsLocal;
    forall name | name in refs ensures SecretId(refs[name]) in live' {
      assert SecretId(refs[name]) in IdsOf(refs);
    }
  }

  lemma ImportedStays(defs: Definitions, d: Definition, request: Request, parsed: Parsed, stored: map<Bytes, Bytes>,
                      live: map<Bytes, Bytes>, after: map<Bytes, Bytes>, all: bool)
    requires AllBacked(defs, live.Keys) && Imported(d, request, parsed, stored, live)
    requires Deleted(stored, after, PreviousIds(defs, request.id), all)
    ensures IsImported(d, request, parsed, after)
  {
    hide SecretId;
    hide IsLocal;
    hide ValidDefinition;
    PreviousIsLive(defs, request.id, live.Keys);
    forall name | name in d.secretRefs
      ensures SecretId(d.secretRefs[name]) in after && after[SecretId(d.secretRefs[name])] == parsed.secrets[name]
    {
      assert SecretId(d.secretRefs[name]) in IdsOf(d.secretRefs);
    }
  }

  /** The definition says what was parsed, and its references lead to the parsed values. */
  ghost predicate IsImported(d: Definition, request: Request, parsed: Parsed, plain: map<Bytes, Bytes>) {
    && d.id == request.id && d.kind == request.kind && d.settings == parsed.settings
    && d.secretRefs.Keys == parsed.secrets.Keys
    && forall name | name in d.secretRefs ::
         IsLocal(d.secretRefs[name]) && SecretId(d.secretRefs[name]) in plain
         && plain[SecretId(d.secretRefs[name])] == parsed.secrets[name]
  }

  ghost predicate Imported(d: Definition, request: Request, parsed: Parsed, plain: map<Bytes, Bytes>,
                           before: map<Bytes, Bytes>)
  {
    && IsImported(d, request, parsed, plain)
    && ValidDefinition(d)
    && Holds(d.secretRefs, parsed.secrets, plain, before)
  }

  /** Secrets other than those of the imported id are where and what they were. */
  ghost predicate Unchanged(defs: Definitions, before: map<Bytes, Bytes>, after: map<Bytes, Bytes>, id: Bytes) {
    forall x | x in before && x !in PreviousIds(defs, id) :: x in after && after[x] == before[x]
  }

  /** The references are for the first names. */
  ghost predicate Named(refs: References, names: seq<Bytes>, n: nat) {
    n <= |names| && refs.Keys == set k | 0 <= k < n :: names[k]
  }

  ghost predicate NamesOf(names: seq<Bytes>, values: map<Bytes, Bytes>) {
    && |names| == |values|
    && values.Keys == (set k | 0 <= k < |names| :: names[k])
    && forall i, j | 0 <= i < j < |names| :: names[i] != names[j]
  }

  lemma NextName(refs: References, names: seq<Bytes>, i: nat, values: map<Bytes, Bytes>)
    requires Named(refs, names, i) && NamesOf(names, values) && i < |names|
    ensures names[i] in values && names[i] !in refs
  {
  }

  lemma NamedNext(refs: References, names: seq<Bytes>, i: nat, ref: Bytes)
    requires Named(refs, names, i) && i < |names|
    ensures Named(refs[names[i] := ref], names, i + 1)
  {
  }

  lemma AllNamed(refs: References, names: seq<Bytes>, values: map<Bytes, Bytes>)
    requires Named(refs, names, |names|) && NamesOf(names, values)
    ensures refs.Keys == values.Keys
  {
  }

  /** The random ids from this one on belong to no secret. */
  ghost predicate Unused(random: seq<Bytes>, i: nat, live: set<Bytes>) {
    && (forall k | i <= k < |random| :: Base64.Encode(random[k]) !in live)
    && (forall k | i <= k < |random| :: |random[k]| == SECRET_ID_SIZE)
    && (forall k, l | 0 <= k < l < |random| :: Base64.Encode(random[k]) != Base64.Encode(random[l]))
  }

  lemma FreshFrom(random: seq<Bytes>, n: nat, live: set<Bytes>)
    requires FreshIds(random, n, live)
    ensures Unused(random, 0, live) && n <= |random|
  {
    hide Base64.Encode;
  }

  lemma NextUnused(random: seq<Bytes>, i: nat, live: set<Bytes>)
    requires Unused(random, i, live) && i < |random|
    ensures |random[i]| == SECRET_ID_SIZE && Base64.Encode(random[i]) !in live
    ensures Unused(random, i + 1, live + {Base64.Encode(random[i])})
  {
    hide Base64.Encode;
  }

  lemma DeletedAgain(before: map<Bytes, Bytes>, middle: map<Bytes, Bytes>, after: map<Bytes, Bytes>,
                     ids: set<Bytes>, all: bool)
    requires Extends(middle, before) && ids !! before.Keys && middle.Keys - ids == before.Keys
    requires Deleted(middle, after, ids, all)
    ensures Extends(after, before) && (all ==> after.Keys == before.Keys)
  {
  }

  lemma NamesAreKeys(names: seq<Bytes>, values: map<Bytes, Bytes>)
    requires names == Order.SortedOf(values.Keys)
    ensures NamesOf(names, values) && |names| == |values|
  {
    hide Order.Less;
    hide Order.SortedOf;
    Order.IncreasingDiffer(names);
    Order.SortedCount(values.Keys);
    assert values.Keys == set x | x in names;
  }

  lemma NothingHeld(values: map<Bytes, Bytes>, plain: map<Bytes, Bytes>, names: seq<Bytes>)
    ensures Holds(map[], values, plain, plain) && Named(map[], names, 0)
  {
  }

  lemma HoldsGives(refs: References, values: map<Bytes, Bytes>, plain: map<Bytes, Bytes>, before: map<Bytes, Bytes>)
    requires Holds(refs, values, plain, before)
    ensures Backed(refs, plain.Keys) && Extends(plain, before)
    ensures IdsOf(refs) !! before.Keys && plain.Keys - IdsOf(refs) == before.Keys
  {
  }
}
