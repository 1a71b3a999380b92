/** What the opener guarantees over every run, under every interleaving of its steps. */
module OpenerTheorems {
  import opened Common
  import opened OpenerModel
  import opened OpenerInvariant
  import opened OpenerFreshness
  import opened OpenerCloseErrors

  // ---- Induction over runs ----

  lemma InitHolds(c: Config, s: State)
    requires Init(s)
    ensures Inv(s.opener) && Fresh(c, s) && Indexed(s.opener)
  {
  }

  lemma StepHolds(c: Config, s: State, act: Action, s': State)
    requires Inv(s.opener) && Fresh(c, s) && Step(c, s, act, s')
    ensures Inv(s'.opener) && Fresh(c, s') && Indexed(s'.opener)
  {
    StepKeeps(c, s, act);
    StepFresh(c, s, act);
    TablesAreIndexed(s'.opener);
  }

  /** The invariants hold in every state of every run. */
  lemma {:induction false} RunHolds(c: Config, states: seq<State>, acts: seq<Action>, i: nat)
    requires IsRun(c, states, acts) && i < |states|
    ensures Inv(states[i].opener) && Fresh(c, states[i]) && Indexed(states[i].opener)
    decreases i
  {
    hide Inv;
    hide Fresh;
    if i == 0 {
      InitHolds(c, states[0]);
    } else {
      RunHolds(c, states, acts, i - 1);
      StepHolds(c, states[i - 1], acts[i - 1], states[i]);
    }
  }

  // ---- Pools: conservation and shutdown ----

  /** The pool is in this place. */
  ghost predicate Holds(o: Opener, p: nat, place: Owner) {
    match place
    case ByAttempt(a) => a < |o.attempts| && HeldPool(o.attempts[a].phase) == Some(p)
    case ByEntry(id) => id in o.entries && o.entries[id].client == Some(p)
    case ByCloser(k) => k < |o.closers| && o.closers[k].pool == p
  }

  lemma HolderOwns(o: Opener, p: nat, place: Owner)
    requires Tables(o) && p < |o.pools| && Holds(o, p, place)
    ensures place == o.pools[p].owner
  {
    match place
    case ByAttempt(a) => assert AttemptOk(o, a);
    case ByEntry(id) => assert EntryOk(o, id);
    case ByCloser(k) => assert CloserOk(o, k);
  }

  /** Every pool is in exactly one place, and its Close runs at most once, from the closer that holds it. */
  lemma PoolConservation(c: Config, states: seq<State>, acts: seq<Action>, i: nat, p: nat) returns (place: Owner)
    requires IsRun(c, states, acts) && i < |states| && p < |states[i].opener.pools|
    ensures Holds(states[i].opener, p, place)
    ensures forall other | Holds(states[i].opener, p, other) :: other == place
    ensures states[i].opener.pools[p].closeCalls ==
      if place.ByCloser? && !states[i].opener.closers[place.closer].stage.Spawned? then 1 else 0
  {
    RunHolds(c, states, acts, i);
    var o := states[i].opener;
    assert PoolOk(o, p);
    place := o.pools[p].owner;
    forall other | Holds(o, p, other) ensures other == place {
      HolderOwns(o, p, other);
    }
  }

  /** closeDone closes only after every attempt has gone and every pool ever made has been closed once. */
  lemma ClosedMeansDrained(c: Config, states: seq<State>, acts: seq<Action>, i: nat)
    requires IsRun(c, states, acts) && i < |states| && states[i].opener.completer.Completed?
    ensures var o := states[i].opener;
      && o.isClosed && o.entries == map[]
      && (forall a | 0 <= a < |o.attempts| :: o.attempts[a].phase.Gone? && o.attempts[a].closes == 1)
      && (forall p | 0 <= p < |o.pools| :: o.pools[p].closeCalls == 1)
  {
    RunHolds(c, states, acts, i);
    var o := states[i].opener;
    SumByZero(o.attempts, LiveAttempt);
    SumByZero(o.closers, LiveCloser);
    forall a | 0 <= a < |o.attempts| ensures o.attempts[a].phase.Gone? && o.attempts[a].closes == 1 {
      assert AttemptOk(o, a) && LiveAttempt(o.attempts[a]) == 0;
    }
    forall p | 0 <= p < |o.pools| ensures o.pools[p].closeCalls == 1 {
      assert PoolOk(o, p);
      if o.pools[p].owner.ByCloser? {
        assert LiveCloser(o.closers[o.pools[p].owner.closer]) == 0;
      }
    }
  }

  ghost predicate PastAttemptsWait(o: Opener) {
    o.completer.WaitingClosers? || o.completer.Completed?
  }

  /**
   No WaitGroup Add follows the Wait that should cover it. From the close on, when the Wait on the attempts
   starts, no attempt is added; past that Wait, when the one on the closers starts, no closer and no pool
   either. Neither counter is ever negative.
   */
  lemma NoAddAfterWait(c: Config, states: seq<State>, acts: seq<Action>, i: nat)
    requires IsRun(c, states, acts) && i < |acts|
    ensures var o, o' := states[i].opener, states[i + 1].opener;
      && 0 <= o.attemptsWG && 0 <= o.closersWG
      && (o.isClosed ==> o'.isClosed && |o'.attempts| == |o.attempts| && o'.attemptsWG <= o.attemptsWG)
      && (PastAttemptsWait(o) ==>
            && o.isClosed && PastAttemptsWait(o') && o.attemptsWG == o'.attemptsWG == 0
            && |o'.closers| == |o.closers| && |o'.pools| == |o.pools|
            && o'.closersWG <= o.closersWG)
  {
    RunHolds(c, states, acts, i);
    var s, act := states[i], acts[i];
    assert Step(c, s, act, states[i + 1]);
    if s.opener.isClosed { ClosedAddsNoAttempt(c, s, act); }
    if PastAttemptsWait(s.opener) { DrainedAddsNothing(c, s, act); }
  }

  lemma ClosedAddsNoAttempt(c: Config, s: State, act: Action)
    requires Indexed(s.opener) && Enabled(s, act) && s.opener.isClosed
    ensures var o, o' := s.opener, Apply(c, s, act).opener;
      o'.isClosed && |o'.attempts| == |o.attempts| && o'.attemptsWG <= o.attemptsWG
  {
    hide Detach;
    hide DetachAll;
  }

  lemma DrainedAddsNothing(c: Config, s: State, act: Action)
    requires Inv(s.opener) && Indexed(s.opener) && Enabled(s, act) && PastAttemptsWait(s.opener)
    ensures var o, o' := s.opener, Apply(c, s, act).opener;
      && o.isClosed && PastAttemptsWait(o') && o.attemptsWG == o'.attemptsWG == 0
      && |o'.closers| == |o.closers| && |o'.pools| == |o.pools|
      && o'.closersWG <= o.closersWG
  {
    hide Detach;
    hide DetachAll;
    var o := s.opener;
    SumByZero(o.attempts, LiveAttempt);
    forall a | 0 <= a < |o.attempts| ensures o.attempts[a].phase.Gone? {
      assert LiveAttempt(o.attempts[a]) == 0;
    }
  }

  /** The errors that the pools of the MySQL opener have reported are those their Close calls have returned. */
  lemma {:induction false} ReportedAreReturned(c: Config, states: seq<State>, acts: seq<Action>, i: nat, e: CloseError)
    requires IsRun(c, states, acts) && i < |states|
    ensures SumBy(states[i].opener.closers, Reporting(e))
            == if c.dialect.MySQL? then SumBy(acts[..i], ClosingWith(e)) else 0
    decreases i
  {
    hide Apply;
    if i > 0 {
      ReportedAreReturned(c, states, acts, i - 1, e);
      assert Step(c, states[i - 1], acts[i - 1], states[i]);
      StepReports(c, states[i - 1], acts[i - 1], e);
      assert acts[..i] == acts[..i - 1] + [acts[i - 1]];
      SumByAppend(acts[..i - 1], acts[i - 1], ClosingWith(e));
    }
  }

  /**
   When closing completes, the joined error of the MySQL opener holds each error that Close calls of pools have
   returned in the run, as often as it was returned, and before never more; that of the PostgreSQL opener holds none.
   */
  lemma CloseErrorsComplete(c: Config, states: seq<State>, acts: seq<Action>, i: nat, e: CloseError)
    requires IsRun(c, states, acts) && i < |states|
    ensures var returned := if c.dialect.MySQL? then SumBy(acts[..i], ClosingWith(e)) else 0;
      && SumBy(states[i].opener.closeErrs, Same(e)) <= returned
      && (states[i].opener.completer.Completed? ==> SumBy(states[i].opener.closeErrs, Same(e)) == returned)
  {
    ReportedAreReturned(c, states, acts, i, e);
    RunAccounts(c, states, acts, i, e);
    var o := states[i].opener;
    RecordedAreReported(o.closers, e);
    if o.completer.Completed? {
      RunHolds(c, states, acts, i);
      SumByZero(o.closers, LiveCloser);
      forall k | 0 <= k < |o.closers| ensures o.closers[k].stage.Finished? {
        assert LiveCloser(o.closers[k]) == 0;
      }
      FinishedReportAll(o.closers, e);
    }
  }

  lemma {:induction false} RecordedAreReported(closers: seq<Closer>, e: CloseError)
    ensures SumBy(closers, Recording(e)) <= SumBy(closers, Reporting(e))
    decreases |closers|
  {
    if closers != [] {
      RecordedAreReported(closers[..|closers| - 1], e);
    }
  }

  lemma {:induction false} RunAccounts(c: Config, states: seq<State>, acts: seq<Action>, i: nat, e: CloseError)
    requires IsRun(c, states, acts) && i < |states|
    ensures Accounted(states[i].opener, e)
    decreases i
  {
    if i > 0 {
      RunAccounts(c, states, acts, i - 1, e);
      assert Step(c, states[i - 1], acts[i - 1], states[i]);
      StepAccounts(c, states[i - 1], acts[i - 1], e);
    }
  }

  // ---- Single flight ----

  /** At every moment an entry holds one of a client and an attempt, of the current generation. */
  lemma EntriesAreCurrent(c: Config, states: seq<State>, acts: seq<Action>, i: nat, id: Id)
    requires IsRun(c, states, acts) && i < |states| && id in states[i].opener.entries
    ensures var o := states[i].opener; var e := o.entries[id];
      && e.generation == GenerationOf(o, id)
      && (e.client.Some? <==> e.attempt.None?)
      && (e.attempt.Some? ==>
            && e.attempt.value < |o.attempts|
            && o.attempts[e.attempt.value].generation == GenerationOf(o, id)
            && o.attempts[e.attempt.value].closes == 0)
  {
    RunHolds(c, states, acts, i);
    var o := states[i].opener;
    assert EntryOk(o, id);
    if o.entries[id].attempt.Some? { assert AttemptOk(o, o.entries[id].attempt.value); }
  }

  /** What one step may do to the result of an attempt. */
  ghost predicate ResultStep(o: Opener, o': Opener, act: Action, a: nat)
    requires a < |o.attempts|
  {
    && |o.attempts| <= |o'.attempts|
    && var t, t' := o.attempts[a], o'.attempts[a];
       && t'.id == t.id && t'.generation == t.generation
       && (t.closes > 0 ==> t'.closes == t.closes && t'.client == t.client && t'.err == t.err)
       && (t'.client != t.client ==> act == FinishAttempt(a) && IsCurrent(o, a))
       && (t'.closes != t.closes ==> act == FinishAttempt(a) && t'.closes == 1 && t'.client.Some? != t'.err.Some?)
  }

  lemma DetachResults(o: Opener, id: Id, cause: Error)
    requires Indexed(o)
    ensures |Detach(o, id, cause).attempts| == |o.attempts|
    ensures forall a | 0 <= a < |o.attempts| ::
      o.attempts[a] == Detach(o, id, cause).attempts[a].(cause := o.attempts[a].cause)
  {
    if id in o.entries {
      var entry := o.entries[id];
      var dropped := o.(entries := o.entries - {id});
      var cancelled := if entry.attempt.Some? then Cancel(dropped, entry.attempt.value, cause) else dropped;
      assert Detach(o, id, cause).attempts == cancelled.attempts;
    }
  }

  lemma {:induction false} DetachAllResults(o: Opener, order: seq<Id>)
    requires Indexed(o)
    ensures |DetachAll(o, order).attempts| == |o.attempts|
    ensures forall a | 0 <= a < |o.attempts| ::
      o.attempts[a] == DetachAll(o, order).attempts[a].(cause := o.attempts[a].cause)
    decreases |order|
  {
    hide Detach;
    if order != [] {
      DetachAllResults(o, order[..|order| - 1]);
      DetachResults(DetachAll(o, order[..|order| - 1]), order[|order| - 1], RuntimeClosed);
    }
  }

  lemma FinishResults(c: Config, o: Opener, b: nat, a: nat)
    requires Inv(o) && Indexed(o) && b < |o.attempts| && o.attempts[b].phase.Finishing? && a < |o.attempts|
    ensures ResultStep(o, Finish(c.dialect, o, b), FinishAttempt(b), a)
  {
    assert AttemptOk(o, a);
  }

  lemma OpeningResults(c: Config, s: State, act: Action, a: nat)
    requires Inv(s.opener) && Indexed(s.opener) && Enabled(s, act) && a < |s.opener.attempts|
    requires act.Prepare? || act.MakePool? || act.Ping?
    ensures ResultStep(s.opener, Apply(c, s, act).opener, act, a)
  {
    hide Inv;
    var o' := Apply(c, s, act).opener;
    assert |o'.attempts| == |s.opener.attempts|;
    assert o'.attempts[a] == s.opener.attempts[a].(phase := o'.attempts[a].phase);
  }

  lemma LeavingResults(c: Config, s: State, act: Action, a: nat)
    requires Inv(s.opener) && Indexed(s.opener) && Enabled(s, act) && a < |s.opener.attempts|
    requires act.CheckCause? || act.HandOver? || act.Leave?
    ensures ResultStep(s.opener, Apply(c, s, act).opener, act, a)
  {
    hide Inv;
    var o' := Apply(c, s, act).opener;
    assert |o'.attempts| == |s.opener.attempts|;
    assert o'.attempts[a] == s.opener.attempts[a].(phase := o'.attempts[a].phase);
  }

  lemma FinishStepResults(c: Config, s: State, b: nat, a: nat)
    requires Inv(s.opener) && Indexed(s.opener) && Enabled(s, FinishAttempt(b)) && a < |s.opener.attempts|
    ensures ResultStep(s.opener, Apply(c, s, FinishAttempt(b)).opener, FinishAttempt(b), a)
  {
    hide Inv;
    hide Finish;
    hide ResultStep;
    FinishResults(c, s.opener, b, a);
  }

  lemma ShutdownResults(c: Config, s: State, order: seq<Id>, a: nat)
    requires Indexed(s.opener) && Enabled(s, Shutdown(order)) && a < |s.opener.attempts|
    ensures ResultStep(s.opener, Apply(c, s, Shutdown(order)).opener, Shutdown(order), a)
  {
    hide Detach;
    hide DetachAll;
    DetachAllResults(s.opener.(isClosed := true, completer := WaitingAttempts), order);
  }

  lemma InvalidateResults(c: Config, s: State, id: Id, v: nat, a: nat)
    requires Indexed(s.opener) && Enabled(s, InvalidateNext(id, v)) && a < |s.opener.attempts|
    ensures ResultStep(s.opener, Apply(c, s, InvalidateNext(id, v)).opener, InvalidateNext(id, v), a)
  {
    hide Detach;
    DetachResults(s.opener, id, OpenInvalidated);
  }

  /** Callers, closers and the completer leave the results of attempts alone. */
  lemma OutsideResults(c: Config, s: State, act: Action, a: nat)
    requires Indexed(s.opener) && Enabled(s, act) && a < |s.opener.attempts|
    requires act.Register? || act.Call? || act.Await? || act.Expire?
             || act.RunCloser? || act.RecordError? || act.LeaveCloser? || act.Complete?
    ensures ResultStep(s.opener, Apply(c, s, act).opener, act, a)
  {
    hide Detach;
    hide DetachAll;
  }

  lemma StepResults(c: Config, s: State, act: Action, a: nat)
    requires Inv(s.opener) && Indexed(s.opener) && Enabled(s, act) && a < |s.opener.attempts|
    ensures ResultStep(s.opener, Apply(c, s, act).opener, act, a)
  {
    hide *;
    match act
    case Shutdown(order) => ShutdownResults(c, s, order, a);
    case InvalidateNext(id, v) => InvalidateResults(c, s, id, v, a);
    case Register(_, _) => OutsideResults(c, s, act, a);
    case Call(_, _) => OutsideResults(c, s, act, a);
    case Await(_, _) => OutsideResults(c, s, act, a);
    case Expire(_) => OutsideResults(c, s, act, a);
    case RunCloser(_, _) => OutsideResults(c, s, act, a);
    case RecordError(_) => OutsideResults(c, s, act, a);
    case LeaveCloser(_) => OutsideResults(c, s, act, a);
    case Complete => OutsideResults(c, s, act, a);
    case FinishAttempt(b) => FinishStepResults(c, s, b, a);
    case Prepare(_, _) => OpeningResults(c, s, act, a);
    case MakePool(_, _) => OpeningResults(c, s, act, a);
    case Ping(_, _) => OpeningResults(c, s, act, a);
    case _ => LeavingResults(c, s, act, a);
  }

  /**
   done is closed exactly once, by finishAttempt, with exactly one of a client and an error set; the
   result never changes afterwards; and only an attempt of the current generation publishes a client.
   */
  lemma ResultIsSetOnce(c: Config, states: seq<State>, acts: seq<Action>, i: nat, a: nat)
    requires IsRun(c, states, acts) && i < |acts| && a < |states[i].opener.attempts|
    ensures states[i].opener.attempts[a].closes <= 1
    ensures ResultStep(states[i].opener, states[i + 1].opener, acts[i], a)
  {
    RunHolds(c, states, acts, i);
    assert AttemptOk(states[i].opener, a);
    assert Step(c, states[i], acts[i], states[i + 1]);
    StepResults(c, states[i], acts[i], a);
  }

  lemma {:induction false} ResultPersists(c: Config, states: seq<State>, acts: seq<Action>, i: nat, j: nat, a: nat)
    requires IsRun(c, states, acts) && i <= j < |states|
    requires a < |states[i].opener.attempts| && states[i].opener.attempts[a].closes > 0
    ensures a < |states[j].opener.attempts|
    ensures var t, t' := states[i].opener.attempts[a], states[j].opener.attempts[a];
      t'.closes == t.closes && t'.client == t.client && t'.err == t.err
    decreases j - i
  {
    if i < j {
      ResultIsSetOnce(c, states, acts, i, a);
      ResultPersists(c, states, acts, i + 1, j, a);
    }
  }

  /** Two callers of one attempt, neither ended by its own context, return the same thing. */
  lemma WaitersAgree(c: Config, states: seq<State>, acts: seq<Action>, i: nat, j: nat, k: nat, l: nat)
    requires IsRun(c, states, acts) && i <= j < |acts|
    requires acts[i] == Await(k, false) && acts[j] == Await(l, false)
    requires k < |states[i].callers| && l < |states[j].callers|
    requires states[i].callers[k].outcome.Waiting? && states[j].callers[l].outcome == states[i].callers[k].outcome
    ensures k < |states[i + 1].callers| && l < |states[j + 1].callers|
    ensures states[i + 1].callers[k].outcome == states[j + 1].callers[l].outcome
  {
    assert Step(c, states[i], acts[i], states[i + 1]) && Step(c, states[j], acts[j], states[j + 1]);
    ResultPersists(c, states, acts, i, j, states[i].callers[k].outcome.attempt);
  }

  /** After Close the cache stays empty and closed, and a call made then is refused. */
  lemma {:induction false} ClosedForever(c: Config, states: seq<State>, acts: seq<Action>, i: nat, j: nat)
    requires IsRun(c, states, acts) && i <= j < |states| && states[i].opener.isClosed
    ensures states[j].opener.isClosed && states[j].opener.entries == map[]
    ensures j < |acts| && acts[j].Call? && !acts[j].ended ==>
      states[j + 1].callers == states[j].callers + [Caller(acts[j].id,
        SettledVersions(RegistrationsOf(states[j], acts[j].id), c.kind), Failed(RuntimeClosed))]
    decreases j - i
  {
    RunHolds(c, states, acts, i);
    if i < j {
      assert Step(c, states[i], acts[i], states[i + 1]);
      ClosedAddsNoAttempt(c, states[i], acts[i]);
      ClosedForever(c, states, acts, i + 1, j);
    } else if i < |acts| {
      assert Step(c, states[i], acts[i], states[i + 1]);
    }
  }

  // ---- Freshness ----

  lemma CallersPersistStep(c: Config, s: State, act: Action, k: nat)
    requires Indexed(s.opener) && Enabled(s, act) && k < |s.callers|
    ensures var s' := Apply(c, s, act);
      k < |s'.callers| && s'.callers[k].id == s.callers[k].id && s'.callers[k].settled == s.callers[k].settled
  {
  }

  lemma {:induction false} CallersPersist(c: Config, states: seq<State>, acts: seq<Action>, i: nat, j: nat, k: nat)
    requires IsRun(c, states, acts) && i <= j < |states| && k < |states[i].callers|
    ensures k < |states[j].callers|
    ensures states[j].callers[k].id == states[i].callers[k].id
    ensures states[j].callers[k].settled == states[i].callers[k].settled
    decreases j - i
  {
    if i < j {
      assert Step(c, states[i], acts[i], states[i + 1]);
      CallersPersistStep(c, states[i], acts[i], k);
      CallersPersist(c, states, acts, i + 1, j, k);
    }
  }

  /**
   A call that starts when registration `v` of its id is settled never yields a client built from an
   earlier definition, or one of another kind, whatever is in flight.
   */
  lemma Freshness(c: Config, states: seq<State>, acts: seq<Action>, i: nat, j: nat, id: Id, v: nat)
    requires IsRun(c, states, acts) && i < |acts| && acts[i] == Call(id, false)
    requires Settled(RegistrationsOf(states[i], id), v, c.kind)
    requires i < j < |states|
    ensures |states[i].callers| < |states[j].callers|
    ensures var o := states[j].opener; var outcome := states[j].callers[|states[i].callers|].outcome;
      outcome.Got? ==>
        && outcome.pool < |o.pools|
        && o.pools[outcome.pool].id == id
        && v <= o.pools[outcome.pool].version < |RegistrationsOf(states[j], id)|
        && RegistrationsOf(states[j], id)[o.pools[outcome.pool].version].kind == c.kind
  {
    var k := |states[i].callers|;
    assert Step(c, states[i], acts[i], states[i + 1]);
    assert v in SettledVersions(RegistrationsOf(states[i], id), c.kind);
    CallersPersist(c, states, acts, i + 1, j, k);
    RunHolds(c, states, acts, j);
    assert CallerFresh(states[j], k);
    var outcome := states[j].callers[k].outcome;
    if outcome.Got? { assert BuiltFrom(c, states[j], outcome.pool); }
  }

  /**
   A call that starts once a registration of its id has returned never yields a client of an earlier
   definition. Registrations of one kind may overlap freely: one that touches this opener's kind needs
   nothing else, and one that does not needs those before it to have invalidated the kind.
   */
  lemma FreshOnceReturned(c: Config, states: seq<State>, acts: seq<Action>, i: nat, j: nat, id: Id, v: nat)
    requires IsRun(c, states, acts) && i < |acts| && acts[i] == Call(id, false)
    requires var history := RegistrationsOf(states[i], id);
      && v < |history| && history[v].todo == []
      && (Touches(history, v, c.kind) || forall u | 0 <= u < v :: c.kind !in history[u].todo)
    requires i < j < |states|
    ensures |states[i].callers| < |states[j].callers|
    ensures var o := states[j].opener; var outcome := states[j].callers[|states[i].callers|].outcome;
      outcome.Got? ==> outcome.pool < |o.pools| && o.pools[outcome.pool].id == id && v <= o.pools[outcome.pool].version
  {
    hide IsRun;
    ReturnedIsSettled(RegistrationsOf(states[i], id), v, c.kind);
    Freshness(c, states, acts, i, j, id, v);
  }

  lemma Extend(c: Config, states: seq<State>, acts: seq<Action>, act: Action, s: State)
    requires IsRun(c, states, acts) && Step(c, states[|acts|], act, s)
    ensures IsRun(c, states + [s], acts + [act])
  {
    var states', acts' := states + [s], acts + [act];
    forall i | 0 <= i < |acts'| ensures Step(c, states'[i], acts'[i], states'[i + 1]) {
      if i < |acts| { assert Step(c, states[i], acts[i], states[i + 1]); }
    }
  }

  /** Take one more step of a run that ends in `s`. */
  lemma Advance(c: Config, states: seq<State>, acts: seq<Action>, s: State, act: Action)
    returns (states': seq<State>, acts': seq<Action>, s': State)
    requires IsRun(c, states, acts) && states[|acts|] == s && Enabled(s, act)
    ensures IsRun(c, states', acts') && Indexed(s.opener)
    ensures acts' == acts + [act] && states' == states + [s'] && |states'| == |acts'| + 1
    ensures s' == Apply(c, s, act) && Indexed(s'.opener)
  {
    RunHolds(c, states, acts, |acts|);
    s' := Apply(c, s, act);
    states', acts' := states + [s'], acts + [act];
    Extend(c, states, acts, act, s');
    RunHolds(c, states', acts', |acts'|);
  }
}
