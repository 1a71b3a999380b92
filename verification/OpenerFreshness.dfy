/**
 Freshness: what a cached client may lag behind.

 The heart is StaleOnlyPending: a definition version in use, or about to be published, may be older
 than the registry only while every later registration that touches this kind has still to invalidate it.
 */
module OpenerFreshness {
  import opened Common
  import opened OpenerModel
  import opened OpenerInvariant

  /** The attempt could still pass the test of finishAttempt. */
  ghost predicate Publishable(o: Opener, a: nat)
    requires a < |o.attempts|
  {
    && !o.isClosed
    && BeforeFinish(o.attempts[a].phase)
    && o.attempts[a].generation == GenerationOf(o, o.attempts[a].id)
  }

  ghost predicate Covers(settled: set<nat>, version: nat) {
    forall v | v in settled :: v <= version
  }

  ghost predicate AttemptFresh(c: Config, s: State, a: nat)
    requires a < |s.opener.attempts|
  {
    var t := s.opener.attempts[a];
    && t.generation <= GenerationOf(s.opener, t.id)
    && (VersionOf(s.opener, t.phase).Some? && Publishable(s.opener, a) ==>
          StaleOnlyPending(RegistrationsOf(s, t.id), VersionOf(s.opener, t.phase).value, c.kind))
  }

  ghost predicate EntryFresh(c: Config, s: State, id: Id)
    requires id in s.opener.entries
  {
    var client := s.opener.entries[id].client;
    client.Some? ==>
      && client.value < |s.opener.pools|
      && StaleOnlyPending(RegistrationsOf(s, id), s.opener.pools[client.value].version, c.kind)
  }

  ghost predicate BuiltFrom(c: Config, s: State, p: nat)
    requires p < |s.opener.pools|
  {
    var history := RegistrationsOf(s, s.opener.pools[p].id);
    var v := s.opener.pools[p].version;
    v < |history| && history[v].kind == c.kind
  }

  ghost predicate PreparedFrom(c: Config, s: State, a: nat)
    requires a < |s.opener.attempts|
  {
    var t := s.opener.attempts[a];
    t.phase.Prepared? ==>
      t.phase.version < |RegistrationsOf(s, t.id)| && RegistrationsOf(s, t.id)[t.phase.version].kind == c.kind
  }

  /** What a caller has, or can still get, covers every registration settled when it called. */
  ghost predicate CallerFresh(s: State, i: nat)
    requires i < |s.callers|
  {
    var o := s.opener;
    var caller := s.callers[i];
    && (forall v | v in caller.settled :: v < |RegistrationsOf(s, caller.id)|)
    && match caller.outcome
       case Waiting(a) =>
         && a < |o.attempts|
         && o.attempts[a].id == caller.id
         && (Publishable(o, a) && VersionOf(o, o.attempts[a].phase).Some? ==>
               Covers(caller.settled, VersionOf(o, o.attempts[a].phase).value))
         && (o.attempts[a].client.Some? ==>
               && o.attempts[a].client.value < |o.pools|
               && Covers(caller.settled, o.pools[o.attempts[a].client.value].version))
       case Got(p) =>
         p < |o.pools| && o.pools[p].id == caller.id && Covers(caller.settled, o.pools[p].version)
       case Failed(_) => true
  }

  ghost predicate Fresh(c: Config, s: State) {
    && (forall a | 0 <= a < |s.opener.attempts| :: AttemptFresh(c, s, a) && PreparedFrom(c, s, a))
    && (forall id | id in s.opener.entries :: EntryFresh(c, s, id))
    && (forall p | 0 <= p < |s.opener.pools| :: BuiltFrom(c, s, p))
    && (forall i | 0 <= i < |s.callers| :: CallerFresh(s, i))
  }

  // ---- Steps that reveal nothing new ----

  ghost predicate CalmAttempt(o: Opener, o': Opener, a: nat)
    requires a < |o.attempts| && a < |o'.attempts|
  {
    var t, t' := o.attempts[a], o'.attempts[a];
    && t'.id == t.id && t'.generation == t.generation && t'.client == t.client
    && (VersionOf(o', t'.phase).Some? ==> VersionOf(o', t'.phase) == VersionOf(o, t.phase))
    && (t'.phase.Prepared? ==> t.phase == t'.phase)
    && (Publishable(o', a) ==> Publishable(o, a))
  }

  /** No pool is added, no entry gains a client, no attempt learns a version or becomes publishable. */
  ghost predicate Calm(o: Opener, o': Opener) {
    && |o'.attempts| == |o.attempts|
    && (forall a | 0 <= a < |o.attempts| :: CalmAttempt(o, o', a))
    && |o'.pools| == |o.pools|
    && (forall p | 0 <= p < |o.pools| :: o'.pools[p].id == o.pools[p].id && o'.pools[p].version == o.pools[p].version)
    && (forall id | id in o'.entries :: id in o.entries && o'.entries[id].client == o.entries[id].client)
    && (forall id :: GenerationOf(o, id) <= GenerationOf(o', id))
    && (o.isClosed ==> o'.isClosed)
  }

  lemma CalmTransitive(o: Opener, o1: Opener, o2: Opener)
    requires Calm(o, o1) && Calm(o1, o2)
    ensures Calm(o, o2)
  {
    forall a | 0 <= a < |o.attempts| ensures CalmAttempt(o, o2, a) {
      assert CalmAttempt(o, o1, a) && CalmAttempt(o1, o2, a);
    }
    forall id ensures GenerationOf(o, id) <= GenerationOf(o2, id) {
      assert GenerationOf(o, id) <= GenerationOf(o1, id) <= GenerationOf(o2, id);
    }
  }

  lemma CalmKeepsFresh(c: Config, s: State, s': State)
    requires Fresh(c, s) && Calm(s.opener, s'.opener)
    requires s'.registry == s.registry && s'.callers == s.callers
    ensures Fresh(c, s')
  {
    forall a | 0 <= a < |s'.opener.attempts| ensures AttemptFresh(c, s', a) && PreparedFrom(c, s', a) {
      assert AttemptFresh(c, s, a) && PreparedFrom(c, s, a) && CalmAttempt(s.opener, s'.opener, a);
      assert GenerationOf(s.opener, s.opener.attempts[a].id) <= GenerationOf(s'.opener, s.opener.attempts[a].id);
    }
    forall id | id in s'.opener.entries ensures EntryFresh(c, s', id) { assert EntryFresh(c, s, id); }
    forall p | 0 <= p < |s'.opener.pools| ensures BuiltFrom(c, s', p) { assert BuiltFrom(c, s, p); }
    forall i | 0 <= i < |s'.callers| ensures CallerFresh(s', i) {
      assert CallerFresh(s, i);
      if s.callers[i].outcome.Waiting? { assert CalmAttempt(s.opener, s'.opener, s.callers[i].outcome.attempt); }
    }
  }

  lemma DropCalm(o: Opener, id: Id)
    ensures Calm(o, o.(entries := o.entries - {id}))
  {
    forall a | 0 <= a < |o.attempts| ensures CalmAttempt(o, o.(entries := o.entries - {id}), a) {}
  }

  lemma CancelCalm(o: Opener, a: nat, cause: Error)
    requires a < |o.attempts|
    ensures Calm(o, Cancel(o, a, cause))
  {
    forall b | 0 <= b < |o.attempts| ensures CalmAttempt(o, Cancel(o, a, cause), b) {}
  }

  lemma SpawnCalm(o: Opener, p: nat)
    requires p < |o.pools|
    ensures Calm(o, SpawnCloser(o, p))
  {
    forall b | 0 <= b < |o.attempts| ensures CalmAttempt(o, SpawnCloser(o, p), b) {}
  }

  lemma DetachCalm(o: Opener, id: Id, cause: Error)
    requires Indexed(o)
    ensures Calm(o, Detach(o, id, cause))
  {
    hide Calm;
    DropCalm(o, id);
    if id !in o.entries {
      assert o.entries - {id} == o.entries;
    } else {
      var entry := o.entries[id];
      var dropped := o.(entries := o.entries - {id});
      var cancelled := if entry.attempt.Some? then Cancel(dropped, entry.attempt.value, cause) else dropped;
      if entry.attempt.Some? {
        CancelCalm(dropped, entry.attempt.value, cause);
        CalmTransitive(o, dropped, cancelled);
      }
      if entry.client.Some? {
        SpawnCalm(cancelled, entry.client.value);
        CalmTransitive(o, cancelled, SpawnCloser(cancelled, entry.client.value));
      }
    }
  }

  lemma {:induction false} DetachAllCalm(o: Opener, order: seq<Id>)
    requires Indexed(o)
    ensures Calm(o, DetachAll(o, order))
    decreases |order|
  {
    if order == [] {
      forall a | 0 <= a < |o.attempts| ensures CalmAttempt(o, o, a) {}
    } else {
      var prefix := order[..|order| - 1];
      DetachAllCalm(o, prefix);
      DetachCalm(DetachAll(o, prefix), order[|order| - 1], RuntimeClosed);
      CalmTransitive(o, DetachAll(o, prefix), DetachAll(o, order));
    }
  }

  lemma BumpCalm(o: Opener, id: Id)
    requires forall a | 0 <= a < |o.attempts| :: o.attempts[a].generation <= GenerationOf(o, o.attempts[a].id)
    ensures Calm(o, o.(generations := o.generations[id := GenerationOf(o, id) + 1]))
  {
    var o' := o.(generations := o.generations[id := GenerationOf(o, id) + 1]);
    forall a | 0 <= a < |o.attempts| ensures CalmAttempt(o, o', a) {}
  }

  /** After an invalidation the id has no entry, and nothing in flight for it can publish any more. */
  lemma InvalidateCalm(o: Opener, id: Id)
    requires Indexed(o)
    requires forall a | 0 <= a < |o.attempts| :: o.attempts[a].generation <= GenerationOf(o, o.attempts[a].id)
    ensures Calm(o, Invalidate(o, id))
    ensures id !in Invalidate(o, id).entries || o.isClosed
    ensures forall a | 0 <= a < |o.attempts| && o.attempts[a].id == id :: !Publishable(Invalidate(o, id), a)
  {
    hide Detach;
    hide VersionOf;
    if o.isClosed {
      forall a | 0 <= a < |o.attempts| ensures CalmAttempt(o, o, a) {}
    } else {
      var o1 := Detach(o, id, OpenInvalidated);
      DetachCalm(o, id, OpenInvalidated);
      DetachDrops(o, id, OpenInvalidated);
      forall a | 0 <= a < |o.attempts|
        ensures o1.attempts[a].id == o.attempts[a].id
        ensures o1.attempts[a].generation <= GenerationOf(o1, o1.attempts[a].id)
      {
        assert CalmAttempt(o, o1, a);
      }
      BumpCalm(o1, id);
      CalmTransitive(o, o1, Invalidate(o, id));
    }
  }

  lemma DetachDrops(o: Opener, id: Id, cause: Error)
    requires Indexed(o)
    ensures id !in Detach(o, id, cause).entries && Detach(o, id, cause).generations == o.generations
  {
  }

  lemma SetPhaseCalm(o: Opener, a: nat, phase: Phase)
    requires Inv(o) && a < |o.attempts|
    requires VersionOf(o, phase).Some? ==> VersionOf(o, phase) == VersionOf(o, o.attempts[a].phase)
    requires phase.Prepared? ==> phase == o.attempts[a].phase
    requires BeforeFinish(phase) ==> BeforeFinish(o.attempts[a].phase)
    ensures Calm(o, SetPhase(o, a, phase))
  {
    forall b | 0 <= b < |o.attempts| ensures CalmAttempt(o, SetPhase(o, a, phase), b) {}
  }

  lemma LeaveCalm(o: Opener, a: nat)
    requires a < |o.attempts| && o.attempts[a].phase.Returning?
    ensures Calm(o, SetPhase(o, a, Gone).(attemptsWG := o.attemptsWG - 1))
  {
    var o' := SetPhase(o, a, Gone).(attemptsWG := o.attemptsWG - 1);
    forall b | 0 <= b < |o.attempts| ensures CalmAttempt(o, o', b) {}
  }

  lemma HandOverCalm(o: Opener, a: nat)
    requires Inv(o) && Indexed(o) && a < |o.attempts|
    requires o.attempts[a].phase.Discarding? || o.attempts[a].phase.Stale?
    ensures Calm(o, CloseTracked(o, a))
  {
    forall b | 0 <= b < |o.attempts| ensures CalmAttempt(o, CloseTracked(o, a), b) {}
  }

  lemma ShutdownCalm(o: Opener, order: seq<Id>)
    requires Indexed(o)
    ensures Calm(o, Close(o, order))
  {
    if o.isClosed {
      forall a | 0 <= a < |o.attempts| ensures CalmAttempt(o, o, a) {}
    } else {
      var o1 := o.(isClosed := true, completer := WaitingAttempts);
      forall a | 0 <= a < |o.attempts| ensures CalmAttempt(o, o1, a) {}
      DetachAllCalm(o1, order);
      CalmTransitive(o, o1, Close(o, order));
    }
  }

  /** Steps that leave attempts, entries and the provenance of pools alone. */
  lemma SameAttemptsCalm(o: Opener, o': Opener)
    requires o'.attempts == o.attempts && o'.entries == o.entries && o'.generations == o.generations
    requires o'.isClosed == o.isClosed && |o'.pools| == |o.pools|
    requires forall p | 0 <= p < |o.pools| ::
               o'.pools[p].id == o.pools[p].id && o'.pools[p].version == o.pools[p].version
    ensures Calm(o, o')
  {
    forall a | 0 <= a < |o.attempts| ensures CalmAttempt(o, o', a) {}
  }

  /** The steps of a goroutine, a closer or the shutdown are calm unless they prepare, make or publish. */
  lemma CalmSteps(c: Config, s: State, act: Action)
    requires Inv(s.opener) && Indexed(s.opener) && Enabled(s, act)
    requires act.Expire? || act.Ping? || act.CheckCause? || act.HandOver? || act.Leave? || act.Shutdown?
          || act.RunCloser? || act.RecordError? || act.LeaveCloser? || act.Complete?
    ensures Calm(s.opener, Apply(c, s, act).opener)
  {
    hide Calm;
    hide Inv;
    var o := s.opener;
    var o' := Apply(c, s, act).opener;
    match act
    case Ping(a, _) => SetPhaseCalm(o, a, o'.attempts[a].phase);
    case CheckCause(a) => SetPhaseCalm(o, a, o'.attempts[a].phase);
    case Leave(a) => LeaveCalm(o, a);
    case HandOver(a) => HandOverCalm(o, a);
    case Shutdown(order) => ShutdownCalm(o, order);
    case Expire(a) => CancelCalm(o, a, OpenTimeout);
    case RunCloser(_, _) => SameAttemptsCalm(o, o');
    case RecordError(_) => SameAttemptsCalm(o, o');
    case LeaveCloser(_) => SameAttemptsCalm(o, o');
    case Complete => SameAttemptsCalm(o, o');
  }

  // ---- Steps that matter ----

  lemma HistoryGrows(history: seq<Registration>, r: Registration, w: nat, kind: Kind)
    requires StaleOnlyPending(history, w, kind)
    requires Touches(history + [r], |history|, kind) ==> kind in r.todo
    ensures StaleOnlyPending(history + [r], w, kind)
  {
    var next := history + [r];
    forall v | w < v < |next| && Touches(next, v, kind) ensures kind in next[v].todo {
      if v < |history| { assert Touches(history, v, kind); }
    }
  }

  lemma RegisterFresh(c: Config, s: State, id: Id, kind: Kind)
    requires Inv(s.opener) && Indexed(s.opener) && Fresh(c, s)
    ensures Fresh(c, Apply(c, s, Register(id, kind)))
  {
    var s' := Apply(c, s, Register(id, kind));
    var history := RegistrationsOf(s, id);
    var r := Registration(kind, Invalidations(history, kind));
    forall w | StaleOnlyPending(history, w, c.kind) ensures StaleOnlyPending(history + [r], w, c.kind) {
      HistoryGrows(history, r, w, c.kind);
    }
    forall a | 0 <= a < |s'.opener.attempts| ensures AttemptFresh(c, s', a) && PreparedFrom(c, s', a) {
      assert AttemptFresh(c, s, a) && PreparedFrom(c, s, a);
    }
    forall e | e in s'.opener.entries ensures EntryFresh(c, s', e) { assert EntryFresh(c, s, e); }
    forall p | 0 <= p < |s'.opener.pools| ensures BuiltFrom(c, s', p) { assert BuiltFrom(c, s, p); }
    forall i | 0 <= i < |s'.callers| ensures CallerFresh(s', i) { assert CallerFresh(s, i); }
  }

  lemma PopKeepsPending(history: seq<Registration>, v: nat, w: nat, kind: Kind)
    requires StaleOnlyPending(history, w, kind)
    requires v < |history| && history[v].todo != [] && history[v].todo[0] != kind
    ensures StaleOnlyPending(history[v := history[v].(todo := history[v].todo[1..])], w, kind)
  {
    var next := history[v := history[v].(todo := history[v].todo[1..])];
    forall u | w < u < |next| && Touches(next, u, kind) ensures kind in next[u].todo {
      assert Touches(history, u, kind);
    }
  }

  /** A registration that has still another kind to invalidate first. */
  lemma PopFresh(c: Config, s: State, id: Id, v: nat)
    requires Fresh(c, s) && Enabled(s, InvalidateNext(id, v))
    requires s.registry[id][v].todo[0] != c.kind
    ensures var history := s.registry[id];
      Fresh(c, s.(registry := s.registry[id := history[v := history[v].(todo := history[v].todo[1..])]]))
  {
    var history := s.registry[id];
    var next := history[v := history[v].(todo := history[v].todo[1..])];
    var s' := s.(registry := s.registry[id := next]);
    forall w | StaleOnlyPending(history, w, c.kind) ensures StaleOnlyPending(next, w, c.kind) {
      PopKeepsPending(history, v, w, c.kind);
    }
    forall a | 0 <= a < |s.opener.attempts| ensures AttemptFresh(c, s', a) && PreparedFrom(c, s', a) {
      assert AttemptFresh(c, s, a) && PreparedFrom(c, s, a);
    }
    forall e | e in s.opener.entries ensures EntryFresh(c, s', e) { assert EntryFresh(c, s, e); }
    forall p | 0 <= p < |s.opener.pools| ensures BuiltFrom(c, s', p) { assert BuiltFrom(c, s, p); }
    forall i | 0 <= i < |s'.callers| ensures CallerFresh(s', i) { assert CallerFresh(s, i); }
  }

  /** With nothing cached or publishable for an id, its registrations may be marked done. */
  lemma QuietFresh(c: Config, s: State, id: Id, v: nat)
    requires Fresh(c, s) && Enabled(s, InvalidateNext(id, v))
    requires id !in s.opener.entries
    requires forall a | 0 <= a < |s.opener.attempts| && s.opener.attempts[a].id == id :: !Publishable(s.opener, a)
    ensures var history := s.registry[id];
      Fresh(c, s.(registry := s.registry[id := history[v := history[v].(todo := history[v].todo[1..])]]))
  {
    var history := s.registry[id];
    var s' := s.(registry := s.registry[id := history[v := history[v].(todo := history[v].todo[1..])]]);
    forall a | 0 <= a < |s.opener.attempts| ensures AttemptFresh(c, s', a) && PreparedFrom(c, s', a) {
      assert AttemptFresh(c, s, a) && PreparedFrom(c, s, a);
    }
    forall e | e in s.opener.entries ensures EntryFresh(c, s', e) { assert EntryFresh(c, s, e); }
    forall p | 0 <= p < |s.opener.pools| ensures BuiltFrom(c, s', p) { assert BuiltFrom(c, s, p); }
    forall i | 0 <= i < |s'.callers| ensures CallerFresh(s', i) { assert CallerFresh(s, i); }
  }

  lemma GenerationsBounded(c: Config, s: State)
    requires Fresh(c, s)
    ensures forall a | 0 <= a < |s.opener.attempts| ::
      s.opener.attempts[a].generation <= GenerationOf(s.opener, s.opener.attempts[a].id)
  {
    forall a | 0 <= a < |s.opener.attempts|
      ensures s.opener.attempts[a].generation <= GenerationOf(s.opener, s.opener.attempts[a].id)
    {
      assert AttemptFresh(c, s, a);
    }
  }

  lemma InvalidateNextFresh(c: Config, s: State, id: Id, v: nat)
    requires Inv(s.opener) && Indexed(s.opener) && Fresh(c, s) && Enabled(s, InvalidateNext(id, v))
    ensures Fresh(c, Apply(c, s, InvalidateNext(id, v)))
  {
    hide Fresh;
    hide Calm;
    if s.registry[id][v].todo[0] == c.kind {
      GenerationsBounded(c, s);
      InvalidateCalm(s.opener, id);
      var mid := s.(opener := Invalidate(s.opener, id));
      CalmKeepsFresh(c, s, mid);
      InvalidateKeeps(s.opener, id);
      QuietFresh(c, mid, id, v);
    } else {
      PopFresh(c, s, id, v);
    }
  }

  /** What is settled is covered by any version that lags only behind pending registrations. */
  lemma SettledIsCovered(history: seq<Registration>, w: nat, kind: Kind)
    requires StaleOnlyPending(history, w, kind)
    ensures Covers(SettledVersions(history, kind), w)
  {
    hide StaleOnlyPending;
  }

  /**
   A registration that has returned is settled when it touches the kind, whatever else is pending, and
   otherwise when no registration before it has still to invalidate the kind.
   */
  lemma ReturnedIsSettled(history: seq<Registration>, v: nat, kind: Kind)
    requires v < |history| && history[v].todo == []
    requires Touches(history, v, kind) || forall u | 0 <= u < v :: kind !in history[u].todo
    ensures Settled(history, v, kind)
  {
    forall w | 0 <= w < v ensures !StaleOnlyPending(history, w, kind) {
      var u := if Touches(history, v, kind) then v else w + 1;
      assert kind !in history[u].todo;
      assert history[w].kind == kind ==> Touches(history, u, kind);
    }
  }

  /** A new caller joins a state that is otherwise unchanged. */
  lemma JoinFresh(c: Config, s: State, caller: Caller)
    requires Fresh(c, s)
    requires CallerFresh(s.(callers := [caller]), 0)
    ensures Fresh(c, s.(callers := s.callers + [caller]))
  {
    var s' := s.(callers := s.callers + [caller]);
    forall a | 0 <= a < |s.opener.attempts| ensures AttemptFresh(c, s', a) && PreparedFrom(c, s', a) {
      assert AttemptFresh(c, s, a) && PreparedFrom(c, s, a);
    }
    forall e | e in s.opener.entries ensures EntryFresh(c, s', e) { assert EntryFresh(c, s, e); }
    forall p | 0 <= p < |s.opener.pools| ensures BuiltFrom(c, s', p) { assert BuiltFrom(c, s, p); }
    forall i | 0 <= i < |s'.callers| ensures CallerFresh(s', i) {
      if i < |s.callers| {
        assert CallerFresh(s, i);
      } else {
        assert CallerFresh(s.(callers := [caller]), 0);
      }
    }
  }

  lemma OpenRawFresh(c: Config, s: State, id: Id)
    requires Inv(s.opener) && Fresh(c, s)
    ensures Fresh(c, s.(opener := OpenRaw(s.opener, id).0))
  {
    var o := s.opener;
    var s' := s.(opener := OpenRaw(o, id).0);
    var o' := s'.opener;
    if id in o.entries { assert EntryOk(o, id); }
    forall a | 0 <= a < |o'.attempts| ensures AttemptFresh(c, s', a) && PreparedFrom(c, s', a) {
      if a < |o.attempts| { assert AttemptFresh(c, s, a) && PreparedFrom(c, s, a); }
    }
    forall e | e in o'.entries ensures EntryFresh(c, s', e) { if e in o.entries { assert EntryFresh(c, s, e); } }
    forall p | 0 <= p < |o'.pools| ensures BuiltFrom(c, s', p) { assert BuiltFrom(c, s, p); }
    forall i | 0 <= i < |s'.callers| ensures CallerFresh(s', i) { assert CallerFresh(s, i); }
  }

  /** What openRaw hands back belongs to the id that was asked for. */
  lemma OpenRawOutcome(o: Opener, id: Id)
    requires Inv(o)
    ensures var (o', outcome) := OpenRaw(o, id);
      && (outcome.Waiting? ==>
            && outcome.attempt < |o'.attempts| && o'.attempts[outcome.attempt].id == id
            && o'.attempts[outcome.attempt].client.None?)
      && (outcome.Got? ==>
            && id in o'.entries && o'.entries[id].client == Some(outcome.pool)
            && outcome.pool < |o'.pools| && o'.pools[outcome.pool].id == id)
  {
    if id in o.entries {
      assert EntryOk(o, id);
      if o.entries[id].attempt.Some? { assert AttemptOk(o, o.entries[id].attempt.value); }
    }
  }

  lemma OutcomeFresh(c: Config, s: State, id: Id)
    requires Inv(s.opener) && Fresh(c, s.(opener := OpenRaw(s.opener, id).0))
    ensures var (o', outcome) := OpenRaw(s.opener, id);
      CallerFresh(State(o', s.registry, [Caller(id, SettledVersions(RegistrationsOf(s, id), c.kind), outcome)]), 0)
  {
    hide Inv;
    var history := RegistrationsOf(s, id);
    var (o', outcome) := OpenRaw(s.opener, id);
    var s1 := s.(opener := o');
    OpenRawOutcome(s.opener, id);
    forall w | StaleOnlyPending(history, w, c.kind) ensures Covers(SettledVersions(history, c.kind), w) {
      SettledIsCovered(history, w, c.kind);
    }
    if outcome.Waiting? { assert AttemptFresh(c, s1, outcome.attempt); }
    if outcome.Got? { assert EntryFresh(c, s1, id); }
  }

  lemma CallFresh(c: Config, s: State, id: Id, ended: bool)
    requires Inv(s.opener) && Indexed(s.opener) && Fresh(c, s)
    ensures Fresh(c, Apply(c, s, Call(id, ended)))
  {
    hide Inv;
    hide Fresh;
    var settled := SettledVersions(RegistrationsOf(s, id), c.kind);
    if ended {
      JoinFresh(c, s, Caller(id, settled, Failed(ContextEnded)));
    } else {
      var (o', outcome) := OpenRaw(s.opener, id);
      OpenRawFresh(c, s, id);
      OutcomeFresh(c, s, id);
      JoinFresh(c, s.(opener := o'), Caller(id, settled, outcome));
    }
  }

  lemma AwaitFresh(c: Config, s: State, i: nat, ended: bool)
    requires Inv(s.opener) && Indexed(s.opener) && Fresh(c, s) && Enabled(s, Await(i, ended))
    ensures Fresh(c, Apply(c, s, Await(i, ended)))
  {
    var s' := Apply(c, s, Await(i, ended));
    forall a | 0 <= a < |s.opener.attempts| ensures AttemptFresh(c, s', a) && PreparedFrom(c, s', a) {
      assert AttemptFresh(c, s, a) && PreparedFrom(c, s, a);
    }
    forall e | e in s.opener.entries ensures EntryFresh(c, s', e) { assert EntryFresh(c, s, e); }
    forall p | 0 <= p < |s.opener.pools| ensures BuiltFrom(c, s', p) { assert BuiltFrom(c, s, p); }
    forall j | 0 <= j < |s'.callers| ensures CallerFresh(s', j) {
      assert CallerFresh(s, j);
      assert AttemptOk(s.opener, s.callers[i].outcome.attempt);
    }
  }

  /** A definition read now lags behind nothing. */
  lemma PreparedFresh(c: Config, s: State, a: nat)
    requires Inv(s.opener) && Fresh(c, s) && a < |s.opener.attempts| && s.opener.attempts[a].phase.Starting?
    requires var history := RegistrationsOf(s, s.opener.attempts[a].id);
      history != [] && history[|history| - 1].kind == c.kind
    ensures Fresh(c, s.(opener :=
      SetPhase(s.opener, a, Prepared(|RegistrationsOf(s, s.opener.attempts[a].id)| - 1))))
  {
    var s' := s.(opener := SetPhase(s.opener, a, Prepared(|RegistrationsOf(s, s.opener.attempts[a].id)| - 1)));
    forall b | 0 <= b < |s.opener.attempts| ensures AttemptFresh(c, s', b) && PreparedFrom(c, s', b) {
      assert AttemptFresh(c, s, b) && PreparedFrom(c, s, b);
    }
    forall e | e in s'.opener.entries ensures EntryFresh(c, s', e) { assert EntryFresh(c, s, e); }
    forall p | 0 <= p < |s'.opener.pools| ensures BuiltFrom(c, s', p) { assert BuiltFrom(c, s, p); }
    forall i | 0 <= i < |s'.callers| ensures CallerFresh(s', i) { assert CallerFresh(s, i); }
  }

  lemma PrepareFresh(c: Config, s: State, a: nat, ok: bool)
    requires Inv(s.opener) && Indexed(s.opener) && Fresh(c, s) && Enabled(s, Prepare(a, ok))
    ensures Fresh(c, Apply(c, s, Prepare(a, ok)))
  {
    hide Fresh;
    var s' := Apply(c, s, Prepare(a, ok));
    var phase := s'.opener.attempts[a].phase;
    if phase.Finishing? {
      SetPhaseCalm(s.opener, a, phase);
      CalmKeepsFresh(c, s, s');
    } else {
      PreparedFresh(c, s, a);
    }
  }

  lemma MakePoolFresh(c: Config, s: State, a: nat, result: PoolResult)
    requires Inv(s.opener) && Indexed(s.opener) && Fresh(c, s) && Enabled(s, MakePool(a, result))
    ensures Fresh(c, Apply(c, s, MakePool(a, result)))
  {
    var o := s.opener;
    var s' := Apply(c, s, MakePool(a, result));
    if !result.Made? {
      SetPhaseCalm(o, a, s'.opener.attempts[a].phase);
      CalmKeepsFresh(c, s, s');
    } else {
      forall b | 0 <= b < |s'.opener.attempts| ensures AttemptFresh(c, s', b) && PreparedFrom(c, s', b) {
        assert AttemptFresh(c, s, b) && PreparedFrom(c, s, b) && AttemptOk(o, b);
      }
      forall e | e in s'.opener.entries ensures EntryFresh(c, s', e) { assert EntryFresh(c, s, e) && EntryOk(o, e); }
      forall p | 0 <= p < |s'.opener.pools| ensures BuiltFrom(c, s', p) {
        assert PreparedFrom(c, s, a);
        if p < |o.pools| { assert BuiltFrom(c, s, p); }
      }
      forall i | 0 <= i < |s'.callers| ensures CallerFresh(s', i) {
        assert CallerFresh(s, i);
        if s.callers[i].outcome.Waiting? { assert AttemptOk(o, s.callers[i].outcome.attempt); }
      }
    }
  }

  lemma PublishServesCallers(c: Config, s: State, a: nat, i: nat)
    requires Inv(s.opener) && Indexed(s.opener) && Fresh(c, s) && Enabled(s, FinishAttempt(a))
    requires IsCurrent(s.opener, a) && s.opener.attempts[a].phase.client.Some?
    requires i < |s.callers|
    ensures CallerFresh(Apply(c, s, FinishAttempt(a)), i)
  {
    assert AttemptOk(s.opener, a) && CallerFresh(s, i);
    assert Publishable(s.opener, a);
    if s.callers[i].outcome.Waiting? { assert AttemptOk(s.opener, s.callers[i].outcome.attempt); }
  }

  /** An attempt that publishes passes on the version its callers were waiting for. */
  lemma PublishedAttemptFresh(c: Config, s: State, a: nat, b: nat)
    requires Inv(s.opener) && Indexed(s.opener) && Fresh(c, s) && Enabled(s, FinishAttempt(a))
    requires IsCurrent(s.opener, a) && s.opener.attempts[a].phase.client.Some?
    requires b < |s.opener.attempts|
    ensures AttemptFresh(c, Apply(c, s, FinishAttempt(a)), b) && PreparedFrom(c, Apply(c, s, FinishAttempt(a)), b)
  {
    assert AttemptOk(s.opener, a) && AttemptFresh(c, s, a);
    assert AttemptFresh(c, s, b) && PreparedFrom(c, s, b) && AttemptOk(s.opener, b);
  }

  lemma PublishedEntryFresh(c: Config, s: State, a: nat, id: Id)
    requires Inv(s.opener) && Indexed(s.opener) && Fresh(c, s) && Enabled(s, FinishAttempt(a))
    requires IsCurrent(s.opener, a) && s.opener.attempts[a].phase.client.Some?
    requires id in Apply(c, s, FinishAttempt(a)).opener.entries
    ensures EntryFresh(c, Apply(c, s, FinishAttempt(a)), id)
  {
    assert AttemptOk(s.opener, a) && AttemptFresh(c, s, a);
    assert Publishable(s.opener, a);
    assert EntryFresh(c, s, id);
  }

  lemma PublishedPoolFresh(c: Config, s: State, a: nat, p: nat)
    requires Inv(s.opener) && Indexed(s.opener) && Fresh(c, s) && Enabled(s, FinishAttempt(a))
    requires IsCurrent(s.opener, a) && s.opener.attempts[a].phase.client.Some?
    requires p < |s.opener.pools|
    ensures BuiltFrom(c, Apply(c, s, FinishAttempt(a)), p)
  {
    assert BuiltFrom(c, s, p);
  }

  lemma PublishFresh(c: Config, s: State, a: nat)
    requires Inv(s.opener) && Indexed(s.opener) && Fresh(c, s) && Enabled(s, FinishAttempt(a))
    requires IsCurrent(s.opener, a) && s.opener.attempts[a].phase.client.Some?
    ensures Fresh(c, Apply(c, s, FinishAttempt(a)))
  {
    hide Inv;
    hide AttemptFresh;
    hide PreparedFrom;
    hide EntryFresh;
    hide BuiltFrom;
    hide CallerFresh;
    var s' := Apply(c, s, FinishAttempt(a));
    var o' := s'.opener;
    forall b | 0 <= b < |o'.attempts| ensures AttemptFresh(c, s', b) && PreparedFrom(c, s', b) {
      PublishedAttemptFresh(c, s, a, b);
    }
    forall e | e in o'.entries ensures EntryFresh(c, s', e) { PublishedEntryFresh(c, s, a, e); }
    forall p | 0 <= p < |o'.pools| ensures BuiltFrom(c, s', p) { PublishedPoolFresh(c, s, a, p); }
    forall i | 0 <= i < |s'.callers| ensures CallerFresh(s', i) { PublishServesCallers(c, s, a, i); }
  }

  lemma FinishFresh(c: Config, s: State, a: nat)
    requires Inv(s.opener) && Indexed(s.opener) && Fresh(c, s) && Enabled(s, FinishAttempt(a))
    ensures Fresh(c, Apply(c, s, FinishAttempt(a)))
  {
    hide Fresh;
    hide EntryOk;
    hide PoolOk;
    hide CloserOk;
    hide Counters;
    var o := s.opener;
    assert AttemptOk(o, a);
    if IsCurrent(o, a) && o.attempts[a].phase.client.Some? {
      PublishFresh(c, s, a);
    } else {
      var s' := Apply(c, s, FinishAttempt(a));
      forall b | 0 <= b < |o.attempts| ensures CalmAttempt(o, s'.opener, b) {}
      CalmKeepsFresh(c, s, s');
    }
  }

  /** Every action keeps freshness. */
  lemma StepFresh(c: Config, s: State, act: Action)
    requires Inv(s.opener) && Indexed(s.opener) && Fresh(c, s) && Enabled(s, act)
    ensures Fresh(c, Apply(c, s, act))
  {
    match act
    case Register(id, kind) => RegisterFresh(c, s, id, kind);
    case InvalidateNext(id, v) => InvalidateNextFresh(c, s, id, v);
    case Call(id, ended) => CallFresh(c, s, id, ended);
    case Await(i, ended) => AwaitFresh(c, s, i, ended);
    case Prepare(a, ok) => PrepareFresh(c, s, a, ok);
    case MakePool(a, result) => MakePoolFresh(c, s, a, result);
    case FinishAttempt(a) => FinishFresh(c, s, a);
    case _ =>
      CalmSteps(c, s, act);
      CalmKeepsFresh(c, s, Apply(c, s, act));
  }
}
