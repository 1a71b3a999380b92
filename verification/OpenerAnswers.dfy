/**
 What callers are answered: which attempt a call joins, when an attempt publishes its client, which error it ends
 with otherwise, and that a waiting caller is told just that.
 */
module OpenerAnswers {
  import opened Common
  import opened OpenerModel
  import opened OpenerInvariant
  import opened OpenerTheorems

  // ---- Joining ----

  /**
   A call on an open runtime is answered by what its entry holds afterwards, a client or an attempt to wait for. An
   attempt is started exactly when there was no entry, so two calls share the attempt that is under way.
   */
  lemma CallIsAnswered(c: Config, states: seq<State>, acts: seq<Action>, i: nat, id: Id)
    requires IsRun(c, states, acts) && i < |acts| && acts[i] == Call(id, false) && !states[i].opener.isClosed
    ensures var o, o' := states[i].opener, states[i + 1].opener;
      && |states[i + 1].callers| == |states[i].callers| + 1
      && id in o'.entries
      && (var caller := states[i + 1].callers[|states[i].callers|];
          && caller.id == id
          && (forall p: nat :: caller.outcome == Got(p) <==> o'.entries[id].client == Some(p))
          && (forall a: nat :: caller.outcome == Waiting(a) <==> o'.entries[id].attempt == Some(a))
          && !caller.outcome.Failed?)
      && (id in o.entries ==> o' == o)
      && (id !in o.entries ==>
            && |o'.attempts| == |o.attempts| + 1
            && o'.entries[id].attempt == Some(|o.attempts|)
            && o'.attempts[|o.attempts|].phase == Starting)
  {
    RunHolds(c, states, acts, i);
    assert Step(c, states[i], acts[i], states[i + 1]);
    if id in states[i].opener.entries {
      assert EntryOk(states[i].opener, id);
    }
  }

  // ---- Waiting ----

  /** A waiting caller whose context lives is told the client or the error of its attempt, and nothing else. */
  lemma WaiterIsTold(c: Config, states: seq<State>, acts: seq<Action>, i: nat, k: nat)
    requires IsRun(c, states, acts) && i < |acts| && acts[i] == Await(k, false)
    ensures k < |states[i].callers| && k < |states[i + 1].callers| && states[i].callers[k].outcome.Waiting?
    ensures var a, outcome := states[i].callers[k].outcome.attempt, states[i + 1].callers[k].outcome;
      && a < |states[i].opener.attempts|
      && (forall p: nat :: outcome == Got(p) <==> states[i].opener.attempts[a].client == Some(p))
      && (forall e :: outcome == Failed(e) <==> states[i].opener.attempts[a].err == Some(e))
      && !outcome.Waiting?
  {
    RunHolds(c, states, acts, i);
    assert Step(c, states[i], acts[i], states[i + 1]);
    assert AttemptOk(states[i].opener, states[i].callers[k].outcome.attempt);
  }

  /** An end of the caller's own context is told as such, before the call and while it waits, and touches nothing. */
  lemma EndedIsTold(c: Config, states: seq<State>, acts: seq<Action>, i: nat, k: nat, id: Id)
    requires IsRun(c, states, acts) && i < |acts|
    requires acts[i] == Await(k, true) || (acts[i] == Call(id, true) && k == |states[i].callers|)
    ensures states[i + 1].opener == states[i].opener && k < |states[i + 1].callers|
    ensures states[i + 1].callers[k].outcome == Failed(ContextEnded)
    ensures forall l | 0 <= l < |states[i].callers| && l != k :: states[i + 1].callers[l] == states[i].callers[l]
  {
    assert Step(c, states[i], acts[i], states[i + 1]);
  }

  // ---- Publishing ----

  /**
   An attempt publishes its client exactly when it has one and its entry is still its own: that the runtime is open
   and the generation unchanged follows. Otherwise it ends with an error, that of its closed runtime first.
   */
  lemma PublishedWhenCurrent(c: Config, states: seq<State>, acts: seq<Action>, i: nat, a: nat)
    requires IsRun(c, states, acts) && i < |acts| && acts[i] == FinishAttempt(a)
    ensures a < |states[i].opener.attempts| && a < |states[i + 1].opener.attempts|
    ensures states[i].opener.attempts[a].phase.Finishing?
    ensures var o, t, t' := states[i].opener, states[i].opener.attempts[a], states[i + 1].opener.attempts[a];
      var own := t.id in o.entries && o.entries[t.id].attempt == Some(a);
      && t'.closes == 1
      && (forall p: nat :: t'.client == Some(p) <==> own && t.phase.client == Some(p))
      && (t.phase.client.None? ==> t'.err == if o.isClosed then Some(RuntimeClosed) else t.phase.err)
      && (t.phase.client.Some? && !own ==>
            t'.err == Some(if o.isClosed then RuntimeClosed
                           else if c.dialect.Postgres? then PoolMissing
                           else OpenInvalidated))
      && (own && t.phase.client.Some? ==>
            t.id in states[i + 1].opener.entries && states[i + 1].opener.entries[t.id].client == t.phase.client)
      && (own && t.phase.client.None? ==> t.id !in states[i + 1].opener.entries)
  {
    RunHolds(c, states, acts, i);
    assert Step(c, states[i], acts[i], states[i + 1]);
    var o := states[i].opener;
    assert AttemptOk(o, a);
    if o.attempts[a].id in o.entries {
      assert EntryOk(o, o.attempts[a].id);
    }
  }

  // ---- Cancelling ----

  /** Whose entry goes: its attempt is cancelled, unless it was before, and its client is handed to a new closer. */
  ghost predicate Dropped(o: Opener, o': Opener, id: Id, cause: Error)
    requires id in o.entries
  {
    && id !in o'.entries
    && (o.entries[id].attempt.Some? ==>
          var a := o.entries[id].attempt.value;
          && a < |o.attempts| && a < |o'.attempts|
          && o'.attempts[a].cause == if o.attempts[a].cause.Some? then o.attempts[a].cause else Some(cause))
    && (o.entries[id].client.Some? ==>
          var p := o.entries[id].client.value;
          p < |o'.pools| && o'.pools[p].owner.ByCloser? && o'.pools[p].owner.closer >= |o.closers|)
  }

  /** An invalidation drops the entry of its id, so that the next call starts anew, and no other. */
  lemma InvalidationDrops(c: Config, states: seq<State>, acts: seq<Action>, i: nat, id: Id, v: nat)
    requires IsRun(c, states, acts) && i < |acts| && acts[i] == InvalidateNext(id, v) && !states[i].opener.isClosed
    ensures v < |RegistrationsOf(states[i], id)| && RegistrationsOf(states[i], id)[v].todo != []
    ensures var o, o' := states[i].opener, states[i + 1].opener;
      if RegistrationsOf(states[i], id)[v].todo[0] == c.kind then
        && (id in o.entries ==> Dropped(o, o', id, OpenInvalidated))
        && o'.entries == o.entries - {id}
        && GenerationOf(o', id) == GenerationOf(o, id) + 1
      else o' == o
  {
    RunHolds(c, states, acts, i);
    assert Step(c, states[i], acts[i], states[i + 1]);
    if id in states[i].opener.entries {
      assert EntryOk(states[i].opener, id);
    }
  }

  /** Close drops every entry. */
  lemma ShutdownDrops(c: Config, states: seq<State>, acts: seq<Action>, i: nat, order: seq<Id>, id: Id)
    requires IsRun(c, states, acts) && i < |acts| && acts[i] == Shutdown(order) && id in states[i].opener.entries
    ensures Dropped(states[i].opener, states[i + 1].opener, id, RuntimeClosed)
  {
    hide Inv;
    hide Indexed;
    hide Close;
    hide Dropped;
    hide Step;
    RunHolds(c, states, acts, i);
    ShutdownStep(c, states, acts, i, order);
    CloseDrops(states[i].opener, order, id);
  }

  lemma ShutdownStep(c: Config, states: seq<State>, acts: seq<Action>, i: nat, order: seq<Id>)
    requires IsRun(c, states, acts) && i < |acts| && acts[i] == Shutdown(order)
    ensures OpenerModel.Indexed(states[i].opener) && Enumerates(order, states[i].opener.entries)
    ensures states[i + 1].opener == Close(states[i].opener, order)
  {
    hide Close;
    assert Step(c, states[i], acts[i], states[i + 1]);
  }

  lemma CloseDrops(o: Opener, order: seq<Id>, id: Id)
    requires Inv(o) && Indexed(o) && Enumerates(order, o.entries) && id in o.entries
    ensures Dropped(o, Close(o, order), id, RuntimeClosed)
  {
    hide Detach;
    hide DetachAll;
    hide Kept;
    hide Counters;
    var o1 := o.(isClosed := true, completer := WaitingAttempts);
    ClosingTables(o, o1);
    DetachAllDrops(o1, order, id);
  }

  lemma ClosingTables(o: Opener, o1: Opener)
    requires Tables(o) && Counters(o) && o1 == o.(isClosed := true, completer := WaitingAttempts)
    ensures Tables(o1) && Counters(o1)
  {
    forall i | i in o1.entries ensures EntryOk(o1, i) { assert EntryOk(o, i); }
    forall b | 0 <= b < |o1.attempts| ensures AttemptOk(o1, b) { assert AttemptOk(o, b); }
    forall p | 0 <= p < |o1.pools| ensures PoolOk(o1, p) { assert PoolOk(o, p); }
    forall k | 0 <= k < |o1.closers| ensures CloserOk(o1, k) { assert CloserOk(o, k); }
  }

  /** Attempts, the entry and the pools of another id stay, and so do pools that closers have. */
  ghost predicate Leaves(o: Opener, o': Opener, id: Id) {
    && |o'.attempts| == |o.attempts| && |o'.pools| == |o.pools|
    && (id in o.entries <==> id in o'.entries)
    && (id in o.entries ==> o'.entries[id] == o.entries[id])
    && (forall a | 0 <= a < |o.attempts| && o.attempts[a].id == id :: o'.attempts[a] == o.attempts[a])
    && (forall p | 0 <= p < |o.pools| && (o.pools[p].owner == ByEntry(id) || o.pools[p].owner.ByCloser?) ::
          o'.pools[p] == o.pools[p])
  }

  lemma DetachLeaves(o: Opener, other: Id, id: Id, cause: Error)
    requires Tables(o) && Indexed(o) && other != id
    ensures Leaves(o, Detach(o, other, cause), id)
  {
    hide Tables;
    if other in o.entries {
      EntryIsOk(o, other);
      DetachEntryLeaves(o, other, id, cause);
    }
  }

  lemma DetachEntryLeaves(o: Opener, other: Id, id: Id, cause: Error)
    requires Indexed(o) && other != id && other in o.entries && EntryOk(o, other)
    ensures Leaves(o, Detach(o, other, cause), id)
  {
    var o' := Detach(o, other, cause);
    var e := o.entries[other];
    assert o'.entries == o.entries - {other};
    if e.client.Some? {
      assert e.attempt.None? && o'.attempts == o.attempts;
      assert o'.pools == o.pools[e.client.value := o'.pools[e.client.value]];
    } else {
      var a := e.attempt.value;
      assert o'.pools == o.pools && o'.attempts == o.attempts[a := o'.attempts[a]];
    }
  }

  /** Nothing of this id has changed yet. */
  ghost predicate Kept(o: Opener, o': Opener, id: Id)
    requires id in o.entries
  {
    && id in o'.entries && o'.entries[id] == o.entries[id]
    && (o.entries[id].attempt.Some? ==>
          var a := o.entries[id].attempt.value;
          a < |o.attempts| && a < |o'.attempts| && o'.attempts[a] == o.attempts[a])
    && (o.entries[id].client.Some? ==>
          var p := o.entries[id].client.value;
          p < |o'.pools| && o'.pools[p].owner == ByEntry(id))
  }

  lemma DetachOne(o: Opener, o1: Opener, id: Id)
    requires Tables(o) && Tables(o1) && Indexed(o1) && id in o.entries && Kept(o, o1, id) && |o1.closers| >= |o.closers|
    ensures Dropped(o, Detach(o1, id, RuntimeClosed), id, RuntimeClosed)
  {
  }

  lemma DetachOther(o: Opener, o1: Opener, other: Id, id: Id)
    requires Tables(o) && Tables(o1) && Indexed(o1) && id in o.entries && other != id
    requires forall a | 0 <= a < |o.attempts| :: a < |o1.attempts| && o1.attempts[a].id == o.attempts[a].id
    ensures Kept(o, o1, id) ==> Kept(o, Detach(o1, other, RuntimeClosed), id)
    ensures Dropped(o, o1, id, RuntimeClosed) ==> Dropped(o, Detach(o1, other, RuntimeClosed), id, RuntimeClosed)
  {
    hide Tables;
    DetachLeaves(o1, other, id, RuntimeClosed);
    EntryIsOk(o, id);
  }

  lemma EntryIsOk(o: Opener, id: Id)
    requires Tables(o) && id in o.entries
    ensures EntryOk(o, id)
  {
  }

  lemma {:induction false} DetachAllDrops(o: Opener, order: seq<Id>, id: Id)
    requires Tables(o) && Counters(o) && Indexed(o) && id in o.entries
    ensures if id in order then Dropped(o, DetachAll(o, order), id, RuntimeClosed) else Kept(o, DetachAll(o, order), id)
    decreases |order|
  {
    hide Tables;
    hide Counters;
    hide Detach;
    hide Kept;
    hide Dropped;
    if order == [] {
      NothingDropped(o, id);
    } else {
      var prefix, last := order[..|order| - 1], order[|order| - 1];
      assert order == prefix + [last];
      var o1 := DetachAll(o, prefix);
      DetachAllDrops(o, prefix, id);
      DetachAllKeeps(o, prefix);
      DetachAllResults(o, prefix);
      if last != id {
        DetachOther(o, o1, last, id);
      } else if id in prefix {
        DetachAgain(o, o1, id);
      } else {
        DetachAllClosers(o, prefix);
        DetachOne(o, o1, id);
      }
    }
  }

  lemma NothingDropped(o: Opener, id: Id)
    requires Tables(o) && id in o.entries
    ensures Kept(o, o, id)
  {
    assert EntryOk(o, id);
  }

  lemma DetachAgain(o: Opener, o1: Opener, id: Id)
    requires Indexed(o1) && id in o.entries && Dropped(o, o1, id, RuntimeClosed)
    ensures Detach(o1, id, RuntimeClosed) == o1
  {
  }

  lemma {:induction false} DetachAllClosers(o: Opener, order: seq<Id>)
    requires Indexed(o)
    ensures |DetachAll(o, order).closers| >= |o.closers|
    decreases |order|
  {
    if order != [] {
      DetachAllClosers(o, order[..|order| - 1]);
    }
  }

  // ---- Which error ----

  /** A pool is given up because its ping failed or because the attempt was cancelled, for the cause recorded. */
  ghost predicate DiscardedFor(t: Attempt) {
    t.phase.Discarding? ==> t.phase.reason == PingFailed || t.cause == Some(t.phase.reason)
  }

  ghost predicate AllDiscardedFor(o: Opener) {
    forall a | 0 <= a < |o.attempts| :: DiscardedFor(o.attempts[a])
  }

  lemma DetachKeepsCauses(o: Opener, id: Id, cause: Error)
    requires Indexed(o)
    ensures |Detach(o, id, cause).attempts| == |o.attempts|
    ensures forall a | 0 <= a < |o.attempts| ::
      && Detach(o, id, cause).attempts[a].(cause := o.attempts[a].cause) == o.attempts[a]
      && (o.attempts[a].cause.Some? ==> Detach(o, id, cause).attempts[a] == o.attempts[a])
  {
    if id in o.entries {
      var entry := o.entries[id];
      var dropped := o.(entries := o.entries - {id});
      var cancelled := if entry.attempt.Some? then Cancel(dropped, entry.attempt.value, cause) else dropped;
      assert Detach(o, id, cause).attempts == cancelled.attempts;
    }
  }

  lemma {:induction false} DetachAllKeepsCauses(o: Opener, order: seq<Id>)
    requires Indexed(o)
    ensures |DetachAll(o, order).attempts| == |o.attempts|
    ensures forall a | 0 <= a < |o.attempts| ::
      && DetachAll(o, order).attempts[a].(cause := o.attempts[a].cause) == o.attempts[a]
      && (o.attempts[a].cause.Some? ==> DetachAll(o, order).attempts[a] == o.attempts[a])
    decreases |order|
  {
    hide Detach;
    if order != [] {
      DetachAllKeepsCauses(o, order[..|order| - 1]);
      DetachKeepsCauses(DetachAll(o, order[..|order| - 1]), order[|order| - 1], RuntimeClosed);
    }
  }

  /** Only its own goroutine takes an attempt on, and the first cause of its cancellation stays. */
  ghost predicate Untaken(t: Attempt, t': Attempt) {
    t' == t.(cause := t'.cause) && (t.cause.Some? ==> t' == t)
  }

  function Mover(act: Action): Option<nat> {
    match act
    case Prepare(a, _) => Some(a)
    case MakePool(a, _) => Some(a)
    case Ping(a, _) => Some(a)
    case CheckCause(a) => Some(a)
    case HandOver(a) => Some(a)
    case FinishAttempt(a) => Some(a)
    case Leave(a) => Some(a)
    case _ => None
  }

  lemma OthersTakeNothing(c: Config, s: State, act: Action, a: nat)
    requires Indexed(s.opener) && Enabled(s, act) && a < |s.opener.attempts| && Mover(act) != Some(a)
    ensures a < |Apply(c, s, act).opener.attempts|
    ensures Untaken(s.opener.attempts[a], Apply(c, s, act).opener.attempts[a])
  {
    hide Indexed;
    hide Enabled;
    hide Apply;
    hide Untaken;
    match act
    case InvalidateNext(id, v) => OthersAtInvalidation(c, s, id, v, a);
    case Shutdown(order) => OthersAtShutdown(c, s, order, a);
    case HandOver(b) => OthersAtHandOver(c, s, b, a);
    case FinishAttempt(b) => OthersAtFinish(c, s, b, a);
    case Prepare(_, _) => OthersAtOpening(c, s, act, a);
    case MakePool(_, _) => OthersAtOpening(c, s, act, a);
    case Ping(_, _) => OthersAtOpening(c, s, act, a);
    case CheckCause(_) => OthersAtOpening(c, s, act, a);
    case Leave(_) => OthersAtOpening(c, s, act, a);
    case _ => OthersOutside(c, s, act, a);
  }

  lemma OthersAtInvalidation(c: Config, s: State, id: Id, v: nat, a: nat)
    requires Indexed(s.opener) && Enabled(s, InvalidateNext(id, v)) && a < |s.opener.attempts|
    ensures a < |Apply(c, s, InvalidateNext(id, v)).opener.attempts|
    ensures Untaken(s.opener.attempts[a], Apply(c, s, InvalidateNext(id, v)).opener.attempts[a])
  {
    hide Detach;
    DetachKeepsCauses(s.opener, id, OpenInvalidated);
  }

  lemma OthersAtOpening(c: Config, s: State, act: Action, a: nat)
    requires Indexed(s.opener) && Enabled(s, act) && a < |s.opener.attempts| && Mover(act) != Some(a)
    requires act.Prepare? || act.MakePool? || act.Ping? || act.CheckCause? || act.Leave?
    ensures a < |Apply(c, s, act).opener.attempts|
    ensures Apply(c, s, act).opener.attempts[a] == s.opener.attempts[a]
    ensures Untaken(s.opener.attempts[a], Apply(c, s, act).opener.attempts[a])
  {
    hide Indexed;
  }

  lemma OthersOutside(c: Config, s: State, act: Action, a: nat)
    requires Indexed(s.opener) && Enabled(s, act) && a < |s.opener.attempts|
    requires act.Register? || act.Call? || act.Await? || act.Expire?
             || act.RunCloser? || act.RecordError? || act.LeaveCloser? || act.Complete?
    ensures a < |Apply(c, s, act).opener.attempts|
    ensures Untaken(s.opener.attempts[a], Apply(c, s, act).opener.attempts[a])
  {
    hide Detach;
    hide DetachAll;
  }

  lemma OthersAtShutdown(c: Config, s: State, order: seq<Id>, a: nat)
    requires Indexed(s.opener) && Enabled(s, Shutdown(order)) && a < |s.opener.attempts|
    ensures a < |Apply(c, s, Shutdown(order)).opener.attempts|
    ensures Untaken(s.opener.attempts[a], Apply(c, s, Shutdown(order)).opener.attempts[a])
  {
    hide Detach;
    hide DetachAll;
    DetachAllKeepsCauses(s.opener.(isClosed := true, completer := WaitingAttempts), order);
  }

  lemma OthersAtHandOver(c: Config, s: State, b: nat, a: nat)
    requires Indexed(s.opener) && Enabled(s, HandOver(b)) && a < |s.opener.attempts| && a != b
    ensures a < |Apply(c, s, HandOver(b)).opener.attempts|
    ensures Apply(c, s, HandOver(b)).opener.attempts[a] == s.opener.attempts[a]
    ensures Untaken(s.opener.attempts[a], Apply(c, s, HandOver(b)).opener.attempts[a])
  {
  }

  lemma OthersAtFinish(c: Config, s: State, b: nat, a: nat)
    requires Indexed(s.opener) && Enabled(s, FinishAttempt(b)) && a < |s.opener.attempts| && a != b
    ensures a < |Apply(c, s, FinishAttempt(b)).opener.attempts|
    ensures Apply(c, s, FinishAttempt(b)).opener.attempts[a] == s.opener.attempts[a]
    ensures Untaken(s.opener.attempts[a], Apply(c, s, FinishAttempt(b)).opener.attempts[a])
  {
  }

  lemma StepDiscards(c: Config, s: State, act: Action)
    requires Indexed(s.opener) && Enabled(s, act) && AllDiscardedFor(s.opener)
    ensures AllDiscardedFor(Apply(c, s, act).opener)
  {
    hide Apply;
    var o, o' := s.opener, Apply(c, s, act).opener;
    forall a | 0 <= a < |o'.attempts| ensures DiscardedFor(o'.attempts[a]) {
      if a >= |o.attempts| {
        NewAttempt(c, s, act, a);
      } else if Mover(act) != Some(a) {
        OthersTakeNothing(c, s, act, a);
      } else {
        MoverDiscards(c, s, act, a);
      }
    }
  }

  lemma NewAttempt(c: Config, s: State, act: Action, a: nat)
    requires Indexed(s.opener) && Enabled(s, act)
    requires |s.opener.attempts| <= a < |Apply(c, s, act).opener.attempts|
    ensures Apply(c, s, act).opener.attempts[a].phase.Starting?
  {
    if act.InvalidateNext? || act.Shutdown? {
      NoNewAttempt(c, s, act);
    } else {
      hide Indexed;
      hide Detach;
      hide DetachAll;
    }
  }

  lemma NoNewAttempt(c: Config, s: State, act: Action)
    requires Indexed(s.opener) && Enabled(s, act) && (act.InvalidateNext? || act.Shutdown?)
    ensures |Apply(c, s, act).opener.attempts| == |s.opener.attempts|
  {
    hide Detach;
    hide DetachAll;
    match act
    case InvalidateNext(id, v) => DetachKeepsCauses(s.opener, id, OpenInvalidated);
    case Shutdown(order) => DetachAllKeepsCauses(s.opener.(isClosed := true, completer := WaitingAttempts), order);
  }

  lemma MoverDiscards(c: Config, s: State, act: Action, a: nat)
    requires Indexed(s.opener) && Enabled(s, act) && Mover(act) == Some(a) && a < |s.opener.attempts|
    requires a < |Apply(c, s, act).opener.attempts|
    ensures DiscardedFor(Apply(c, s, act).opener.attempts[a])
  {
  }

  lemma {:induction false} RunDiscards(c: Config, states: seq<State>, acts: seq<Action>, i: nat)
    requires IsRun(c, states, acts) && i < |states|
    ensures AllDiscardedFor(states[i].opener)
    decreases i
  {
    if i > 0 {
      RunDiscards(c, states, acts, i - 1);
      assert Step(c, states[i - 1], acts[i - 1], states[i]);
      StepDiscards(c, states[i - 1], acts[i - 1]);
    }
  }

  /**
   The error of an attempt that fails: the first cause of its cancellation, and otherwise that of the stage that
   failed. A kind of another runtime and a missing pool are told as such in any case.
   */
  lemma FailureIsNamed(c: Config, states: seq<State>, acts: seq<Action>, i: nat, a: nat)
    requires IsRun(c, states, acts) && i < |acts|
    requires a < |states[i].opener.attempts| && !states[i].opener.attempts[a].phase.Finishing?
    requires a < |states[i + 1].opener.attempts|
    requires states[i + 1].opener.attempts[a].phase.Finishing? && states[i + 1].opener.attempts[a].phase.client.None?
    ensures var t, err := states[i].opener.attempts[a], states[i + 1].opener.attempts[a].phase.err;
      && Mover(acts[i]) == Some(a)
      && err == if acts[i] == Prepare(a, true) && RegistrationsOf(states[i], t.id) != [] then Some(UnsupportedKind)
                else if acts[i] == MakePool(a, Absent) then Some(PoolMissing)
                else if t.cause.Some? then t.cause
                else if acts[i].Prepare? then Some(PrepareFailed)
                else if acts[i].MakePool? then Some(PoolFailed)
                else Some(PingFailed)
  {
    hide Apply;
    RunDiscards(c, states, acts, i);
    RunHolds(c, states, acts, i);
    assert Step(c, states[i], acts[i], states[i + 1]);
    if Mover(acts[i]) != Some(a) {
      OthersTakeNothing(c, states[i], acts[i], a);
    } else {
      assert DiscardedFor(states[i].opener.attempts[a]);
      StepNames(c, states[i], acts[i], a);
    }
  }

  lemma StepNames(c: Config, s: State, act: Action, a: nat)
    requires Indexed(s.opener) && Enabled(s, act) && Mover(act) == Some(a) && a < |s.opener.attempts|
    requires DiscardedFor(s.opener.attempts[a]) && !s.opener.attempts[a].phase.Finishing?
    requires a < |Apply(c, s, act).opener.attempts|
    requires var phase := Apply(c, s, act).opener.attempts[a].phase; phase.Finishing? && phase.client.None?
    ensures var t, err := s.opener.attempts[a], Apply(c, s, act).opener.attempts[a].phase.err;
      err == if act == Prepare(a, true) && RegistrationsOf(s, t.id) != [] then Some(UnsupportedKind)
             else if act == MakePool(a, Absent) then Some(PoolMissing)
             else if t.cause.Some? then t.cause
             else if act.Prepare? then Some(PrepareFailed)
             else if act.MakePool? then Some(PoolFailed)
             else Some(PingFailed)
  {
  }

  // ---- Cancelled attempts ----

  /** Cancelled before its pool was checked: it cannot publish, and can end with the cause or with what came first. */
  ghost predicate Doomed(t: Attempt, cause: Error, isClosed: bool) {
    && t.cause == Some(cause) && t.client.None?
    && (t.err.Some? ==> EndsWith(t.err.value, cause) || (t.err.value == RuntimeClosed && isClosed))
    && match t.phase
       case Finishing(client, err) => client.None? && err.Some? && EndsWith(err.value, cause)
       case Discarding(_, _) => true
       case Stale(_) => false
       case _ => true
  }

  predicate EndsWith(e: Error, cause: Error) {
    e == cause || e == UnsupportedKind || e == PoolMissing
  }

  lemma FinishStaysDoomed(c: Config, s: State, a: nat, cause: Error)
    requires Indexed(s.opener) && Enabled(s, FinishAttempt(a)) && a < |s.opener.attempts|
    requires Doomed(s.opener.attempts[a], cause, s.opener.isClosed)
    ensures var o' := Apply(c, s, FinishAttempt(a)).opener;
      a < |o'.attempts| && o'.isClosed == s.opener.isClosed && Doomed(o'.attempts[a], cause, o'.isClosed)
  {
  }

  lemma HandOverStaysDoomed(c: Config, s: State, a: nat, cause: Error)
    requires Indexed(s.opener) && Enabled(s, HandOver(a)) && a < |s.opener.attempts|
    requires Doomed(s.opener.attempts[a], cause, s.opener.isClosed)
    ensures var o' := Apply(c, s, HandOver(a)).opener;
      a < |o'.attempts| && o'.isClosed == s.opener.isClosed && Doomed(o'.attempts[a], cause, o'.isClosed)
  {
  }

  lemma PrepareStaysDoomed(c: Config, s: State, a: nat, ok: bool, cause: Error)
    requires Indexed(s.opener) && Enabled(s, Prepare(a, ok)) && a < |s.opener.attempts|
    requires Doomed(s.opener.attempts[a], cause, s.opener.isClosed)
    ensures var o' := Apply(c, s, Prepare(a, ok)).opener;
      a < |o'.attempts| && o'.isClosed == s.opener.isClosed && Doomed(o'.attempts[a], cause, o'.isClosed)
  {
    hide Indexed;
  }

  lemma MakePoolStaysDoomed(c: Config, s: State, a: nat, result: PoolResult, cause: Error)
    requires Indexed(s.opener) && Enabled(s, MakePool(a, result)) && a < |s.opener.attempts|
    requires Doomed(s.opener.attempts[a], cause, s.opener.isClosed)
    ensures var o' := Apply(c, s, MakePool(a, result)).opener;
      a < |o'.attempts| && o'.isClosed == s.opener.isClosed && Doomed(o'.attempts[a], cause, o'.isClosed)
  {
    hide Indexed;
  }

  lemma LeavingStaysDoomed(c: Config, s: State, act: Action, a: nat, cause: Error)
    requires Indexed(s.opener) && Enabled(s, act) && Mover(act) == Some(a) && a < |s.opener.attempts|
    requires act.Ping? || act.CheckCause? || act.Leave?
    requires Doomed(s.opener.attempts[a], cause, s.opener.isClosed)
    ensures var o' := Apply(c, s, act).opener;
      a < |o'.attempts| && o'.isClosed == s.opener.isClosed && Doomed(o'.attempts[a], cause, o'.isClosed)
  {
    hide Indexed;
  }

  lemma MoverStaysDoomed(c: Config, s: State, act: Action, a: nat, cause: Error)
    requires Indexed(s.opener) && Enabled(s, act) && Mover(act) == Some(a) && a < |s.opener.attempts|
    requires Doomed(s.opener.attempts[a], cause, s.opener.isClosed)
    ensures var o' := Apply(c, s, act).opener;
      a < |o'.attempts| && o'.isClosed == s.opener.isClosed && Doomed(o'.attempts[a], cause, o'.isClosed)
  {
    hide Indexed;
    hide Enabled;
    hide Apply;
    hide Doomed;
    match act
    case FinishAttempt(_) => FinishStaysDoomed(c, s, a, cause);
    case HandOver(_) => HandOverStaysDoomed(c, s, a, cause);
    case Prepare(_, ok) => PrepareStaysDoomed(c, s, a, ok, cause);
    case MakePool(_, result) => MakePoolStaysDoomed(c, s, a, result, cause);
    case Ping(_, _) => LeavingStaysDoomed(c, s, act, a, cause);
    case CheckCause(_) => LeavingStaysDoomed(c, s, act, a, cause);
    case Leave(_) => LeavingStaysDoomed(c, s, act, a, cause);
  }

  lemma StaysClosed(c: Config, s: State, act: Action)
    requires Indexed(s.opener) && Enabled(s, act) && s.opener.isClosed
    ensures Apply(c, s, act).opener.isClosed
  {
    hide Detach;
    hide DetachAll;
  }

  lemma {:induction false} DoomedForEver(c: Config, states: seq<State>, acts: seq<Action>, i: nat, j: nat, a: nat,
                                         cause: Error)
    requires IsRun(c, states, acts) && i <= j < |states| && a < |states[i].opener.attempts|
    requires Doomed(states[i].opener.attempts[a], cause, states[i].opener.isClosed)
    ensures a < |states[j].opener.attempts|
    ensures Doomed(states[j].opener.attempts[a], cause, states[j].opener.isClosed)
    decreases j - i
  {
    hide Apply;
    if i < j {
      assert Step(c, states[i], acts[i], states[i + 1]);
      if states[i].opener.isClosed { StaysClosed(c, states[i], acts[i]); }
      if Mover(acts[i]) == Some(a) {
        MoverStaysDoomed(c, states[i], acts[i], a, cause);
      } else {
        OthersTakeNothing(c, states[i], acts[i], a);
      }
      DoomedForEver(c, states, acts, i + 1, j, a, cause);
    }
  }

  /**
   An attempt cancelled before its pool passed the check never publishes a client, and its waiters are told the
   cause, but for an error that came of itself or of the runtime's close.
   */
  lemma CancelledIsTold(c: Config, states: seq<State>, acts: seq<Action>, i: nat, j: nat, a: nat)
    requires IsRun(c, states, acts) && i <= j < |states| && a < |states[i].opener.attempts|
    requires var t := states[i].opener.attempts[a];
      t.cause.Some? && (t.phase.Starting? || t.phase.Prepared? || t.phase.Pooled? || t.phase.Pinged?)
    ensures a < |states[j].opener.attempts|
    ensures var t, err := states[j].opener.attempts[a], states[j].opener.attempts[a].err;
      && t.client.None?
      && (err.Some? ==> err == states[i].opener.attempts[a].cause || err == Some(UnsupportedKind)
                        || err == Some(PoolMissing) || (err == Some(RuntimeClosed) && states[j].opener.isClosed))
  {
    RunHolds(c, states, acts, i);
    assert AttemptOk(states[i].opener, a);
    DoomedForEver(c, states, acts, i, j, a, states[i].opener.attempts[a].cause.value);
  }

  // ---- Being served ----

  /**
   From any state of any run in which the runtime is open, the id has no entry and its last registration is of the
   runtime's kind: a call whose attempt meets no failure is served the pool the attempt makes, of that registration.
   */
  lemma CallIsServed(c: Config, states: seq<State>, acts: seq<Action>, s: State, id: Id)
    returns (states': seq<State>, acts': seq<Action>, s': State)
    requires IsRun(c, states, acts) && states[|acts|] == s
    requires !s.opener.isClosed && id !in s.opener.entries
    requires var history := RegistrationsOf(s, id); history != [] && history[|history| - 1].kind == c.kind
    ensures IsRun(c, states', acts') && states <= states' && acts <= acts' && states'[|acts'|] == s'
    ensures |acts| < |acts'| && acts'[|acts|] == Call(id, false)
    ensures |s'.callers| == |s.callers| + 1 && |s'.opener.pools| == |s.opener.pools| + 1
    ensures s'.callers[|s.callers|].outcome == Got(|s.opener.pools|)
    ensures s'.opener.pools[|s.opener.pools|] == Pool(id, |RegistrationsOf(s, id)| - 1, ByEntry(id), 0)
  {
    hide IsRun;
    var a, k := |s.opener.attempts|, |s.callers|;
    states', acts', s' := AttemptIsPooled(c, states, acts, s, id);
    states', acts', s' := AttemptIsPublished(c, states', acts', s', a, |s.opener.pools|);
    states', acts', s' := Advance(c, states', acts', s', Await(k, false));
  }

  /** An attempt that has made its pool, with no cause to give up, in its own entry. */
  lemma AttemptIsPublished(c: Config, states: seq<State>, acts: seq<Action>, s: State, a: nat, p: nat)
    returns (states': seq<State>, acts': seq<Action>, s': State)
    requires IsRun(c, states, acts) && states[|acts|] == s && !s.opener.isClosed
    requires a < |s.opener.attempts| && s.opener.attempts[a].phase == Pooled(p) && p < |s.opener.pools|
    requires var t := s.opener.attempts[a];
      t.cause.None? && t.id in s.opener.entries && s.opener.entries[t.id].attempt == Some(a)
      && GenerationOf(s.opener, t.id) == t.generation
    ensures IsRun(c, states', acts') && states <= states' && acts <= acts' && states'[|acts'|] == s'
    ensures s'.callers == s.callers && |s'.opener.attempts| == |s.opener.attempts|
    ensures s'.opener.attempts[a].client == Some(p) && s'.opener.attempts[a].closes > 0
    ensures s'.opener.pools == s.opener.pools[p := s.opener.pools[p].(owner := ByEntry(s.opener.attempts[a].id))]
  {
    hide IsRun;
    hide Indexed;
    states', acts', s' := Advance(c, states, acts, s, Ping(a, true));
    states', acts', s' := Advance(c, states', acts', s', CheckCause(a));
    states', acts', s' := Advance(c, states', acts', s', FinishAttempt(a));
  }

  lemma AttemptIsPooled(c: Config, states: seq<State>, acts: seq<Action>, s: State, id: Id)
    returns (states': seq<State>, acts': seq<Action>, s': State)
    requires IsRun(c, states, acts) && states[|acts|] == s
    requires !s.opener.isClosed && id !in s.opener.entries
    requires var history := RegistrationsOf(s, id); history != [] && history[|history| - 1].kind == c.kind
    ensures IsRun(c, states', acts') && states <= states' && acts <= acts' && states'[|acts'|] == s'
    ensures |acts| < |acts'| && acts'[|acts|] == Call(id, false)
    ensures var o, o', a := s.opener, s'.opener, |s.opener.attempts|;
      && s'.callers == s.callers + [Caller(id, SettledVersions(RegistrationsOf(s, id), c.kind), Waiting(a))]
      && o'.attempts == o.attempts + [Attempt(id, GenerationOf(o, id), None, 0, None, None, Pooled(|o.pools|))]
      && o'.pools == o.pools + [Pool(id, |RegistrationsOf(s, id)| - 1, ByAttempt(a), 0)]
      && !o'.isClosed && GenerationOf(o', id) == GenerationOf(o, id)
      && id in o'.entries && o'.entries[id] == Entry(GenerationOf(o, id), None, Some(a))
  {
    hide IsRun;
    hide Indexed;
    hide SettledVersions;
    var a := |s.opener.attempts|;
    states', acts', s' := Advance(c, states, acts, s, Call(id, false));
    states', acts', s' := Advance(c, states', acts', s', Prepare(a, true));
    states', acts', s' := Advance(c, states', acts', s', MakePool(a, Made));
  }
}
