/** The inductive invariant of the opener: who owns each pool, what each table holds, what the WaitGroups count. */
module OpenerInvariant {
  import opened Common
  import opened OpenerModel

  /** An entry is of the current generation and holds exactly one of a client and an unfinished attempt. */
  ghost predicate EntryOk(o: Opener, id: Id)
    requires id in o.entries
  {
    var e := o.entries[id];
    && e.generation == GenerationOf(o, id)
    && (e.client.Some? <==> e.attempt.None?)
    && (e.client.Some? ==>
          && e.client.value < |o.pools|
          && o.pools[e.client.value].owner == ByEntry(id)
          && o.pools[e.client.value].id == id)
    && (e.attempt.Some? ==>
          && e.attempt.value < |o.attempts|
          && o.attempts[e.attempt.value].id == id
          && o.attempts[e.attempt.value].generation == e.generation
          && BeforeFinish(o.attempts[e.attempt.value].phase))
  }

  /** done is closed at most once, together with exactly one result, and not before finishAttempt. */
  ghost predicate AttemptOk(o: Opener, a: nat)
    requires a < |o.attempts|
  {
    var t := o.attempts[a];
    && t.closes == (if BeforeFinish(t.phase) then 0 else 1)
    && (t.closes == 0 ==> t.client.None? && t.err.None?)
    && (t.closes == 1 ==> (t.client.Some? <==> t.err.None?))
    && (t.client.Some? ==> t.client.value < |o.pools| && o.pools[t.client.value].id == t.id)
    && (t.phase.Finishing? ==> (t.phase.client.Some? <==> t.phase.err.None?))
    && (HeldPool(t.phase).Some? ==>
          && HeldPool(t.phase).value < |o.pools|
          && o.pools[HeldPool(t.phase).value].owner == ByAttempt(a)
          && o.pools[HeldPool(t.phase).value].id == t.id)
  }

  /** A pool is where its owner says, and only a closer has called its Close, once. */
  ghost predicate PoolOk(o: Opener, p: nat)
    requires p < |o.pools|
  {
    match o.pools[p].owner
    case ByAttempt(a) =>
      a < |o.attempts| && HeldPool(o.attempts[a].phase) == Some(p) && o.pools[p].closeCalls == 0
    case ByEntry(id) =>
      id in o.entries && o.entries[id].client == Some(p) && o.pools[p].closeCalls == 0
    case ByCloser(k) =>
      && k < |o.closers| && o.closers[k].pool == p
      && o.pools[p].closeCalls == (if o.closers[k].stage.Spawned? then 0 else 1)
  }

  ghost predicate CloserOk(o: Opener, k: nat)
    requires k < |o.closers|
  {
    o.closers[k].pool < |o.pools| && o.pools[o.closers[k].pool].owner == ByCloser(k)
  }

  function LiveAttempt(t: Attempt): nat { if t.phase.Gone? then 0 else 1 }

  function LiveCloser(c: Closer): nat { if c.stage.Finished? then 0 else 1 }

  ghost predicate Tables(o: Opener) {
    && (forall id | id in o.entries :: EntryOk(o, id))
    && (forall a | 0 <= a < |o.attempts| :: AttemptOk(o, a))
    && (forall p | 0 <= p < |o.pools| :: PoolOk(o, p))
    && (forall k | 0 <= k < |o.closers| :: CloserOk(o, k))
  }

  ghost predicate Counters(o: Opener) {
    && o.attemptsWG == SumBy(o.attempts, LiveAttempt)
    && o.closersWG == SumBy(o.closers, LiveCloser)
  }

  /** Once closed the cache is empty; a passed Wait leaves nothing for its WaitGroup to count. */
  ghost predicate Closing(o: Opener) {
    && (o.isClosed <==> !o.completer.NotStarted?)
    && (o.isClosed ==> o.entries == map[])
    && (o.completer.WaitingClosers? || o.completer.Completed? ==> o.attemptsWG == 0)
    && (o.completer.Completed? ==> o.closersWG == 0)
  }

  ghost predicate Inv(o: Opener) {
    Tables(o) && Counters(o) && Closing(o)
  }

  lemma TablesAreIndexed(o: Opener)
    requires Tables(o)
    ensures Indexed(o)
  {
    forall id | id in o.entries
      ensures o.entries[id].client.Some? ==> o.entries[id].client.value < |o.pools|
      ensures o.entries[id].attempt.Some? ==> o.entries[id].attempt.value < |o.attempts|
    {
      assert EntryOk(o, id);
    }
    forall a | 0 <= a < |o.attempts|
      ensures HeldPool(o.attempts[a].phase).Some? ==> HeldPool(o.attempts[a].phase).value < |o.pools|
    {
      assert AttemptOk(o, a);
    }
    forall k | 0 <= k < |o.closers| ensures o.closers[k].pool < |o.pools| {
      assert CloserOk(o, k);
    }
  }

  /** With an attempt still running, no Wait on the attempts has been passed. */
  lemma LiveAttemptHoldsWait(o: Opener, a: nat)
    requires Inv(o) && a < |o.attempts| && !o.attempts[a].phase.Gone?
    ensures o.attemptsWG > 0 && !o.completer.WaitingClosers? && !o.completer.Completed?
  {
    SumByUpdate(o.attempts, a, o.attempts[a], LiveAttempt);
  }

  lemma LiveCloserHoldsWait(o: Opener, k: nat)
    requires Inv(o) && k < |o.closers| && !o.closers[k].stage.Finished?
    ensures o.closersWG > 0 && !o.completer.Completed?
  {
    SumByUpdate(o.closers, k, o.closers[k], LiveCloser);
  }

  /** Moving one attempt between phases that hold the same pool and are both before finishAttempt. */
  lemma SetPhaseKeeps(o: Opener, a: nat, phase: Phase)
    requires Inv(o) && a < |o.attempts|
    requires BeforeFinish(o.attempts[a].phase) && BeforeFinish(phase)
    requires HeldPool(phase) == HeldPool(o.attempts[a].phase)
    requires phase.Finishing? ==> (phase.client.Some? <==> phase.err.None?)
    ensures Inv(SetPhase(o, a, phase))
  {
    var o' := SetPhase(o, a, phase);
    SumByUpdate(o.attempts, a, o'.attempts[a], LiveAttempt);
    forall id | id in o'.entries ensures EntryOk(o', id) { assert EntryOk(o, id); }
    forall b | 0 <= b < |o'.attempts| ensures AttemptOk(o', b) { assert AttemptOk(o, b); }
    forall p | 0 <= p < |o'.pools| ensures PoolOk(o', p) { assert PoolOk(o, p); }
    forall k | 0 <= k < |o'.closers| ensures CloserOk(o', k) { assert CloserOk(o, k); }
  }

  lemma CancelKeeps(o: Opener, a: nat, cause: Error)
    requires Tables(o) && Counters(o) && a < |o.attempts|
    ensures Tables(Cancel(o, a, cause)) && Counters(Cancel(o, a, cause))
  {
    var o' := Cancel(o, a, cause);
    SumByUpdate(o.attempts, a, o'.attempts[a], LiveAttempt);
    forall id | id in o'.entries ensures EntryOk(o', id) { assert EntryOk(o, id); }
    forall b | 0 <= b < |o'.attempts| ensures AttemptOk(o', b) { assert AttemptOk(o, b); }
    forall p | 0 <= p < |o'.pools| ensures PoolOk(o', p) { assert PoolOk(o, p); }
    forall k | 0 <= k < |o'.closers| ensures CloserOk(o', k) { assert CloserOk(o, k); }
  }

  lemma ExpireKeeps(o: Opener, a: nat)
    requires Inv(o) && a < |o.attempts|
    ensures Inv(Cancel(o, a, OpenTimeout))
  {
    hide Tables, Counters;
    CancelKeeps(o, a, OpenTimeout);
  }

  lemma OpenRawKeeps(o: Opener, id: Id)
    requires Inv(o)
    ensures Inv(OpenRaw(o, id).0)
  {
    var o' := OpenRaw(o, id).0;
    if o' != o {
      SumByAppend(o.attempts, o'.attempts[|o.attempts|], LiveAttempt);
      forall i | i in o'.entries ensures EntryOk(o', i) { if i != id { assert EntryOk(o, i); } }
      forall b | 0 <= b < |o'.attempts| ensures AttemptOk(o', b) { if b < |o.attempts| { assert AttemptOk(o, b); } }
      forall p | 0 <= p < |o'.pools| ensures PoolOk(o', p) {
        assert PoolOk(o, p);
      }
      forall k | 0 <= k < |o'.closers| ensures CloserOk(o', k) { assert CloserOk(o, k); }
    }
  }

  lemma MakePoolKeeps(o: Opener, a: nat, result: PoolResult)
    requires Inv(o) && a < |o.attempts| && o.attempts[a].phase.Prepared?
    ensures Inv(ApplyMakePool(o, a, result))
  {
    hide SumBy;
    var o' := ApplyMakePool(o, a, result);
    if result.Made? {
      SumByUpdate(o.attempts, a, o'.attempts[a], LiveAttempt);
      forall id | id in o'.entries ensures EntryOk(o', id) { assert EntryOk(o, id); }
      forall b | 0 <= b < |o'.attempts| ensures AttemptOk(o', b) { assert AttemptOk(o, b); }
      forall p | 0 <= p < |o'.pools| ensures PoolOk(o', p) { if p < |o.pools| { assert PoolOk(o, p); } }
      forall k | 0 <= k < |o'.closers| ensures CloserOk(o', k) { assert CloserOk(o, k); }
    } else {
      SetPhaseKeeps(o, a, o'.attempts[a].phase);
    }
  }

  lemma PublishKeeps(d: Dialect, o: Opener, a: nat)
    requires Inv(o) && Indexed(o) && a < |o.attempts| && o.attempts[a].phase.Finishing?
    requires IsCurrent(o, a) && o.attempts[a].phase.client.Some?
    ensures Tables(Finish(d, o, a))
  {
    var o' := Finish(d, o, a);
    assert AttemptOk(o, a);
    var t := o.attempts[a];
    assert EntryOk(o, t.id);
    forall id | id in o'.entries ensures EntryOk(o', id) { assert EntryOk(o, id); }
    forall b | 0 <= b < |o'.attempts| ensures AttemptOk(o', b) { assert AttemptOk(o, b); }
    forall p | 0 <= p < |o'.pools| ensures PoolOk(o', p) { assert PoolOk(o, p); }
    forall k | 0 <= k < |o'.closers| ensures CloserOk(o', k) { assert CloserOk(o, k); }
  }

  lemma FailKeeps(d: Dialect, o: Opener, a: nat)
    requires Inv(o) && Indexed(o) && a < |o.attempts| && o.attempts[a].phase.Finishing?
    requires IsCurrent(o, a) && o.attempts[a].phase.client.None?
    ensures Tables(Finish(d, o, a))
  {
    var o' := Finish(d, o, a);
    assert AttemptOk(o, a);
    assert EntryOk(o, o.attempts[a].id);
    forall id | id in o'.entries ensures EntryOk(o', id) { assert EntryOk(o, id); }
    forall b | 0 <= b < |o'.attempts| ensures AttemptOk(o', b) { assert AttemptOk(o, b); }
    forall p | 0 <= p < |o'.pools| ensures PoolOk(o', p) { assert PoolOk(o, p); }
    forall k | 0 <= k < |o'.closers| ensures CloserOk(o', k) { assert CloserOk(o, k); }
  }

  lemma RejectKeeps(d: Dialect, o: Opener, a: nat)
    requires Inv(o) && Indexed(o) && a < |o.attempts| && o.attempts[a].phase.Finishing?
    requires !IsCurrent(o, a)
    ensures Tables(Finish(d, o, a))
  {
    var o' := Finish(d, o, a);
    assert AttemptOk(o, a);
    forall id | id in o'.entries ensures EntryOk(o', id) {
      assert EntryOk(o, id);
      assert o.entries[id].attempt != Some(a);
    }
    forall b | 0 <= b < |o'.attempts| ensures AttemptOk(o', b) { assert AttemptOk(o, b); }
    forall p | 0 <= p < |o'.pools| ensures PoolOk(o', p) { assert PoolOk(o, p); }
    forall k | 0 <= k < |o'.closers| ensures CloserOk(o', k) { assert CloserOk(o, k); }
  }

  lemma FinishKeeps(d: Dialect, o: Opener, a: nat)
    requires Inv(o) && Indexed(o) && a < |o.attempts| && o.attempts[a].phase.Finishing?
    ensures Inv(Finish(d, o, a))
  {
    assert AttemptOk(o, a);
    SumByUpdate(o.attempts, a, Finish(d, o, a).attempts[a], LiveAttempt);
    LiveAttemptHoldsWait(o, a);
    if !IsCurrent(o, a) {
      RejectKeeps(d, o, a);
    } else if o.attempts[a].phase.client.Some? {
      PublishKeeps(d, o, a);
    } else {
      FailKeeps(d, o, a);
    }
  }

  /** A pool nobody holds any more, on its way to a closer; everything else is in order. */
  ghost predicate Orphaned(o: Opener, p: nat) {
    && p < |o.pools| && o.pools[p].closeCalls == 0
    && (match o.pools[p].owner
        case ByAttempt(a) => a < |o.attempts| && HeldPool(o.attempts[a].phase) != Some(p)
        case ByEntry(id) => id !in o.entries
        case ByCloser(_) => false)
    && (forall id | id in o.entries :: EntryOk(o, id))
    && (forall a | 0 <= a < |o.attempts| :: AttemptOk(o, a))
    && (forall q | 0 <= q < |o.pools| && q != p :: PoolOk(o, q))
    && (forall k | 0 <= k < |o.closers| :: CloserOk(o, k))
    && Counters(o)
  }

  lemma SpawnAdopts(o: Opener, p: nat)
    requires Orphaned(o, p)
    ensures Tables(SpawnCloser(o, p)) && Counters(SpawnCloser(o, p))
  {
    var o' := SpawnCloser(o, p);
    SumByAppend(o.closers, o'.closers[|o.closers|], LiveCloser);
    forall id | id in o'.entries ensures EntryOk(o', id) { assert EntryOk(o, id); }
    forall b | 0 <= b < |o'.attempts| ensures AttemptOk(o', b) { assert AttemptOk(o, b); }
    forall q | 0 <= q < |o'.pools| ensures PoolOk(o', q) { if q != p { assert PoolOk(o, q); } }
    forall k | 0 <= k < |o'.closers| ensures CloserOk(o', k) { if k < |o.closers| { assert CloserOk(o, k); } }
  }

  lemma HandOverOrphans(o: Opener, a: nat, next: Phase)
    requires Inv(o) && a < |o.attempts|
    requires o.attempts[a].phase.Discarding? || o.attempts[a].phase.Stale?
    requires HeldPool(next).None? && !next.Gone? && BeforeFinish(next) == o.attempts[a].phase.Discarding?
    requires next.Finishing? ==> next.err.Some?
    ensures Orphaned(SetPhase(o, a, next), o.attempts[a].phase.pool)
  {
    var p := o.attempts[a].phase.pool;
    assert AttemptOk(o, a) && PoolOk(o, p);
    var o' := SetPhase(o, a, next);
    SumByUpdate(o.attempts, a, o'.attempts[a], LiveAttempt);
    forall id | id in o'.entries ensures EntryOk(o', id) { assert EntryOk(o, id); }
    forall b | 0 <= b < |o'.attempts| ensures AttemptOk(o', b) { assert AttemptOk(o, b); }
    forall q | 0 <= q < |o'.pools| && q != p ensures PoolOk(o', q) { assert PoolOk(o, q); }
    forall k | 0 <= k < |o'.closers| ensures CloserOk(o', k) { assert CloserOk(o, k); }
  }

  lemma HandOverKeeps(o: Opener, a: nat)
    requires Inv(o) && Indexed(o) && a < |o.attempts|
    requires o.attempts[a].phase.Discarding? || o.attempts[a].phase.Stale?
    ensures Inv(CloseTracked(o, a))
  {
    hide Tables;
    hide Counters;
    hide Orphaned;
    var next := CloseTracked(o, a).attempts[a].phase;
    HandOverOrphans(o, a, next);
    SpawnAdopts(SetPhase(o, a, next), o.attempts[a].phase.pool);
    LiveAttemptHoldsWait(o, a);
  }

  lemma LeaveKeeps(o: Opener, a: nat)
    requires Inv(o) && a < |o.attempts| && o.attempts[a].phase.Returning?
    ensures Inv(SetPhase(o, a, Gone).(attemptsWG := o.attemptsWG - 1))
  {
    var o' := SetPhase(o, a, Gone).(attemptsWG := o.attemptsWG - 1);
    SumByUpdate(o.attempts, a, o'.attempts[a], LiveAttempt);
    LiveAttemptHoldsWait(o, a);
    forall id | id in o'.entries ensures EntryOk(o', id) { assert EntryOk(o, id); }
    forall b | 0 <= b < |o'.attempts| ensures AttemptOk(o', b) { assert AttemptOk(o, b); }
    forall p | 0 <= p < |o'.pools| ensures PoolOk(o', p) { assert PoolOk(o, p); }
    forall k | 0 <= k < |o'.closers| ensures CloserOk(o', k) { assert CloserOk(o, k); }
  }

  lemma DetachClientKeeps(o: Opener, id: Id, cause: Error)
    requires Tables(o) && Counters(o) && Indexed(o)
    requires id in o.entries && o.entries[id].client.Some?
    ensures Tables(Detach(o, id, cause)) && Counters(Detach(o, id, cause))
  {
    var p := o.entries[id].client.value;
    assert EntryOk(o, id) && PoolOk(o, p);
    var dropped := o.(entries := o.entries - {id});
    forall i | i in dropped.entries ensures EntryOk(dropped, i) { assert EntryOk(o, i); }
    forall b | 0 <= b < |o.attempts| ensures AttemptOk(dropped, b) { assert AttemptOk(o, b); }
    forall q | 0 <= q < |o.pools| && q != p ensures PoolOk(dropped, q) { assert PoolOk(o, q); }
    forall k | 0 <= k < |o.closers| ensures CloserOk(dropped, k) { assert CloserOk(o, k); }
    SpawnAdopts(dropped, p);
  }

  lemma DetachAttemptKeeps(o: Opener, id: Id, cause: Error)
    requires Tables(o) && Counters(o) && Indexed(o)
    requires id in o.entries && o.entries[id].client.None?
    ensures Tables(Detach(o, id, cause)) && Counters(Detach(o, id, cause))
  {
    assert EntryOk(o, id);
    var dropped := o.(entries := o.entries - {id});
    forall i | i in dropped.entries ensures EntryOk(dropped, i) { assert EntryOk(o, i); }
    forall b | 0 <= b < |o.attempts| ensures AttemptOk(dropped, b) { assert AttemptOk(o, b); }
    forall p | 0 <= p < |o.pools| ensures PoolOk(dropped, p) { assert PoolOk(o, p); }
    forall k | 0 <= k < |o.closers| ensures CloserOk(dropped, k) { assert CloserOk(o, k); }
    CancelKeeps(dropped, o.entries[id].attempt.value, cause);
  }

  /** Detaching keeps everything but the rule that a closed cache is empty, which holds when the loop ends. */
  lemma DetachKeeps(o: Opener, id: Id, cause: Error)
    requires Tables(o) && Counters(o) && Indexed(o)
    ensures Tables(Detach(o, id, cause)) && Counters(Detach(o, id, cause))
    ensures Detach(o, id, cause).entries == o.entries - {id}
    ensures Detach(o, id, cause).isClosed == o.isClosed
    ensures Detach(o, id, cause).completer == o.completer
    ensures Detach(o, id, cause).attemptsWG == o.attemptsWG
  {
    hide Tables, Counters;
    if id !in o.entries {
      assert o.entries - {id} == o.entries;
    } else if o.entries[id].client.Some? {
      DetachClientKeeps(o, id, cause);
    } else {
      DetachAttemptKeeps(o, id, cause);
    }
  }

  /** The entry of the id has left, so its generation may move. */
  lemma BumpKeeps(o: Opener, id: Id)
    requires Tables(o) && Counters(o) && id !in o.entries
    ensures Tables(o.(generations := o.generations[id := GenerationOf(o, id) + 1]))
  {
    var o' := o.(generations := o.generations[id := GenerationOf(o, id) + 1]);
    forall i | i in o'.entries ensures EntryOk(o', i) { assert EntryOk(o, i); }
    forall b | 0 <= b < |o'.attempts| ensures AttemptOk(o', b) { assert AttemptOk(o, b); }
    forall p | 0 <= p < |o'.pools| ensures PoolOk(o', p) { assert PoolOk(o, p); }
    forall k | 0 <= k < |o'.closers| ensures CloserOk(o', k) { assert CloserOk(o, k); }
  }

  lemma InvalidateKeeps(o: Opener, id: Id)
    requires Inv(o) && Indexed(o)
    ensures Inv(Invalidate(o, id))
  {
    hide Tables;
    if !o.isClosed {
      DetachKeeps(o, id, OpenInvalidated);
      BumpKeeps(Detach(o, id, OpenInvalidated), id);
    }
  }

  lemma {:induction false} DetachAllKeeps(o: Opener, order: seq<Id>)
    requires Tables(o) && Counters(o) && Indexed(o)
    ensures Tables(DetachAll(o, order)) && Counters(DetachAll(o, order))
    ensures DetachAll(o, order).isClosed == o.isClosed
    ensures DetachAll(o, order).completer == o.completer
    ensures DetachAll(o, order).attemptsWG == o.attemptsWG
    ensures DetachAll(o, order).entries == map id | id in o.entries && id !in order :: o.entries[id]
    decreases |order|
  {
    hide Tables;
    hide Detach;
    if order != [] {
      var prefix := order[..|order| - 1];
      DetachAllKeeps(o, prefix);
      DetachKeeps(DetachAll(o, prefix), order[|order| - 1], RuntimeClosed);
      assert order == prefix + [order[|order| - 1]];
    }
  }

  lemma ShutdownKeeps(o: Opener, order: seq<Id>)
    requires Inv(o) && Indexed(o) && Enumerates(order, o.entries)
    ensures Inv(Close(o, order)) && Close(o, order).isClosed
  {
    if !o.isClosed {
      var o1 := o.(isClosed := true, completer := WaitingAttempts);
      forall i | i in o1.entries ensures EntryOk(o1, i) { assert EntryOk(o, i); }
      forall b | 0 <= b < |o1.attempts| ensures AttemptOk(o1, b) { assert AttemptOk(o, b); }
      forall p | 0 <= p < |o1.pools| ensures PoolOk(o1, p) { assert PoolOk(o, p); }
      forall k | 0 <= k < |o1.closers| ensures CloserOk(o1, k) { assert CloserOk(o, k); }
      DetachAllKeeps(o1, order);
    }
  }

  lemma SetStageKeeps(o: Opener, k: nat, o': Opener)
    requires Inv(o) && k < |o.closers| && !o.closers[k].stage.Finished?
    requires |o'.closers| == |o.closers| && o'.closers == o.closers[k := o.closers[k].(stage := o'.closers[k].stage)]
    requires !o'.closers[k].stage.Spawned?
    requires o.closers[k].pool < |o.pools|
    requires var p := o.closers[k].pool;
             o'.pools == o.pools[p := o.pools[p].(closeCalls :=
               o.pools[p].closeCalls + if o.closers[k].stage.Spawned? then 1 else 0)]
    requires o'.closersWG == o.closersWG - if o'.closers[k].stage.Finished? then 1 else 0
    requires o' == o.(closers := o'.closers, pools := o'.pools, closersWG := o'.closersWG, closeErrs := o'.closeErrs)
    ensures Inv(o')
  {
    SumByUpdate(o.closers, k, o'.closers[k], LiveCloser);
    LiveCloserHoldsWait(o, k);
    forall id | id in o'.entries ensures EntryOk(o', id) { assert EntryOk(o, id); }
    forall b | 0 <= b < |o'.attempts| ensures AttemptOk(o', b) { assert AttemptOk(o, b); }
    forall p | 0 <= p < |o'.pools| ensures PoolOk(o', p) { assert PoolOk(o, p); assert CloserOk(o, k); }
    forall j | 0 <= j < |o'.closers| ensures CloserOk(o', j) { assert CloserOk(o, j); }
  }

  lemma CloserStepKeeps(c: Config, s: State, act: Action)
    requires Inv(s.opener) && Indexed(s.opener) && Enabled(s, act)
    requires act.RunCloser? || act.RecordError? || act.LeaveCloser?
    ensures Inv(Apply(c, s, act).opener)
  {
    var k := act.closer;
    assert CloserOk(s.opener, k);
    SetStageKeeps(s.opener, k, Apply(c, s, act).opener);
  }

  lemma CompleteKeeps(o: Opener)
    requires Inv(o)
    requires (o.completer.WaitingAttempts? && o.attemptsWG == 0) || (o.completer.WaitingClosers? && o.closersWG == 0)
    ensures Inv(o.(completer := if o.completer.WaitingAttempts? then WaitingClosers else Completed))
  {
    var o' := o.(completer := if o.completer.WaitingAttempts? then WaitingClosers else Completed);
    forall b | 0 <= b < |o'.attempts| ensures AttemptOk(o', b) { assert AttemptOk(o, b); }
    forall p | 0 <= p < |o'.pools| ensures PoolOk(o', p) { assert PoolOk(o, p); }
    forall k | 0 <= k < |o'.closers| ensures CloserOk(o', k) { assert CloserOk(o, k); }
  }

  /** Every action keeps the invariant. */
  lemma StepKeeps(c: Config, s: State, act: Action)
    requires Inv(s.opener) && Indexed(s.opener) && Enabled(s, act)
    ensures Inv(Apply(c, s, act).opener)
  {
    hide Inv;
    var o := s.opener;
    match act
    case Register(_, _) =>
    case InvalidateNext(id, _) => InvalidateKeeps(o, id);
    case Call(id, _) => OpenRawKeeps(o, id);
    case Await(_, _) =>
    case Expire(a) => ExpireKeeps(o, a);
    case Prepare(a, _) => SetPhaseKeeps(o, a, Apply(c, s, act).opener.attempts[a].phase);
    case MakePool(a, result) => MakePoolKeeps(o, a, result);
    case Ping(a, _) => SetPhaseKeeps(o, a, Apply(c, s, act).opener.attempts[a].phase);
    case CheckCause(a) => SetPhaseKeeps(o, a, Apply(c, s, act).opener.attempts[a].phase);
    case HandOver(a) => HandOverKeeps(o, a);
    case FinishAttempt(a) => FinishKeeps(c.dialect, o, a);
    case Leave(a) => LeaveKeeps(o, a);
    case Shutdown(order) => ShutdownKeeps(o, order);
    case RunCloser(_, _) => CloserStepKeeps(c, s, act);
    case RecordError(_) => CloserStepKeeps(c, s, act);
    case LeaveCloser(_) => CloserStepKeeps(c, s, act);
    case Complete => CompleteKeeps(o);
  }
}
