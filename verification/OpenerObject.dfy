/**
 The opener as the object it is: fields updated in place, one method per critical section. Each
 method is proved to take the step of the transition system, so what holds over runs holds of it.
 */
module OpenerObject {
  import opened Common
  import opened OpenerModel

  class RuntimeCache {
    const dialect: Dialect
    var entries: map<Id, Entry>
    var generations: map<Id, nat>
    var attempts: seq<Attempt>
    var pools: seq<Pool>
    var closers: seq<Closer>
    var attemptsWG: int
    var closersWG: int
    var isClosed: bool
    var completer: Completer
    var closeErrs: seq<CloseError>

    ghost function Snapshot(): Opener
      reads this
    {
      Opener(entries, generations, attempts, pools, closers, attemptsWG, closersWG, isClosed, completer, closeErrs)
    }

    constructor (dialect: Dialect)
      ensures Snapshot() == NEW_OPENER && this.dialect == dialect
    {
      this.dialect := dialect;
      entries, generations := map[], map[];
      attempts, pools, closers := [], [], [];
      attemptsWG, closersWG := 0, 0;
      isClosed, completer, closeErrs := false, NotStarted, [];
    }

    method Generation(id: Id) returns (generation: nat)
      ensures generation == GenerationOf(Snapshot(), id)
    {
      generation := if id in generations then generations[id] else 0;
    }

    /** openRaw up to its unlock: serve the cached client, join the attempt, or start one. */
    method OpenRaw(id: Id) returns (outcome: Outcome)
      modifies this
      ensures (Snapshot(), outcome) == OpenerModel.OpenRaw(old(Snapshot()), id)
    {
      if isClosed {
        return Failed(RuntimeClosed);
      }
      var generation := Generation(id);
      if id in entries {
        var entry := entries[id];
        if entry.client.Some? {
          return Got(entry.client.value);
        }
        if entry.attempt.Some? {
          return Waiting(entry.attempt.value);
        }
      }
      var attempt := |attempts|;
      attempts := attempts + [Attempt(id, generation, None, 0, None, None, Starting)];
      entries := entries[id := Entry(generation, None, Some(attempt))];
      attemptsWG := attemptsWG + 1;
      return Waiting(attempt);
    }

    /** closers.Add(1) and the goroutine that closes the pool. */
    method StartTrackedClose(pool: nat)
      requires pool < |pools|
      modifies this
      ensures Snapshot() == SpawnCloser(old(Snapshot()), pool)
    {
      pools := pools[pool := pools[pool].(owner := ByCloser(|closers|))];
      closers := closers + [Closer(pool, Spawned)];
      closersWG := closersWG + 1;
    }

    method CancelAttempt(a: nat, cause: Error)
      requires a < |attempts|
      modifies this
      ensures Snapshot() == Cancel(old(Snapshot()), a, cause)
    {
      if attempts[a].cause.None? {
        attempts := attempts[a := attempts[a].(cause := Some(cause))];
      }
    }

    /** finishAttempt for the goroutine of attempt `a`, whose openRuntime returned `client` and `err`. */
    method FinishAttempt(a: nat, client: Option<nat>, err: Option<Error>)
      requires Indexed(Snapshot())
      requires a < |attempts| && attempts[a].phase == Finishing(client, err)
      modifies this
      ensures Snapshot() == Finish(dialect, old(Snapshot()), a)
    {
      var attempt := attempts[a];
      var id := attempt.id;
      var generation := Generation(id);
      var phase := Returning;
      if !isClosed && generation == attempt.generation && id in entries && entries[id].attempt == Some(a) {
        if err.None? && client.Some? {
          entries := entries[id := entries[id].(client := client, attempt := None)];
          attempt := attempt.(client := client);
          pools := pools[client.value := pools[client.value].(owner := ByEntry(id))];
        } else {
          entries := entries - {id};
          attempt := attempt.(err := Some(if err.Some? then err.value else PoolMissing));
        }
      } else {
        if client.Some? {
          phase := Stale(client.value);
        }
        var reason: Error;
        if isClosed {
          reason := RuntimeClosed;
        } else if err.Some? {
          reason := err.value;
        } else {
          reason := if dialect.Postgres? then PoolMissing else OpenInvalidated;
        }
        attempt := attempt.(err := Some(reason));
      }
      attempts := attempts[a := attempt.(closes := attempt.closes + 1, phase := phase)];
    }

    /** The goroutine of an attempt hands a failed or rejected pool to a closer. */
    method CloseTracked(a: nat)
      requires Indexed(Snapshot()) && a < |attempts|
      requires attempts[a].phase.Discarding? || attempts[a].phase.Stale?
      modifies this
      ensures Snapshot() == OpenerModel.CloseTracked(old(Snapshot()), a)
    {
      var attempt := attempts[a];
      var pool := attempt.phase.pool;
      if attempt.phase.Stale? {
        attempts := attempts[a := attempt.(phase := Returning)];
      } else {
        var err := if attempt.cause.Some? then attempt.cause.value else attempt.phase.reason;
        attempts := attempts[a := attempt.(phase := Finishing(None, Some(err)))];
      }
      StartTrackedClose(pool);
    }

    /** Remove the entry of an id; cancel its attempt or start closing its pool. */
    method DetachEntry(id: Id, cause: Error)
      requires Indexed(Snapshot())
      modifies this
      ensures Snapshot() == Detach(old(Snapshot()), id, cause)
      ensures Indexed(Snapshot())
    {
      if id in entries {
        var entry := entries[id];
        entries := entries - {id};
        if entry.attempt.Some? {
          CancelAttempt(entry.attempt.value, cause);
        }
        if entry.client.Some? {
          StartTrackedClose(entry.client.value);
        }
      }
      DetachIndexed(old(Snapshot()), id, cause);
    }

    method Invalidate(id: Id)
      requires Indexed(Snapshot())
      modifies this
      ensures Snapshot() == OpenerModel.Invalidate(old(Snapshot()), id)
      ensures Indexed(Snapshot())
    {
      if isClosed {
        return;
      }
      var generation := Generation(id);
      DetachEntry(id, OpenInvalidated);
      generations := generations[id := generation + 1];
    }

    /** Close up to its unlock; the loop visits the entries in an arbitrary order, which it reports. */
    method Close() returns (ghost order: seq<Id>)
      requires Indexed(Snapshot())
      modifies this
      ensures Enumerates(order, old(entries))
      ensures Snapshot() == OpenerModel.Close(old(Snapshot()), order)
      ensures Indexed(Snapshot())
    {
      if isClosed {
        order := EnumerationOf(entries);
        return;
      }
      isClosed := true;
      completer := WaitingAttempts;
      ghost var start := Snapshot();
      order := [];
      var rest := entries.Keys;
      while rest != {}
        invariant start == old(Snapshot()).(isClosed := true, completer := WaitingAttempts) && Indexed(start)
        invariant Indexed(Snapshot()) && Snapshot() == DetachAll(start, order)
        invariant rest !! set id | id in order
        invariant rest + (set id | id in order) == old(entries).Keys
        invariant forall i, j | 0 <= i < j < |order| :: order[i] != order[j]
        decreases rest
      {
        var id :| id in rest;
        DetachEntry(id, RuntimeClosed);
        rest := rest - {id};
        assert (order + [id])[..|order|] == order;
        order := order + [id];
      }
    }
  }

  lemma DetachIndexed(o: Opener, id: Id, cause: Error)
    requires Indexed(o)
    ensures Indexed(Detach(o, id, cause))
  {
  }

  /** The keys of a map, in some order. */
  ghost function EnumerationOf(entries: map<Id, Entry>): (order: seq<Id>)
    ensures Enumerates(order, entries)
    decreases |entries|
  {
    if entries == map[] then []
    else
      var id :| id in entries;
      EnumerationOf(entries - {id}) + [id]
  }
}
