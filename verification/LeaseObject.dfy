/** The SQLite runtime and its client as the objects they are. */
module LeaseObject {
  import opened Common
  import opened Text
  import opened LeaseModel
  import Connection

  const KIND: Bytes := Ascii("sqlite")
  const SECRET_PATH: Bytes := Ascii("path")

  /** resolvedPath: the one secret of the definition, a text without NUL. */
  function ResolvedPath(id: Bytes, resolved: Connection.Resolved): (path: Option<Bytes>)
    ensures path.Some? <==>
              && resolved.id == id && resolved.kind == KIND
              && resolved.secrets.Keys == {SECRET_PATH}
              && resolved.secrets[SECRET_PATH] != [] && ValidUtf8(resolved.secrets[SECRET_PATH])
              && 0 !in resolved.secrets[SECRET_PATH]
    ensures path.Some? ==> resolved.secrets == map[SECRET_PATH := path.value]
  {
    if resolved.id != id || resolved.kind != KIND then None
    else if |resolved.secrets| != 1 || SECRET_PATH !in resolved.secrets then None
    else
      var path := resolved.secrets[SECRET_PATH];
      OnlyKey(resolved.secrets, SECRET_PATH);
      if path == [] || !ValidUtf8(path) || 0 in path then None else Some(path)
  }

  lemma OnlyKey(m: map<Bytes, Bytes>, key: Bytes)
    requires |m| == 1 && key in m
    ensures m.Keys == {key}
  {
    var rest := m.Keys - {key};
    assert |m.Keys| == |rest| + 1;
  }

  class LeaseRuntime {
    var isClosed: bool
    var active: int
    var entries: map<Id, nat>
    var logical: seq<Logical>
    var drainClosed: bool
    var drainCloses: nat

    ghost function Snapshot(): Runtime
      reads this
    {
      Runtime(isClosed, active, entries, logical, drainClosed, drainCloses)
    }

    constructor ()
      ensures Snapshot() == NEW_RUNTIME
    {
      isClosed, active, entries, logical, drainClosed, drainCloses := false, 0, map[], [], false, 0;
    }

    method Acquire(id: Id) returns (entry: Option<nat>)
      requires Indexed(Snapshot())
      modifies this
      ensures old(isClosed) ==> entry.None? && Snapshot() == old(Snapshot())
      ensures !old(isClosed) ==>
                entry == Some(EntryFor(old(Snapshot()), id)) && Snapshot() == LeaseModel.Acquire(old(Snapshot()), id)
    {
      if isClosed {
        return None;
      }
      var e;
      if id !in entries || logical[entries[id]].detached {
        e := |logical|;
        logical := logical + [Logical(0, false)];
        entries := entries[id := e];
      } else {
        e := entries[id];
      }
      logical := logical[e := logical[e].(active := logical[e].active + 1)];
      active := active + 1;
      assert entries == old(entries)[id := e];
      return Some(e);
    }

    method CloseDrain()
      modifies this
      ensures Snapshot() == LeaseModel.CloseDrain(old(Snapshot()))
    {
      if drainClosed {
        return;
      }
      drainClosed, drainCloses := true, drainCloses + 1;
    }

    method Release(id: Id, entry: nat)
      requires entry < |logical|
      modifies this
      ensures Snapshot() == LeaseModel.Release(old(Snapshot()), id, entry)
    {
      if logical[entry].active > 0 {
        logical := logical[entry := logical[entry].(active := logical[entry].active - 1)];
      }
      assert logical == old(logical)[entry := logical[entry]];
      if active > 0 {
        active := active - 1;
      }
      if logical[entry].active == 0 && id in entries && entries[id] == entry {
        entries := entries - {id};
      }
      if isClosed && active == 0 {
        CloseDrain();
      }
    }

    method Invalidate(id: Id)
      requires Indexed(Snapshot())
      modifies this
      ensures Snapshot() == LeaseModel.Invalidate(old(Snapshot()), id)
      ensures Indexed(Snapshot())
    {
      if isClosed {
        return;
      }
      if id in entries {
        var e := entries[id];
        logical := logical[e := logical[e].(detached := true)];
        entries := entries - {id};
      }
    }

    /** Close up to its unlock. */
    method Close()
      requires Indexed(Snapshot())
      modifies this
      ensures Snapshot() == LeaseModel.Close(old(Snapshot()))
    {
      if isClosed {
        return;
      }
      isClosed := true;
      ghost var start, attached, done := logical, entries, {};
      var rest := entries.Keys;
      while rest != {}
        invariant rest <= attached.Keys && entries.Keys == rest
        invariant forall id | id in rest :: entries[id] == attached[id]
        invariant isClosed && active == old(active)
        invariant drainClosed == old(drainClosed) && drainCloses == old(drainCloses)
        invariant |logical| == |start| && forall id | id in attached :: attached[id] < |start|
        invariant done == set id | id in attached && id !in rest :: attached[id]
        invariant forall e | 0 <= e < |start| ::
                    logical[e] == if e in done then start[e].(detached := true) else start[e]
        decreases rest
      {
        var id :| id in rest;
        var e := entries[id];
        logical := logical[e := logical[e].(detached := true)];
        entries := entries - {id};
        rest := rest - {id};
        done := done + {e};
      }
      assert done == attached.Values;
      assert logical == DetachAttached(old(Snapshot()));
      if active == 0 {
        CloseDrain();
      }
    }
  }

  /** What open returns: a connection and the one release of its lease. */
  class Client {
    const runtime: LeaseRuntime
    const id: Id
    const entry: nat
    var isReleased: bool

    constructor (runtime: LeaseRuntime, id: Id, entry: nat)
      ensures this.runtime == runtime && this.id == id && this.entry == entry && !isReleased
    {
      this.runtime, this.id, this.entry, this.isReleased := runtime, id, entry, false;
    }

    /** Closes the connection and releases the lease, the first time only. */
    method Close()
      requires entry < |runtime.logical|
      modifies this, runtime
      ensures isReleased
      ensures runtime.Snapshot() == if old(isReleased) then old(runtime.Snapshot())
                                    else LeaseModel.Release(old(runtime.Snapshot()), id, entry)
    {
      if !isReleased {
        runtime.Release(id, entry);
        isReleased := true;
      }
    }
  }

  /**
   open, alone on the runtime: it returns a client exactly when nothing fails, and keeps the lease it took then; on
   every other path past the lease it gives it back once. `opens` tells whether the context lasts and the database
   file opens.
   */
  method Open(runtime: LeaseRuntime, id: Id, ended: bool, prepared: Option<Connection.Resolved>, opens: bool)
    returns (client: Option<Client>)
    requires Indexed(runtime.Snapshot())
    modifies runtime
    ensures client.Some? <==>
              !ended && !old(runtime.isClosed) && prepared.Some? && ResolvedPath(id, prepared.value).Some? && opens
    ensures client.Some? ==>
              && fresh(client.value) && !client.value.isReleased
              && client.value.runtime == runtime && client.value.id == id
              && client.value.entry == EntryFor(old(runtime.Snapshot()), id)
              && runtime.Snapshot() == LeaseModel.Acquire(old(runtime.Snapshot()), id)
    ensures ended || old(runtime.isClosed) ==> runtime.Snapshot() == old(runtime.Snapshot())
    ensures client.None? && !ended && !old(runtime.isClosed) ==>
              runtime.Snapshot() == LeaseModel.Release(LeaseModel.Acquire(old(runtime.Snapshot()), id), id,
                                                       EntryFor(old(runtime.Snapshot()), id))
  {
    if ended {
      return None;
    }
    var lease := runtime.Acquire(id);
    if lease.None? {
      return None;
    }
    if prepared.None? || ResolvedPath(id, prepared.value).None? || !opens {
      runtime.Release(id, lease.value);
      return None;
    }
    var kept := new Client(runtime, id, lease.value);
    return Some(kept);
  }
}
