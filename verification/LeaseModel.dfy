/**
 The SQLite runtime: leases on logical entries, counted twice, and a drain that closes when the
 last lease is back. Sessions are the calls of open and the clients they return; each of their
 steps is atomic, and they interleave freely.
 */
module LeaseModel {
  import opened Common
  import Text

  type Id = Text.Bytes

  datatype Logical = Logical(active: int, detached: bool)

  /** Entries are shared by reference: they are indices into a table that only grows. */
  datatype Runtime = Runtime(
    isClosed: bool,
    active: int,
    entries: map<Id, nat>,
    logical: seq<Logical>,
    drainClosed: bool,
    drainCloses: nat)

  const NEW_RUNTIME := Runtime(false, 0, map[], [], false, 0)

  ghost predicate Indexed(r: Runtime) {
    forall id | id in r.entries :: r.entries[id] < |r.logical|
  }

  /** The entry a lease on the id goes to. */
  function EntryFor(r: Runtime, id: Id): nat
    requires Indexed(r)
  {
    if id in r.entries && !r.logical[r.entries[id]].detached then r.entries[id] else |r.logical|
  }

  function Acquire(r: Runtime, id: Id): (next: Runtime)
    requires Indexed(r) && !r.isClosed
    ensures Indexed(next) && EntryFor(r, id) < |next.logical|
  {
    var e := EntryFor(r, id);
    var logical := if e == |r.logical| then r.logical + [Logical(0, false)] else r.logical;
    r.(logical := logical[e := logical[e].(active := logical[e].active + 1)],
       entries := r.entries[id := e],
       active := r.active + 1)
  }

  function CloseDrain(r: Runtime): Runtime {
    if r.drainClosed then r else r.(drainClosed := true, drainCloses := r.drainCloses + 1)
  }

  /** Neither counter goes below zero. */
  function Lowered(n: int): int { if n > 0 then n - 1 else n }

  function Release(r: Runtime, id: Id, e: nat): Runtime
    requires e < |r.logical|
  {
    var entry := r.logical[e].(active := Lowered(r.logical[e].active));
    var active := Lowered(r.active);
    var entries := if entry.active == 0 && id in r.entries && r.entries[id] == e then r.entries - {id} else r.entries;
    var next := r.(logical := r.logical[e := entry], active := active, entries := entries);
    if r.isClosed && active == 0 then CloseDrain(next) else next
  }

  function Invalidate(r: Runtime, id: Id): Runtime
    requires Indexed(r)
  {
    if r.isClosed || id !in r.entries then r
    else
      var e := r.entries[id];
      r.(logical := r.logical[e := r.logical[e].(detached := true)], entries := r.entries - {id})
  }

  /** The entries with every attached one detached. */
  function DetachAttached(r: Runtime): (logical: seq<Logical>)
    ensures |logical| == |r.logical|
    ensures forall e | 0 <= e < |logical| ::
              logical[e] == if e in r.entries.Values then r.logical[e].(detached := true) else r.logical[e]
  {
    seq(|r.logical|, e requires 0 <= e < |r.logical| =>
      if e in r.entries.Values then r.logical[e].(detached := true) else r.logical[e])
  }

  /** Close up to its unlock; the caller then waits for the drain or for its context. */
  function Close(r: Runtime): Runtime {
    if r.isClosed then r
    else
      var next := r.(isClosed := true, logical := DetachAttached(r), entries := map[]);
      if r.active == 0 then CloseDrain(next) else next
  }

  // ---- Sessions ----

  /** A session opens a connection on its lease, may keep it as a client, and releases once. */
  datatype Phase = Opening | Kept | Released

  datatype Session = Session(id: Id, entry: nat, phase: Phase)

  datatype State = State(runtime: Runtime, sessions: seq<Session>)

  datatype Action =
    | Begin(id: Id)
    /** Prepare, the path, the physical open or the context failed: the deferred release runs. */
    | Fail(session: nat)
    | Keep(session: nat)
    /** client.close, which its user may call more than once. */
    | CloseClient(session: nat)
    | InvalidateID(id: Id)
    | CloseRuntime

  ghost predicate Enabled(s: State, act: Action) {
    && Indexed(s.runtime)
    && match act
       case Begin(_) => true
       case Fail(k) => k < |s.sessions| && s.sessions[k].phase == Opening && Leased(s, k)
       case Keep(k) => k < |s.sessions| && s.sessions[k].phase == Opening
       case CloseClient(k) => k < |s.sessions| && s.sessions[k].phase != Opening && Leased(s, k)
       case InvalidateID(_) => true
       case CloseRuntime => true
  }

  predicate Leased(s: State, k: nat)
    requires k < |s.sessions|
  {
    s.sessions[k].entry < |s.runtime.logical|
  }

  function ReleaseSession(s: State, k: nat): State
    requires k < |s.sessions| && Leased(s, k)
  {
    var session := s.sessions[k];
    State(Release(s.runtime, session.id, session.entry), s.sessions[k := session.(phase := Released)])
  }

  ghost function Apply(s: State, act: Action): State
    requires Enabled(s, act)
  {
    match act
    case Begin(id) =>
      if s.runtime.isClosed then s
      else State(Acquire(s.runtime, id), s.sessions + [Session(id, EntryFor(s.runtime, id), Opening)])
    case Fail(k) => ReleaseSession(s, k)
    case Keep(k) => s.(sessions := s.sessions[k := s.sessions[k].(phase := Kept)])
    case CloseClient(k) => if s.sessions[k].phase == Kept then ReleaseSession(s, k) else s
    case InvalidateID(id) => s.(runtime := Invalidate(s.runtime, id))
    case CloseRuntime => s.(runtime := Close(s.runtime))
  }

  const INITIAL := State(NEW_RUNTIME, [])

  ghost predicate IsRun(states: seq<State>, acts: seq<Action>) {
    && |states| == |acts| + 1
    && states[0] == INITIAL
    && forall i | 0 <= i < |acts| :: Enabled(states[i], acts[i]) && states[i + 1] == Apply(states[i], acts[i])
  }

  // ---- The invariant ----

  function HoldsOn(e: nat): Session -> nat {
    (session: Session) => if session.phase != Released && session.entry == e then 1 else 0
  }

  function Holds(session: Session): nat {
    if session.phase != Released then 1 else 0
  }

  function ActiveOf(entry: Logical): nat {
    if entry.active > 0 then entry.active else 0
  }

  ghost predicate Counts(s: State) {
    && s.runtime.active == SumBy(s.sessions, Holds)
    && forall e | 0 <= e < |s.runtime.logical| :: s.runtime.logical[e].active == SumBy(s.sessions, HoldsOn(e))
  }

  /** The map holds attached entries in use, each for one id, and the leases on them are for that id. */
  ghost predicate Attached(s: State) {
    var r := s.runtime;
    && Indexed(r)
    && (forall id | id in r.entries :: r.logical[r.entries[id]].active > 0 && !r.logical[r.entries[id]].detached)
    && (forall k | 0 <= k < |s.sessions| ::
          Leased(s, k) && (s.sessions[k].phase != Released && !r.logical[s.sessions[k].entry].detached
                           ==> s.sessions[k].id in r.entries && r.entries[s.sessions[k].id] == s.sessions[k].entry))
    && (forall id, other | id in r.entries && other in r.entries && r.entries[id] == r.entries[other] :: id == other)
  }

  ghost predicate Drains(r: Runtime) {
    && r.drainClosed == (r.isClosed && r.active == 0)
    && r.drainCloses == (if r.drainClosed then 1 else 0)
    && (r.isClosed ==> r.entries == map[])
  }

  ghost predicate Inv(s: State) {
    Counts(s) && Attached(s) && Drains(s.runtime)
  }

  lemma HolderCounts(s: State, k: nat)
    requires Inv(s) && k < |s.sessions| && s.sessions[k].phase != Released
    ensures s.runtime.active > 0 && s.runtime.logical[s.sessions[k].entry].active > 0
  {
    var session := s.sessions[k];
    SumByUpdate(s.sessions, k, session, Holds);
    SumByUpdate(s.sessions, k, session, HoldsOn(session.entry));
  }

  lemma BeginCounts(s: State, id: Id)
    requires Inv(s) && !s.runtime.isClosed
    ensures Counts(Apply(s, Begin(id)))
  {
    var next, e := Apply(s, Begin(id)), EntryFor(s.runtime, id);
    var session := Session(id, e, Opening);
    SumByAppend(s.sessions, session, Holds);
    forall x | 0 <= x < |next.runtime.logical|
      ensures next.runtime.logical[x].active == SumBy(next.sessions, HoldsOn(x))
    {
      SumByAppend(s.sessions, session, HoldsOn(x));
      if x == |s.runtime.logical| {
        NobodyHolds(s, x, |s.sessions|);
        assert s.sessions[..|s.sessions|] == s.sessions;
      }
    }
  }

  lemma {:induction false} NobodyHolds(s: State, e: nat, n: nat)
    requires Attached(s) && e >= |s.runtime.logical| && n <= |s.sessions|
    ensures SumBy(s.sessions[..n], HoldsOn(e)) == 0
    decreases n
  {
    if n > 0 {
      NobodyHolds(s, e, n - 1);
      assert s.sessions[..n] == s.sessions[..n - 1] + [s.sessions[n - 1]];
      SumByAppend(s.sessions[..n - 1], s.sessions[n - 1], HoldsOn(e));
      assert Leased(s, n - 1);
    }
  }

  lemma BeginAttached(s: State, id: Id)
    requires Inv(s) && !s.runtime.isClosed
    ensures Attached(Apply(s, Begin(id))) && Drains(Apply(s, Begin(id)).runtime)
  {
    var next := Apply(s, Begin(id));
    SumActive(s);
    forall k | 0 <= k < |s.sessions| ensures Leased(next, k) && next.sessions[k] == s.sessions[k] {
      assert Leased(s, k);
    }
  }

  lemma SumActive(s: State)
    requires Counts(s)
    ensures s.runtime.active >= 0
    ensures forall e | 0 <= e < |s.runtime.logical| :: s.runtime.logical[e].active >= 0
  {
  }

  lemma ReleaseCounts(s: State, k: nat)
    requires Inv(s) && k < |s.sessions| && s.sessions[k].phase != Released
    ensures Counts(ReleaseSession(s, k))
  {
    var session := s.sessions[k];
    var released := session.(phase := Released);
    var next := ReleaseSession(s, k);
    HolderCounts(s, k);
    SumByUpdate(s.sessions, k, released, Holds);
    forall x | 0 <= x < |next.runtime.logical|
      ensures next.runtime.logical[x].active == SumBy(next.sessions, HoldsOn(x))
    {
      SumByUpdate(s.sessions, k, released, HoldsOn(x));
    }
  }

  /** A lease that is the last on its entry is the only one. */
  lemma LastHolder(s: State, k: nat, other: nat)
    requires Inv(s) && k < |s.sessions| && other < |s.sessions| && k != other
    requires s.sessions[k].phase != Released && s.sessions[other].phase != Released
    requires s.sessions[k].entry == s.sessions[other].entry
    ensures s.runtime.logical[s.sessions[k].entry].active > 1
  {
    var e, released := s.sessions[k].entry, s.sessions[k].(phase := Released);
    SumByUpdate(s.sessions, k, released, HoldsOn(e));
    SumByUpdate(s.sessions[k := released], other, s.sessions[other], HoldsOn(e));
  }

  lemma ReleaseAttached(s: State, k: nat)
    requires Inv(s) && k < |s.sessions| && s.sessions[k].phase != Released
    ensures Attached(ReleaseSession(s, k))
  {
    var next, session := ReleaseSession(s, k), s.sessions[k];
    var r, e := s.runtime, session.entry;
    HolderCounts(s, k);
    forall j | 0 <= j < |s.sessions|
      ensures Leased(next, j)
      ensures next.sessions[j].phase != Released && !next.runtime.logical[next.sessions[j].entry].detached
              ==> next.sessions[j].id in next.runtime.entries
                  && next.runtime.entries[next.sessions[j].id] == next.sessions[j].entry
    {
      assert Leased(s, j);
      if j != k && s.sessions[j].phase != Released && s.sessions[j].entry == e {
        LastHolder(s, k, j);
      }
    }
    assert !r.logical[e].detached ==> session.id in r.entries && r.entries[session.id] == e;
  }

  lemma ReleaseDrains(s: State, k: nat)
    requires Inv(s) && k < |s.sessions| && s.sessions[k].phase != Released
    ensures Drains(ReleaseSession(s, k).runtime)
  {
    HolderCounts(s, k);
  }

  lemma KeepKeeps(s: State, k: nat)
    requires Inv(s) && k < |s.sessions| && s.sessions[k].phase == Opening
    ensures Inv(Apply(s, Keep(k)))
  {
    var kept := s.sessions[k].(phase := Kept);
    var next := Apply(s, Keep(k));
    SumByUpdate(s.sessions, k, kept, Holds);
    forall x | 0 <= x < |next.runtime.logical|
      ensures next.runtime.logical[x].active == SumBy(next.sessions, HoldsOn(x))
    {
      SumByUpdate(s.sessions, k, kept, HoldsOn(x));
    }
    forall j | 0 <= j < |s.sessions| ensures Leased(next, j) && next.sessions[j].entry == s.sessions[j].entry {
      assert Leased(s, j);
    }
  }

  lemma InvalidateKeeps(s: State, id: Id)
    requires Inv(s)
    ensures Inv(Apply(s, InvalidateID(id)))
  {
    var next := Apply(s, InvalidateID(id));
    forall j | 0 <= j < |s.sessions| ensures Leased(next, j) && Leased(s, j) {
      assert Leased(s, j);
    }
  }

  lemma CloseKeeps(s: State)
    requires Inv(s)
    ensures Inv(Apply(s, CloseRuntime))
  {
    var next := Apply(s, CloseRuntime);
    forall j | 0 <= j < |s.sessions| ensures Leased(next, j) && Leased(s, j) {
      assert Leased(s, j);
    }
    if !s.runtime.isClosed {
      forall j | 0 <= j < |s.sessions| && next.sessions[j].phase != Released
        ensures next.runtime.logical[next.sessions[j].entry].detached
      {
        assert Leased(s, j);
        if !s.runtime.logical[s.sessions[j].entry].detached {
          assert s.runtime.entries[s.sessions[j].id] in s.runtime.entries.Values;
        }
      }
    }
  }

  lemma StepKeeps(s: State, act: Action)
    requires Inv(s) && Enabled(s, act)
    ensures Inv(Apply(s, act))
  {
    hide Counts;
    hide Attached;
    hide Drains;
    match act
    case Begin(id) =>
      if !s.runtime.isClosed {
        BeginCounts(s, id);
        BeginAttached(s, id);
      }
    case Fail(k) => ReleaseKeeps(s, k);
    case Keep(k) => KeepKeeps(s, k);
    case CloseClient(k) =>
      if s.sessions[k].phase == Kept {
        ReleaseKeeps(s, k);
      }
    case InvalidateID(id) => InvalidateKeeps(s, id);
    case CloseRuntime => CloseKeeps(s);
  }

  lemma ReleaseKeeps(s: State, k: nat)
    requires Inv(s) && k < |s.sessions| && s.sessions[k].phase != Released
    requires Leased(s, k)
    ensures Inv(ReleaseSession(s, k))
  {
    ReleaseCounts(s, k);
    ReleaseAttached(s, k);
    ReleaseDrains(s, k);
  }
}
