/**
 The transition system of a database runtime cache: the PostgreSQL and MySQL openers.

 Every critical section under the opener's mutex is one atomic step, and so is every call that
 leaves the opener (preparing a definition, making, pinging and closing a pool). Pointers are
 indices into tables that only grow. WaitGroups are counters, context cancellation is a recorded
 cause, and timeouts and failures are arguments of the actions.
 */
module OpenerModel {
  import opened Common
  import Text

  type Id = Text.Bytes
  type Kind = Text.Bytes
  type CloseError = string

  datatype Error =
    | ContextEnded
    | RuntimeClosed
    | OpenInvalidated
    | OpenTimeout
    | PrepareFailed
    | UnsupportedKind
    | PoolFailed
    | PoolMissing
    | PingFailed

  /** The two openers differ in the error of an invalidated success and in whether closing reports errors. */
  datatype Dialect = Postgres | MySQL

  /** Where the goroutine of one attempt is. */
  datatype Phase =
    | Starting                                              // before Prepare
    | Prepared(version: nat)                                // holds a resolved definition
    | Pooled(pool: nat)                                     // before Ping
    | Pinged(pool: nat)                                     // before the check of the context cause
    | Discarding(pool: nat, reason: Error)                  // about to hand a failed pool to a closer
    | Finishing(client: Option<nat>, err: Option<Error>)    // before finishAttempt
    | Stale(pool: nat)                                      // finishAttempt rejected a live pool
    | Returning                                             // before attempts.Done
    | Gone

  /** An openAttempt: `closes` counts how often its done channel was closed. */
  datatype Attempt = Attempt(
    id: Id,
    generation: nat,
    cause: Option<Error>,
    closes: nat,
    client: Option<nat>,
    err: Option<Error>,
    phase: Phase)

  datatype Entry = Entry(generation: nat, client: Option<nat>, attempt: Option<nat>)

  /** The one place a pool is in. */
  datatype Owner = ByAttempt(attempt: nat) | ByEntry(id: Id) | ByCloser(closer: nat)

  /** `version` is the registration the pool was built from; `closeCalls` counts calls of its Close. */
  datatype Pool = Pool(id: Id, version: nat, owner: Owner, closeCalls: nat)

  /** A closer's goroutine: `result` is the error its pool's Close reported, if any. */
  datatype Stage =
    | Spawned
    | Returned(result: Option<CloseError>)
    | Recorded(result: Option<CloseError>)
    | Finished(result: Option<CloseError>)

  datatype Closer = Closer(pool: nat, stage: Stage)

  /** The goroutine of completeClose. */
  datatype Completer = NotStarted | WaitingAttempts | WaitingClosers | Completed

  datatype Opener = Opener(
    entries: map<Id, Entry>,
    generations: map<Id, nat>,
    attempts: seq<Attempt>,
    pools: seq<Pool>,
    closers: seq<Closer>,
    attemptsWG: int,
    closersWG: int,
    isClosed: bool,
    completer: Completer,
    closeErrs: seq<CloseError>)

  datatype Outcome = Waiting(attempt: nat) | Got(pool: nat) | Failed(err: Error)

  const NEW_OPENER := Opener(map[], map[], [], [], [], 0, 0, false, NotStarted, [])

  // ---- Reading the state ----

  function GenerationOf(o: Opener, id: Id): nat {
    if id in o.generations then o.generations[id] else 0
  }

  function HeldPool(phase: Phase): Option<nat> {
    match phase
    case Pooled(p) => Some(p)
    case Pinged(p) => Some(p)
    case Discarding(p, _) => Some(p)
    case Finishing(client, _) => client
    case Stale(p) => Some(p)
    case _ => None
  }

  predicate BeforeFinish(phase: Phase) {
    !phase.Stale? && !phase.Returning? && !phase.Gone?
  }

  /** The definition version an attempt in this phase works from. */
  function VersionOf(o: Opener, phase: Phase): Option<nat> {
    if phase.Prepared? then Some(phase.version)
    else match HeldPool(phase)
      case Some(p) => if p < |o.pools| then Some(o.pools[p].version) else None
      case None => None
  }

  /** The test finishAttempt makes before it publishes. */
  predicate IsCurrent(o: Opener, a: nat)
    requires a < |o.attempts|
  {
    var t := o.attempts[a];
    && !o.isClosed
    && GenerationOf(o, t.id) == t.generation
    && t.id in o.entries
    && o.entries[t.id].attempt == Some(a)
  }

  function RawError(cause: Option<Error>, err: Error): Error {
    if cause.Some? then cause.value else err
  }

  /** The error recorded on an attempt that may not publish. */
  function RejectError(d: Dialect, isClosed: bool, err: Option<Error>): Error {
    if isClosed then RuntimeClosed
    else match err
      case Some(e) => e
      case None => if d.Postgres? then PoolMissing else OpenInvalidated
  }

  // ---- Critical sections and goroutine steps ----

  /** Every index stored in the opener points into its table. */
  ghost predicate Indexed(o: Opener) {
    && (forall id | id in o.entries ::
          && (o.entries[id].client.Some? ==> o.entries[id].client.value < |o.pools|)
          && (o.entries[id].attempt.Some? ==> o.entries[id].attempt.value < |o.attempts|))
    && (forall a | 0 <= a < |o.attempts| ::
          HeldPool(o.attempts[a].phase).Some? ==> HeldPool(o.attempts[a].phase).value < |o.pools|)
    && (forall k | 0 <= k < |o.closers| :: o.closers[k].pool < |o.pools|)
  }

  ghost function SetPhase(o: Opener, a: nat, phase: Phase): Opener
    requires a < |o.attempts|
  {
    o.(attempts := o.attempts[a := o.attempts[a].(phase := phase)])
  }

  /** closers.Add(1) and the goroutine it accounts for. */
  ghost function SpawnCloser(o: Opener, p: nat): Opener
    requires p < |o.pools|
  {
    o.(closers := o.closers + [Closer(p, Spawned)],
       closersWG := o.closersWG + 1,
       pools := o.pools[p := o.pools[p].(owner := ByCloser(|o.closers|))])
  }

  /** The first cancellation cause of a context wins. */
  ghost function Cancel(o: Opener, a: nat, cause: Error): Opener
    requires a < |o.attempts|
  {
    if o.attempts[a].cause.Some? then o
    else o.(attempts := o.attempts[a := o.attempts[a].(cause := Some(cause))])
  }

  ghost function OpenRaw(o: Opener, id: Id): (Opener, Outcome) {
    if o.isClosed then (o, Failed(RuntimeClosed))
    else if id in o.entries && o.entries[id].client.Some? then (o, Got(o.entries[id].client.value))
    else if id in o.entries && o.entries[id].attempt.Some? then (o, Waiting(o.entries[id].attempt.value))
    else
      var a := |o.attempts|;
      var generation := GenerationOf(o, id);
      (o.(attempts := o.attempts + [Attempt(id, generation, None, 0, None, None, Starting)],
          entries := o.entries[id := Entry(generation, None, Some(a))],
          attemptsWG := o.attemptsWG + 1),
       Waiting(a))
  }

  /** finishAttempt: publish when the attempt is still current, otherwise reject it; then close done. */
  ghost function Finish(d: Dialect, o: Opener, a: nat): Opener
    requires Indexed(o) && a < |o.attempts| && o.attempts[a].phase.Finishing?
  {
    var t := o.attempts[a];
    var Finishing(client, err) := t.phase;
    if IsCurrent(o, a) then
      if err.None? && client.Some? then
        o.(entries := o.entries[t.id := o.entries[t.id].(client := client, attempt := None)],
           attempts := o.attempts[a := t.(client := client, closes := t.closes + 1, phase := Returning)],
           pools := o.pools[client.value := o.pools[client.value].(owner := ByEntry(t.id))])
      else
        o.(entries := o.entries - {t.id},
           attempts := o.attempts[a := t.(err := Some(if err.Some? then err.value else PoolMissing),
                                          closes := t.closes + 1, phase := Returning)])
    else
      o.(attempts := o.attempts[a := t.(err := Some(RejectError(d, o.isClosed, err)),
                                        closes := t.closes + 1,
                                        phase := if client.Some? then Stale(client.value) else Returning)])
  }

  /** closeTracked, called for a pool that failed to open or was rejected. */
  ghost function CloseTracked(o: Opener, a: nat): Opener
    requires Indexed(o) && a < |o.attempts|
    requires o.attempts[a].phase.Discarding? || o.attempts[a].phase.Stale?
  {
    var t := o.attempts[a];
    var next := if t.phase.Stale? then Returning
                else Finishing(None, Some(RawError(t.cause, t.phase.reason)));
    SpawnCloser(SetPhase(o, a, next), t.phase.pool)
  }

  /** Drop an entry: cancel its attempt, or hand its pool to a closer. */
  ghost function Detach(o: Opener, id: Id, cause: Error): Opener
    requires Indexed(o)
  {
    if id !in o.entries then o
    else
      var entry := o.entries[id];
      var dropped := o.(entries := o.entries - {id});
      var cancelled := if entry.attempt.Some? then Cancel(dropped, entry.attempt.value, cause) else dropped;
      if entry.client.Some? then SpawnCloser(cancelled, entry.client.value) else cancelled
  }

  ghost function Invalidate(o: Opener, id: Id): Opener
    requires Indexed(o)
  {
    if o.isClosed then o
    else Detach(o, id, OpenInvalidated).(generations := o.generations[id := GenerationOf(o, id) + 1])
  }

  /** The range loop of Close, in the given order of the entries. */
  ghost function DetachAll(o: Opener, order: seq<Id>): (r: Opener)
    requires Indexed(o)
    ensures Indexed(r)
  {
    if order == [] then o
    else Detach(DetachAll(o, order[..|order| - 1]), order[|order| - 1], RuntimeClosed)
  }

  ghost predicate Enumerates(order: seq<Id>, entries: map<Id, Entry>) {
    && (forall id :: id in order <==> id in entries)
    && (forall i, j | 0 <= i < j < |order| :: order[i] != order[j])
  }

  ghost function Close(o: Opener, order: seq<Id>): Opener
    requires Indexed(o)
  {
    if o.isClosed then o
    else DetachAll(o.(isClosed := true, completer := WaitingAttempts), order)
  }

  // ---- Runs ----

  /** One registration of an id, with the runtimes it has still to invalidate, in order. */
  datatype Registration = Registration(kind: Kind, todo: seq<Kind>)

  /** `settled` records, at the start of a call, the registrations whose effect it must see. */
  datatype Caller = Caller(id: Id, settled: set<nat>, outcome: Outcome)

  datatype Config = Config(kind: Kind, dialect: Dialect)

  datatype State = State(opener: Opener, registry: map<Id, seq<Registration>>, callers: seq<Caller>)

  datatype PoolResult = Made | Refused | Absent

  datatype Action =
    | Register(id: Id, kind: Kind)             // Manager.Register
    | InvalidateNext(id: Id, version: nat)     // the registrar's next Invalidate call
    | Call(id: Id, ended: bool)                // openRaw up to its unlock
    | Await(caller: nat, ended: bool)          // waitForAttempt
    | Expire(attempt: nat)                     // the open timeout
    | Prepare(attempt: nat, ok: bool)
    | MakePool(attempt: nat, result: PoolResult)
    | Ping(attempt: nat, ok: bool)
    | CheckCause(attempt: nat)
    | HandOver(attempt: nat)                   // closeTracked
    | FinishAttempt(attempt: nat)
    | Leave(attempt: nat)                      // attempts.Done
    | Shutdown(order: seq<Id>)                 // Close up to its unlock
    | RunCloser(closer: nat, closeErr: Option<CloseError>)
    | RecordError(closer: nat)
    | LeaveCloser(closer: nat)                 // closers.Done
    | Complete                                 // completeClose passes its next Wait

  function RegistrationsOf(s: State, id: Id): seq<Registration> {
    if id in s.registry then s.registry[id] else []
  }

  /** replacementRegistrar.Register: the previous kind when one was replaced, then a new or changed kind. */
  function Invalidations(history: seq<Registration>, kind: Kind): seq<Kind> {
    if history == [] then [kind]
    else
      var previous := history[|history| - 1].kind;
      if previous == kind then [kind] else [previous, kind]
  }

  /** Registration `v` of the id invalidates the runtimes of this kind. */
  predicate Touches(history: seq<Registration>, v: nat, kind: Kind)
    requires v < |history|
  {
    history[v].kind == kind || (v > 0 && history[v - 1].kind == kind)
  }

  /**
   A client built from definition `w` may still be served: every later registration that touches this
   kind has yet to invalidate it.
   */
  ghost predicate StaleOnlyPending(history: seq<Registration>, w: nat, kind: Kind) {
    && w < |history|
    && history[w].kind == kind
    && (forall v | w < v < |history| && Touches(history, v, kind) :: kind in history[v].todo)
  }

  /** No client of an earlier definition may still be served. */
  ghost predicate Settled(history: seq<Registration>, v: nat, kind: Kind) {
    v < |history| && forall w | 0 <= w < v :: !StaleOnlyPending(history, w, kind)
  }

  ghost function SettledVersions(history: seq<Registration>, kind: Kind): set<nat> {
    set v: nat | v < |history| && Settled(history, v, kind)
  }

  ghost predicate Enabled(s: State, act: Action) {
    var o := s.opener;
    match act
    case Register(_, _) => true
    case InvalidateNext(id, v) =>
      v < |RegistrationsOf(s, id)| && RegistrationsOf(s, id)[v].todo != []
    case Call(_, _) => true
    case Await(i, ended) =>
      && i < |s.callers| && s.callers[i].outcome.Waiting?
      && s.callers[i].outcome.attempt < |o.attempts|
      && (ended || o.attempts[s.callers[i].outcome.attempt].closes > 0)
    case Expire(a) => a < |o.attempts|
    case Prepare(a, _) => a < |o.attempts| && o.attempts[a].phase.Starting?
    case MakePool(a, _) => a < |o.attempts| && o.attempts[a].phase.Prepared?
    case Ping(a, _) => a < |o.attempts| && o.attempts[a].phase.Pooled?
    case CheckCause(a) => a < |o.attempts| && o.attempts[a].phase.Pinged?
    case HandOver(a) => a < |o.attempts| && (o.attempts[a].phase.Discarding? || o.attempts[a].phase.Stale?)
    case FinishAttempt(a) => a < |o.attempts| && o.attempts[a].phase.Finishing?
    case Leave(a) => a < |o.attempts| && o.attempts[a].phase.Returning?
    case Shutdown(order) => Enumerates(order, o.entries)
    case RunCloser(k, _) => k < |o.closers| && o.closers[k].stage.Spawned?
    case RecordError(k) =>
      k < |o.closers| && o.closers[k].stage.Returned? && o.closers[k].stage.result.Some?
    case LeaveCloser(k) =>
      k < |o.closers| && (o.closers[k].stage.Recorded? || o.closers[k].stage == Returned(None))
    case Complete =>
      || (o.completer.WaitingAttempts? && o.attemptsWG == 0)
      || (o.completer.WaitingClosers? && o.closersWG == 0)
  }

  ghost function ApplyPrepare(c: Config, o: Opener, history: seq<Registration>, a: nat, ok: bool): Opener
    requires a < |o.attempts|
  {
    var t := o.attempts[a];
    if !ok || history == [] then SetPhase(o, a, Finishing(None, Some(RawError(t.cause, PrepareFailed))))
    else if history[|history| - 1].kind != c.kind then SetPhase(o, a, Finishing(None, Some(UnsupportedKind)))
    else SetPhase(o, a, Prepared(|history| - 1))
  }

  ghost function ApplyMakePool(o: Opener, a: nat, result: PoolResult): Opener
    requires a < |o.attempts| && o.attempts[a].phase.Prepared?
  {
    var t := o.attempts[a];
    match result
    case Made =>
      SetPhase(o.(pools := o.pools + [Pool(t.id, t.phase.version, ByAttempt(a), 0)]), a, Pooled(|o.pools|))
    case Refused => SetPhase(o, a, Finishing(None, Some(RawError(t.cause, PoolFailed))))
    case Absent => SetPhase(o, a, Finishing(None, Some(PoolMissing)))
  }

  ghost function ApplyCheckCause(o: Opener, a: nat): Opener
    requires a < |o.attempts| && o.attempts[a].phase.Pinged?
  {
    var t := o.attempts[a];
    SetPhase(o, a, if t.cause.Some? then Discarding(t.phase.pool, t.cause.value)
                   else Finishing(Some(t.phase.pool), None))
  }

  ghost function SetStage(o: Opener, k: nat, stage: Stage): Opener
    requires k < |o.closers|
  {
    o.(closers := o.closers[k := o.closers[k].(stage := stage)])
  }

  ghost function ApplyRunCloser(d: Dialect, o: Opener, k: nat, result: Option<CloseError>): Opener
    requires Indexed(o) && k < |o.closers|
  {
    var p := o.closers[k].pool;
    SetStage(o.(pools := o.pools[p := o.pools[p].(closeCalls := o.pools[p].closeCalls + 1)]), k,
             Returned(if d.MySQL? then result else None))
  }

  ghost function AwaitOutcome(t: Attempt, ended: bool): Outcome {
    if ended then Failed(ContextEnded)
    else if t.client.Some? then Got(t.client.value)
    else if t.err.Some? then Failed(t.err.value)
    else Failed(ContextEnded)
  }

  ghost function ApplyCall(c: Config, s: State, id: Id, ended: bool): State {
    var settled := SettledVersions(RegistrationsOf(s, id), c.kind);
    if ended then s.(callers := s.callers + [Caller(id, settled, Failed(ContextEnded))])
    else
      var (o, outcome) := OpenRaw(s.opener, id);
      s.(opener := o, callers := s.callers + [Caller(id, settled, outcome)])
  }

  ghost function ApplyInvalidateNext(c: Config, s: State, id: Id, v: nat): State
    requires Indexed(s.opener) && Enabled(s, InvalidateNext(id, v))
  {
    var history := s.registry[id];
    var r := history[v];
    s.(registry := s.registry[id := history[v := r.(todo := r.todo[1..])]],
       opener := if r.todo[0] == c.kind then Invalidate(s.opener, id) else s.opener)
  }

  ghost function Apply(c: Config, s: State, act: Action): State
    requires Indexed(s.opener) && Enabled(s, act)
  {
    var o := s.opener;
    match act
    case Register(id, kind) =>
      var history := RegistrationsOf(s, id);
      s.(registry := s.registry[id := history + [Registration(kind, Invalidations(history, kind))]])
    case InvalidateNext(id, v) => ApplyInvalidateNext(c, s, id, v)
    case Call(id, ended) => ApplyCall(c, s, id, ended)
    case Await(i, ended) =>
      var t := o.attempts[s.callers[i].outcome.attempt];
      s.(callers := s.callers[i := s.callers[i].(outcome := AwaitOutcome(t, ended))])
    case Expire(a) => s.(opener := Cancel(o, a, OpenTimeout))
    case Prepare(a, ok) => s.(opener := ApplyPrepare(c, o, RegistrationsOf(s, o.attempts[a].id), a, ok))
    case MakePool(a, result) => s.(opener := ApplyMakePool(o, a, result))
    case Ping(a, ok) =>
      var p := o.attempts[a].phase.pool;
      s.(opener := SetPhase(o, a, if ok then Pinged(p) else Discarding(p, PingFailed)))
    case CheckCause(a) => s.(opener := ApplyCheckCause(o, a))
    case HandOver(a) => s.(opener := CloseTracked(o, a))
    case FinishAttempt(a) => s.(opener := Finish(c.dialect, o, a))
    case Leave(a) => s.(opener := SetPhase(o, a, Gone).(attemptsWG := o.attemptsWG - 1))
    case Shutdown(order) => s.(opener := Close(o, order))
    case RunCloser(k, result) => s.(opener := ApplyRunCloser(c.dialect, o, k, result))
    case RecordError(k) =>
      var e := o.closers[k].stage.result.value;
      s.(opener := SetStage(o, k, Recorded(Some(e))).(closeErrs := o.closeErrs + [e]))
    case LeaveCloser(k) =>
      s.(opener := SetStage(o, k, Finished(o.closers[k].stage.result)).(closersWG := o.closersWG - 1))
    case Complete =>
      s.(opener := o.(completer := if o.completer.WaitingAttempts? then WaitingClosers else Completed))
  }

  /** A fresh opener over definitions loaded at start, each with nothing left to invalidate. */
  ghost predicate Init(s: State) {
    && s.opener == NEW_OPENER
    && s.callers == []
    && (forall id | id in s.registry :: |s.registry[id]| == 1 && s.registry[id][0].todo == [])
  }

  ghost predicate Step(c: Config, s: State, act: Action, s': State) {
    Indexed(s.opener) && Enabled(s, act) && s' == Apply(c, s, act)
  }

  /** A run: states joined by actions, from an initial state. */
  ghost predicate IsRun(c: Config, states: seq<State>, acts: seq<Action>) {
    && |states| == |acts| + 1
    && Init(states[0])
    && (forall i | 0 <= i < |acts| :: Step(c, states[i], acts[i], states[i + 1]))
  }
}
