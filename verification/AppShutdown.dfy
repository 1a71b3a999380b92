/**
 The application's wait for its servers. Channels are one-shot: a transport reports once, when it fails
 or after it has been told to stop. What happens is recorded in a log; what may happen next is chosen
 nondeterministically, among what the channels and the context allow.
 */
module AppShutdown {
  import opened Common

  datatype Transport = Public | Admin | Local

  /** What a transport reports. Serve of the public server never returns without an error. */
  datatype Report = NoError | Canceled | ServerClosed | Broken(code: int)

  datatype Event =
    /** The report of a transport was received, by a receive that could have waited for it or not. */
    | Received(transport: Transport, report: Report, waiting: bool)
    /** The context of the application was found to have ended. */
    | ContextEnded
    /** The context the admin and local transports run in was cancelled. */
    | ContextCancelled
    /** The public server was shut down, or closed when that failed. */
    | ServerStopped(clean: bool)
    | RuntimesClosed(clean: bool)

  type Log = seq<Event>

  predicate HasReceived(log: Log, t: Transport) {
    exists i | 0 <= i < |log| :: log[i].Received? && log[i].transport == t
  }

  predicate IsCancelled(log: Log) { ContextCancelled in log }

  predicate IsStopped(log: Log) { exists i | 0 <= i < |log| :: log[i].ServerStopped? }

  /** A transport that has been told to stop reports, if it has not done so before. */
  predicate WillReport(log: Log, t: Transport) {
    if t == Public then IsStopped(log) else IsCancelled(log)
  }

  predicate AreClosed(log: Log) { exists i | 0 <= i < |log| :: log[i].RuntimesClosed? }

  /** What the protocol promises of each event, given what came before. */
  predicate Allowed(log: Log, e: Event, hasLocal: bool) {
    match e
    case Received(t, report, waiting) =>
      && !HasReceived(log, t) && (t == Local ==> hasLocal)
      && (waiting ==> WillReport(log, t))
      && (t == Public ==> report != NoError)
      && !AreClosed(log)
    case ContextEnded => true
    case ContextCancelled => true
    case ServerStopped(_) => !HasReceived(log, Public) && IsCancelled(log)
    case RuntimesClosed(_) =>
      && HasReceived(log, Public) && HasReceived(log, Admin) && (hasLocal ==> HasReceived(log, Local))
      && !AreClosed(log)
  }

  ghost predicate Proper(log: Log, hasLocal: bool) {
    forall i | 0 <= i < |log| :: Allowed(log[..i], log[i], hasLocal)
  }

  lemma ProperSnoc(log: Log, e: Event, hasLocal: bool)
    requires Proper(log, hasLocal) && Allowed(log, e, hasLocal)
    ensures Proper(log + [e], hasLocal)
  {
    hide Allowed;
    forall i | 0 <= i < |log| + 1 ensures Allowed((log + [e])[..i], (log + [e])[i], hasLocal) {
      if i < |log| {
        assert (log + [e])[..i] == log[..i];
      } else {
        assert (log + [e])[..i] == log;
      }
    }
  }

  // ---- What is returned ----

  datatype Failure = ServingHttp(report: Report) | ServingLocal(report: Report) | Stopping | ClosingRuntimes

  /** normalizeLocalMCPError: a transport that was told to stop has not failed. */
  predicate LocalFailed(r: Report) { r.Broken? }

  function FailureOf(e: Event): set<Failure> {
    match e
    case Received(Public, report, _) => if report == ServerClosed then {} else {ServingHttp(report)}
    case Received(Local, report, _) => if LocalFailed(report) then {ServingLocal(report)} else {}
    case Received(Admin, _, _) => {}
    case ContextEnded => {}
    case ContextCancelled => {}
    case ServerStopped(clean) => if clean then {} else {Stopping}
    case RuntimesClosed(clean) => if clean then {} else {ClosingRuntimes}
  }

  /** Everything that failed, but for the admin transport, whose failure is only logged. */
  function Failures(log: Log): set<Failure> {
    if log == [] then {} else Failures(log[..|log| - 1]) + FailureOf(log[|log| - 1])
  }

  lemma FailuresSnoc(log: Log, e: Event)
    ensures Failures(log + [e]) == Failures(log) + FailureOf(e)
  {
    assert (log + [e])[..|log|] == log;
  }

  // ---- What happens in which order ----

  /** An event without what it reports. */
  function Bare(e: Event): Event {
    match e
    case Received(t, _, waiting) => Received(t, NoError, waiting)
    case ServerStopped(_) => ServerStopped(true)
    case RuntimesClosed(_) => RuntimesClosed(true)
    case _ => e
  }

  function Trace(log: Log): (trace: Log)
    ensures |trace| == |log| && forall i | 0 <= i < |log| :: trace[i] == Bare(log[i])
  {
    seq(|log|, i requires 0 <= i < |log| => Bare(log[i]))
  }

  /** What a log adds to another. */
  ghost predicate Extends(log: Log, before: Log, trace: Log) {
    before <= log && Trace(log[|before|..]) == trace
  }

  lemma ExtendsMore(log: Log, middle: Log, before: Log, first: Log, second: Log)
    requires Extends(middle, before, first) && Extends(log, middle, second)
    ensures Extends(log, before, first + second)
  {
    assert log[|before|..] == middle[|before|..] + log[|middle|..];
  }

  lemma ExtendsOne(before: Log, e: Event)
    ensures Extends(before + [e], before, [Bare(e)]) && Extends(before, before, [])
  {
    assert (before + [e])[|before|..] == [e] && before[|before|..] == [];
  }

  /** The admin transport came to an end, or the local one did so without failing: the application goes on. */
  predicate Harmless(e: Event) {
    e.Received? && !e.waiting && (e.transport == Admin || (e.transport == Local && !e.report.Broken?))
  }

  /** The context ended, the public server failed, or the local transport did. */
  predicate IsCause(e: Event) {
    || e == ContextEnded
    || (e.Received? && !e.waiting && (e.transport == Public || (e.transport == Local && e.report.Broken?)))
  }

  const RECEIVE_PUBLIC := Received(Public, NoError, true)
  const RECEIVE_ADMIN := Received(Admin, NoError, true)
  const RECEIVE_LOCAL := Received(Local, NoError, true)

  /**
   What follows a cause: the context is cancelled, the public server stopped and waited for unless it was the cause,
   then the admin and the local transport waited for unless they had reported, and then the runtimes closed.
   */
  function Aftermath(stop: bool, admin: bool, local: bool): Log {
    [ContextCancelled]
      + (if stop then [ServerStopped(true), RECEIVE_PUBLIC] else [])
      + (if admin then [RECEIVE_ADMIN] else [])
      + (if local then [RECEIVE_LOCAL] else [])
      + [RuntimesClosed(true)]
  }

  /** The whole course of a run: harmless reports, one cause, and its aftermath. */
  ghost predicate IsCourse(log: Log, hasLocal: bool) {
    exists n ::
      && 0 <= n < |log|
      && (forall i | 0 <= i < n :: Harmless(log[i]))
      && IsCause(log[n])
      && Trace(log[n + 1..])
         == Aftermath(!(log[n].Received? && log[n].transport == Public), !HasReceived(log[..n + 1], Admin),
                      hasLocal && !HasReceived(log[..n + 1], Local))
  }

  lemma CourseIs(log: Log, before: Log, cause: Event, hasLocal: bool, stop: bool, admin: bool, local: bool)
    requires forall i | 0 <= i < |before| :: Harmless(before[i])
    requires IsCause(cause) && Extends(log, before + [cause], Aftermath(stop, admin, local))
    requires stop <==> !(cause.Received? && cause.transport == Public)
    requires admin <==> !HasReceived(before + [cause], Admin)
    requires local <==> hasLocal && !HasReceived(before + [cause], Local)
    ensures IsCourse(log, hasLocal)
  {
    hide Aftermath;
    hide IsCause;
    hide Harmless;
    var n := |before|;
    assert log[..n + 1] == before + [cause];
    assert log[n] == cause && forall i | 0 <= i < n :: log[i] == before[i];
  }

  class World {
    const hasLocal: bool
    ghost var log: Log

    constructor (hasLocal: bool)
      ensures this.hasLocal == hasLocal && log == []
    {
      this.hasLocal, this.log := hasLocal, [];
    }

    ghost predicate Waiting(t: Transport)
      reads this
    {
      !HasReceived(log, t) && !AreClosed(log)
    }

    /** A report that was already there. */
    method Arrive(t: Transport) returns (report: Report)
      requires Proper(log, hasLocal) && Waiting(t) && (t == Local ==> hasLocal)
      modifies this
      ensures log == old(log) + [Received(t, report, false)] && Proper(log, hasLocal)
    {
      report := *;
      if t == Public && report == NoError {
        report := ServerClosed;
      }
      ProperSnoc(log, Received(t, report, false), hasLocal);
      log := log + [Received(t, report, false)];
    }

    /** The receive from the local transport that does not wait. */
    method PollLocal() returns (report: Option<Report>)
      requires Proper(log, hasLocal) && Waiting(Local) && hasLocal
      modifies this
      ensures Proper(log, hasLocal)
      ensures report.None? ==> log == old(log)
      ensures report.Some? ==> log == old(log) + [Received(Local, report.value, false)]
    {
      var ready: bool := *;
      if !ready {
        return None;
      }
      var found := Arrive(Local);
      return Some(found);
    }

    /** The select on the open channels and on the context, which gives no transport. */
    method Select(adminOpen: bool, localOpen: bool) returns (transport: Option<Transport>, report: Report)
      requires Proper(log, hasLocal) && Waiting(Public)
      requires (adminOpen ==> Waiting(Admin)) && (localOpen ==> hasLocal && Waiting(Local))
      modifies this
      ensures Proper(log, hasLocal)
      ensures transport == Some(Admin) ==> adminOpen
      ensures transport == Some(Local) ==> localOpen
      ensures log == old(log) + [if transport.Some? then Received(transport.value, report, false) else ContextEnded]
    {
      transport, report := *, NoError;
      if (transport == Some(Admin) && !adminOpen) || (transport == Some(Local) && !localOpen) {
        transport := Some(Public);
      }
      if transport.None? {
        ProperSnoc(log, ContextEnded, hasLocal);
        log := log + [ContextEnded];
      } else {
        report := Arrive(transport.value);
      }
    }

    /** A receive that may have to wait, and need not wait for ever. */
    method ReceiveWaiting(t: Transport) returns (report: Report)
      requires Proper(log, hasLocal) && Waiting(t) && (t == Local ==> hasLocal)
      requires WillReport(log, t)
      modifies this
      ensures log == old(log) + [Received(t, report, true)] && Proper(log, hasLocal)
    {
      report := *;
      if t == Public && report == NoError {
        report := ServerClosed;
      }
      ProperSnoc(log, Received(t, report, true), hasLocal);
      log := log + [Received(t, report, true)];
    }

    method Cancel()
      requires Proper(log, hasLocal)
      modifies this
      ensures log == old(log) + [ContextCancelled] && Proper(log, hasLocal)
    {
      ProperSnoc(log, ContextCancelled, hasLocal);
      log := log + [ContextCancelled];
    }

    method StopServer() returns (clean: bool)
      requires Proper(log, hasLocal) && Waiting(Public) && IsCancelled(log)
      modifies this
      ensures log == old(log) + [ServerStopped(clean)] && Proper(log, hasLocal)
    {
      clean := *;
      ProperSnoc(log, ServerStopped(clean), hasLocal);
      log := log + [ServerStopped(clean)];
    }

    method CloseRuntimes() returns (clean: bool)
      requires Proper(log, hasLocal) && !AreClosed(log)
      requires HasReceived(log, Public) && HasReceived(log, Admin) && (hasLocal ==> HasReceived(log, Local))
      modifies this
      ensures log == old(log) + [RuntimesClosed(clean)] && Proper(log, hasLocal)
    {
      clean := *;
      ProperSnoc(log, RuntimesClosed(clean), hasLocal);
      log := log + [RuntimesClosed(clean)];
    }
  }

  lemma ReceivedSnoc(log: Log, e: Event, t: Transport)
    ensures HasReceived(log + [e], t) <==> HasReceived(log, t) || (e.Received? && e.transport == t)
  {
    var next := log + [e];
    if HasReceived(log, t) {
      var i :| 0 <= i < |log| && log[i].Received? && log[i].transport == t;
      assert next[i] == log[i];
    }
    assert next[|log|] == e;
  }

  lemma StateSnoc(log: Log, e: Event)
    ensures Extends(log + [e], log, [Bare(e)])
    ensures IsCancelled(log + [e]) <==> IsCancelled(log) || e == ContextCancelled
    ensures IsStopped(log + [e]) <==> IsStopped(log) || e.ServerStopped?
    ensures AreClosed(log + [e]) <==> AreClosed(log) || e.RuntimesClosed?
    ensures forall t :: HasReceived(log + [e], t) <==> HasReceived(log, t) || (e.Received? && e.transport == t)
    ensures Failures(log + [e]) == Failures(log) + FailureOf(e)
  {
    var next := log + [e];
    assert next[|log|] == e;
    ExtendsOne(log, e);
    forall t ensures HasReceived(next, t) <==> HasReceived(log, t) || (e.Received? && e.transport == t) {
      ReceivedSnoc(log, e, t);
    }
    if IsStopped(log) {
      var i :| 0 <= i < |log| && log[i].ServerStopped?;
      assert next[i] == log[i];
    }
    if AreClosed(log) {
      var i :| 0 <= i < |log| && log[i].RuntimesClosed?;
      assert next[i] == log[i];
    }
    FailuresSnoc(log, e);
  }

  // ---- The application ----

  method WaitForAdmin(world: World, adminOpen: bool)
    requires Proper(world.log, world.hasLocal) && !AreClosed(world.log)
    requires adminOpen <==> !HasReceived(world.log, Admin)
    requires IsCancelled(world.log)
    modifies world
    ensures Proper(world.log, world.hasLocal) && !AreClosed(world.log) && IsCancelled(world.log)
    ensures HasReceived(world.log, Admin)
    ensures forall t | t != Admin :: HasReceived(world.log, t) <==> old(HasReceived(world.log, t))
    ensures Failures(world.log) == old(Failures(world.log))
    ensures Extends(world.log, old(world.log), if adminOpen then [RECEIVE_ADMIN] else [])
  {
    hide *;
    ExtendsOne(world.log, ContextEnded);
    if adminOpen {
      ghost var before := world.log;
      CanReceive(before, Admin);
      var report := world.ReceiveWaiting(Admin);
      StateSnoc(before, Received(Admin, report, true));
      AdminIsNoFailure(report);
    }
  }

  lemma AdminIsNoFailure(report: Report)
    ensures FailureOf(Received(Admin, report, true)) == {} && FailureOf(Received(Admin, report, false)) == {}
    ensures FailureOf(ContextCancelled) == {} && FailureOf(ContextEnded) == {}
    ensures Bare(Received(Admin, report, true)) == RECEIVE_ADMIN && Bare(ContextCancelled) == ContextCancelled
  {
  }

  lemma CanReceive(log: Log, t: Transport)
    requires if t == Public then IsStopped(log) else IsCancelled(log)
    ensures WillReport(log, t)
  {
  }

  method WaitForLocal(world: World, localOpen: bool) returns (errs: set<Failure>)
    requires Proper(world.log, world.hasLocal) && !AreClosed(world.log)
    requires localOpen <==> world.hasLocal && !HasReceived(world.log, Local)
    requires IsCancelled(world.log)
    modifies world
    ensures Proper(world.log, world.hasLocal) && !AreClosed(world.log) && IsCancelled(world.log)
    ensures world.hasLocal ==> HasReceived(world.log, Local)
    ensures forall t | t != Local :: HasReceived(world.log, t) <==> old(HasReceived(world.log, t))
    ensures Failures(world.log) == old(Failures(world.log)) + errs
    ensures Extends(world.log, old(world.log), if localOpen then [RECEIVE_LOCAL] else [])
  {
    hide *;
    ExtendsOne(world.log, ContextEnded);
    errs := {};
    if localOpen {
      ghost var before := world.log;
      CanReceive(before, Local);
      var report := world.ReceiveWaiting(Local);
      StateSnoc(before, Received(Local, report, true));
      ReportedFailure(Local, report, true);
      errs := if LocalFailed(report) then {ServingLocal(report)} else {};
    }
  }

  lemma ReportedFailure(t: Transport, report: Report, waiting: bool)
    ensures t == Local ==>
              FailureOf(Received(t, report, waiting)) == if LocalFailed(report) then {ServingLocal(report)} else {}
    ensures t == Public ==>
              FailureOf(Received(t, report, waiting)) == if report == ServerClosed then {} else {ServingHttp(report)}
    ensures Bare(Received(Public, report, true)) == RECEIVE_PUBLIC
    ensures Bare(Received(Local, report, true)) == RECEIVE_LOCAL
    ensures forall clean :: Bare(ServerStopped(clean)) == ServerStopped(true)
    ensures forall clean :: Bare(RuntimesClosed(clean)) == RuntimesClosed(true)
    ensures forall clean :: FailureOf(ServerStopped(clean)) == if clean then {} else {Stopping}
    ensures forall clean :: FailureOf(RuntimesClosed(clean)) == if clean then {} else {ClosingRuntimes}
  {
  }

  method CloseRuntimes(world: World) returns (errs: set<Failure>)
    requires Proper(world.log, world.hasLocal) && !AreClosed(world.log)
    requires HasReceived(world.log, Public) && HasReceived(world.log, Admin)
    requires world.hasLocal ==> HasReceived(world.log, Local)
    modifies world
    ensures Done(world.log, world.hasLocal)
    ensures Failures(world.log) == old(Failures(world.log)) + errs
    ensures Extends(world.log, old(world.log), [RuntimesClosed(true)])
  {
    hide Proper;
    hide Failures;
    hide FailureOf;
    hide HasReceived;
    hide AreClosed;
    hide Extends;
    hide Bare;
    ghost var before := world.log;
    var clean := world.CloseRuntimes();
    StateSnoc(before, RuntimesClosed(clean));
    ReportedFailure(Public, NoError, false);
    errs := if clean then {} else {ClosingRuntimes};
  }

  /** The protocol has run to its end: the runtimes are closed, last of all. */
  ghost predicate Done(log: Log, hasLocal: bool) {
    && Proper(log, hasLocal)
    && log != [] && log[|log| - 1].RuntimesClosed?
  }

  /** Stops the public server and receives its report. */
  method StopPublic(world: World) returns (errs: set<Failure>)
    requires Proper(world.log, world.hasLocal) && !AreClosed(world.log)
    requires !HasReceived(world.log, Public) && IsCancelled(world.log)
    modifies world
    ensures Proper(world.log, world.hasLocal) && !AreClosed(world.log) && IsCancelled(world.log)
    ensures HasReceived(world.log, Public)
    ensures forall t | t != Public :: HasReceived(world.log, t) <==> old(HasReceived(world.log, t))
    ensures Failures(world.log) == old(Failures(world.log)) + errs
    ensures Extends(world.log, old(world.log), [ServerStopped(true), RECEIVE_PUBLIC])
  {
    hide *;
    ghost var before := world.log;
    var clean := world.StopServer();
    StateSnoc(before, ServerStopped(clean));
    ReportedFailure(Public, NoError, true);
    errs := if clean then {} else {Stopping};
    ghost var stopped := world.log;
    CanReceive(stopped, Public);
    var report := world.ReceiveWaiting(Public);
    StateSnoc(stopped, Received(Public, report, true));
    ReportedFailure(Public, report, true);
    ExtendsMore(world.log, stopped, before, [ServerStopped(true)], [RECEIVE_PUBLIC]);
    assert [ServerStopped(true)] + [RECEIVE_PUBLIC] == [ServerStopped(true), RECEIVE_PUBLIC];
    if report != ServerClosed {
      errs := errs + {ServingHttp(report)};
    }
  }

  /** The local transport failed: everything else is stopped, and its error reported. */
  method FailLocalMCP(world: World, adminOpen: bool, ghost failed: set<Failure>) returns (errs: set<Failure>)
    requires Proper(world.log, world.hasLocal) && !AreClosed(world.log)
    requires !HasReceived(world.log, Public) && (adminOpen <==> !HasReceived(world.log, Admin))
    requires world.hasLocal ==> HasReceived(world.log, Local)
    requires Failures(world.log) == failed
    modifies world
    ensures Done(world.log, world.hasLocal) && Failures(world.log) == failed + errs
    ensures Extends(world.log, old(world.log), Aftermath(true, adminOpen, false))
  {
    hide *;
    ghost var before := world.log;
    world.Cancel();
    StateSnoc(before, ContextCancelled);
    AdminIsNoFailure(NoError);
    ghost var cancelled := world.log;
    errs := StopPublic(world);
    ghost var stopped := world.log;
    WaitForAdmin(world, adminOpen);
    ghost var received := world.log;
    ExtendsOne(received, ContextEnded);
    var more := CloseRuntimes(world);
    Course(before, cancelled, stopped, received, received, world.log, true, adminOpen, false);
    errs := errs + more;
  }

  /** The parts of an aftermath make the whole. */
  lemma Course(before: Log, cancelled: Log, stopped: Log, admin: Log, local: Log, log: Log,
               stop: bool, adminOpen: bool, localOpen: bool)
    requires Extends(cancelled, before, [ContextCancelled])
    requires Extends(stopped, cancelled, if stop then [ServerStopped(true), RECEIVE_PUBLIC] else [])
    requires Extends(admin, stopped, if adminOpen then [RECEIVE_ADMIN] else [])
    requires Extends(local, admin, if localOpen then [RECEIVE_LOCAL] else [])
    requires Extends(log, local, [RuntimesClosed(true)])
    ensures Extends(log, before, Aftermath(stop, adminOpen, localOpen))
  {
    hide Extends;
    var a := if stop then [ServerStopped(true), RECEIVE_PUBLIC] else [];
    var b := if adminOpen then [RECEIVE_ADMIN] else [];
    var c := if localOpen then [RECEIVE_LOCAL] else [];
    ExtendsMore(stopped, cancelled, before, [ContextCancelled], a);
    ExtendsMore(admin, stopped, before, [ContextCancelled] + a, b);
    ExtendsMore(local, admin, before, [ContextCancelled] + a + b, c);
    ExtendsMore(log, local, before, [ContextCancelled] + a + b + c, [RuntimesClosed(true)]);
  }

  method Shutdown(world: World, adminOpen: bool, localOpen: bool) returns (errs: set<Failure>)
    requires Proper(world.log, world.hasLocal) && !AreClosed(world.log)
    requires !HasReceived(world.log, Public) && (adminOpen <==> !HasReceived(world.log, Admin))
    requires localOpen <==> world.hasLocal && !HasReceived(world.log, Local)
    requires Failures(world.log) == {}
    modifies world
    ensures Done(world.log, world.hasLocal) && errs == Failures(world.log)
    ensures Extends(world.log, old(world.log), Aftermath(true, adminOpen, localOpen))
  {
    hide *;
    ghost var before := world.log;
    world.Cancel();
    StateSnoc(before, ContextCancelled);
    AdminIsNoFailure(NoError);
    ghost var cancelled := world.log;
    errs := StopPublic(world);
    ghost var stopped := world.log;
    WaitForAdmin(world, adminOpen);
    ghost var received := world.log;
    var localErrs := WaitForLocal(world, localOpen);
    ghost var all := world.log;
    var more := CloseRuntimes(world);
    Course(before, cancelled, stopped, received, all, world.log, true, adminOpen, localOpen);
    errs := errs + localErrs + more;
  }

  /** The public server failed: it needs no stopping. */
  method AfterPublic(world: World, report: Report, adminOpen: bool, localOpen: bool) returns (errs: set<Failure>)
    requires Proper(world.log, world.hasLocal) && !AreClosed(world.log)
    requires HasReceived(world.log, Public) && (adminOpen <==> !HasReceived(world.log, Admin))
    requires localOpen <==> world.hasLocal && !HasReceived(world.log, Local)
    requires Failures(world.log) == if report == ServerClosed then {} else {ServingHttp(report)}
    modifies world
    ensures Done(world.log, world.hasLocal) && errs == Failures(world.log)
    ensures Extends(world.log, old(world.log), Aftermath(false, adminOpen, localOpen))
  {
    hide *;
    ghost var before := world.log;
    world.Cancel();
    StateSnoc(before, ContextCancelled);
    AdminIsNoFailure(NoError);
    ghost var cancelled := world.log;
    ExtendsOne(cancelled, ContextEnded);
    WaitForAdmin(world, adminOpen);
    ghost var received := world.log;
    var localErrs := WaitForLocal(world, localOpen);
    ghost var all := world.log;
    var more := CloseRuntimes(world);
    Course(before, cancelled, cancelled, received, all, world.log, false, adminOpen, localOpen);
    errs := localErrs + more + if report == ServerClosed then {} else {ServingHttp(report)};
  }

  /**
   waitForServers. It goes on while reports are harmless, and returns after the context ends, the public server fails
   or the local transport fails, with the aftermath of that, in which the runtimes are closed last. What it returns is
   everything that failed.
   */
  method WaitForServers(world: World) returns (errs: set<Failure>)
    requires world.log == []
    modifies world
    ensures Done(world.log, world.hasLocal) && errs == Failures(world.log)
    ensures IsCourse(world.log, world.hasLocal)
  {
    hide *;
    var adminOpen, localOpen := true, world.hasLocal;
    EmptyLog(world.log, world.hasLocal);
    while true
      invariant Proper(world.log, world.hasLocal) && !AreClosed(world.log)
      invariant !HasReceived(world.log, Public) && (adminOpen <==> !HasReceived(world.log, Admin))
      invariant localOpen <==> world.hasLocal && !HasReceived(world.log, Local)
      invariant Failures(world.log) == {}
      invariant forall i | 0 <= i < |world.log| :: Harmless(world.log[i])
      decreases (if adminOpen then 1 else 0) + (if localOpen then 1 else 0)
    {
      ghost var before := world.log;
      if localOpen {
        CanWait(world, Local);
        var polled := world.PollLocal();
        if polled.Some? {
          StateSnoc(before, Received(Local, polled.value, false));
          ReportedFailure(Local, polled.value, false);
          EventIs(Received(Local, polled.value, false));
          if !LocalFailed(polled.value) {
            localOpen := false;
            continue;
          }
          var others := FailLocalMCP(world, adminOpen, {ServingLocal(polled.value)});
          CourseIs(world.log, before, Received(Local, polled.value, false), world.hasLocal, true, adminOpen, false);
          return {ServingLocal(polled.value)} + others;
        }
      }
      CanWait(world, Public);
      CanWait(world, Admin);
      CanWait(world, Local);
      var transport, report := world.Select(adminOpen, localOpen);
      AdminIsNoFailure(report);
      if transport.None? {
        StateSnoc(before, ContextEnded);
        EventIs(ContextEnded);
        errs := Shutdown(world, adminOpen, localOpen);
        CourseIs(world.log, before, ContextEnded, world.hasLocal, true, adminOpen, localOpen);
        return;
      }
      ghost var e := Received(transport.value, report, false);
      StateSnoc(before, e);
      ReportedFailure(transport.value, report, false);
      EventIs(e);
      if transport.value == Public {
        errs := AfterPublic(world, report, adminOpen, localOpen);
        CourseIs(world.log, before, e, world.hasLocal, false, adminOpen, localOpen);
        return;
      }
      if transport.value == Admin {
        adminOpen := false;
      } else if !LocalFailed(report) {
        localOpen := false;
      } else {
        var others := FailLocalMCP(world, adminOpen, {ServingLocal(report)});
        CourseIs(world.log, before, e, world.hasLocal, true, adminOpen, false);
        return {ServingLocal(report)} + others;
      }
    }
  }

  lemma CanWait(world: World, t: Transport)
    ensures world.Waiting(t) <==> !HasReceived(world.log, t) && !AreClosed(world.log)
  {
  }

  lemma EventIs(e: Event)
    requires e == ContextEnded || (e.Received? && !e.waiting)
    ensures e == ContextEnded ==> IsCause(e)
    ensures e.Received? && e.transport == Public ==> IsCause(e)
    ensures e.Received? && e.transport == Admin ==> Harmless(e)
    ensures e.Received? && e.transport == Local ==> if LocalFailed(e.report) then IsCause(e) else Harmless(e)
  {
  }

  lemma EmptyLog(log: Log, hasLocal: bool)
    requires log == []
    ensures Proper(log, hasLocal) && !AreClosed(log) && Failures(log) == {}
    ensures forall t :: !HasReceived(log, t)
  {
  }

  // ---- What a proper log means ----

  /** No channel is received from twice. */
  lemma ReceivedAtMostOnce(log: Log, hasLocal: bool, i: nat, j: nat)
    requires Proper(log, hasLocal) && i < j < |log| && log[i].Received? && log[j].Received?
    ensures log[i].transport != log[j].transport
  {
    assert Allowed(log[..j], log[j], hasLocal);
    assert log[..j][i] == log[i];
  }

  /**
   When it is done, every transport that was started has reported, before the runtimes were closed, which was
   once.
   */
  lemma ClosedOnceAndLast(log: Log, hasLocal: bool)
    requires Done(log, hasLocal)
    ensures HasReceived(log[..|log| - 1], Public) && HasReceived(log[..|log| - 1], Admin)
    ensures hasLocal <==> HasReceived(log[..|log| - 1], Local)
    ensures forall i | 0 <= i < |log| - 1 :: !log[i].RuntimesClosed?
  {
    var last := |log| - 1;
    assert Allowed(log[..last], log[last], hasLocal);
    forall i | 0 <= i < last ensures !log[i].RuntimesClosed? {
      assert log[..last][i] == log[i];
    }
    if HasReceived(log[..last], Local) {
      var i :| 0 <= i < last && log[..last][i].Received? && log[..last][i].transport == Local;
      assert Allowed(log[..i], log[i], hasLocal);
    }
  }

  /** It waits for a report only when the transport has been told to stop and has not reported. */
  lemma WaitsEnd(log: Log, hasLocal: bool, i: nat)
    requires Proper(log, hasLocal) && i < |log| && log[i].Received? && log[i].waiting
    ensures WillReport(log[..i], log[i].transport) && !HasReceived(log[..i], log[i].transport)
  {
    assert Allowed(log[..i], log[i], hasLocal);
  }

  lemma {:induction false} FailuresOf(log: Log, f: Failure)
    ensures f in Failures(log) <==> exists i :: 0 <= i < |log| && f in FailureOf(log[i])
    decreases |log|
  {
    hide FailureOf;
    if log != [] {
      var last := |log| - 1;
      FailuresOf(log[..last], f);
      if f in Failures(log[..last]) {
        var i :| 0 <= i < last && f in FailureOf(log[..last][i]);
        assert f in FailureOf(log[i]);
      }
      if exists i :: 0 <= i < |log| && f in FailureOf(log[i]) {
        var i :| 0 <= i < |log| && f in FailureOf(log[i]);
        if i < last {
          assert f in FailureOf(log[..last][i]);
        }
      }
    }
  }

  /**
   What is returned names exactly the reports that are failures, and a server or runtimes that did not stop cleanly:
   a local transport that was cancelled or closed has not failed, and of the public one a report other than that it
   was closed is a failure.
   */
  lemma FailuresAre(log: Log)
    ensures forall r :: ServingHttp(r) in Failures(log)
                        <==> r != ServerClosed && exists w :: Received(Public, r, w) in log
    ensures forall r :: ServingLocal(r) in Failures(log)
                        <==> r.Broken? && exists w :: Received(Local, r, w) in log
    ensures Stopping in Failures(log) <==> ServerStopped(false) in log
    ensures ClosingRuntimes in Failures(log) <==> RuntimesClosed(false) in log
  {
    FailuresOf(log, Stopping);
    FailuresOf(log, ClosingRuntimes);
    forall r
      ensures ServingHttp(r) in Failures(log) <==> r != ServerClosed && exists w :: Received(Public, r, w) in log
    {
      FailuresOf(log, ServingHttp(r));
    }
    forall r
      ensures ServingLocal(r) in Failures(log)
              <==> r.Broken? && exists w :: Received(Local, r, w) in log
    {
      FailuresOf(log, ServingLocal(r));
    }
  }
}
