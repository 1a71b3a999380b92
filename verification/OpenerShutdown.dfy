/** After Close the opener drains: it never deadlocks, and only finitely many of its own steps remain. */
module OpenerShutdown {
  import opened Common
  import opened OpenerModel
  import opened OpenerInvariant
  import opened OpenerTheorems

  /** Steps the opener's own goroutines take; the rest belong to callers, registrations and timers. */
  predicate Internal(act: Action) {
    || act.Prepare? || act.MakePool? || act.Ping? || act.CheckCause? || act.HandOver? || act.FinishAttempt?
    || act.Leave? || act.RunCloser? || act.RecordError? || act.LeaveCloser? || act.Complete?
  }

  /** Steps an attempt has left, weighted so that a closer it hands over is paid for. */
  function AttemptWork(t: Attempt): nat {
    match t.phase
    case Starting => 32
    case Prepared(_) => 28
    case Pooled(_) => 24
    case Pinged(_) => 20
    case Discarding(_, _) => 16
    case Finishing(_, _) => 12
    case Stale(_) => 8
    case Returning => 4
    case Gone => 0
  }

  function CloserWork(c: Closer): nat {
    match c.stage
    case Spawned => 3
    case Returned(_) => 2
    case Recorded(_) => 1
    case Finished(_) => 0
  }

  function CompleterWork(completer: Completer): nat {
    match completer
    case NotStarted => 3
    case WaitingAttempts => 2
    case WaitingClosers => 1
    case Completed => 0
  }

  ghost function Work(o: Opener): nat {
    SumBy(o.attempts, AttemptWork) + SumBy(o.closers, CloserWork) + CompleterWork(o.completer)
  }

  /** Until closing completes, some goroutine of a closed opener can take a step. */
  lemma NoDeadlock(s: State) returns (act: Action)
    requires Inv(s.opener) && s.opener.isClosed && !s.opener.completer.Completed?
    ensures Internal(act) && Enabled(s, act)
  {
    var o := s.opener;
    if o.attemptsWG > 0 {
      var a := SumByWitness(o.attempts, LiveAttempt);
      match o.attempts[a].phase
      case Starting => act := Prepare(a, false);
      case Prepared(_) => act := MakePool(a, Refused);
      case Pooled(_) => act := Ping(a, true);
      case Pinged(_) => act := CheckCause(a);
      case Discarding(_, _) => act := HandOver(a);
      case Finishing(_, _) => act := FinishAttempt(a);
      case Stale(_) => act := HandOver(a);
      case Returning => act := Leave(a);
    } else if o.completer.WaitingAttempts? {
      act := Complete;
    } else if o.closersWG > 0 {
      var k := SumByWitness(o.closers, LiveCloser);
      match o.closers[k].stage
      case Spawned => act := RunCloser(k, None);
      case Returned(result) => act := if result.Some? then RecordError(k) else LeaveCloser(k);
      case Recorded(_) => act := LeaveCloser(k);
    } else {
      act := Complete;
    }
  }

  lemma PhaseWorks(o: Opener, a: nat, phase: Phase)
    requires a < |o.attempts| && AttemptWork(o.attempts[a].(phase := phase)) < AttemptWork(o.attempts[a])
    ensures Work(SetPhase(o, a, phase)) < Work(o)
  {
    SumByUpdate(o.attempts, a, o.attempts[a].(phase := phase), AttemptWork);
  }

  lemma SameWork(o: Opener, o': Opener)
    requires o.attempts == o'.attempts && o.closers == o'.closers && o.completer == o'.completer
    ensures Work(o) == Work(o')
  {
  }

  lemma AttemptStepWorks(c: Config, s: State, act: Action)
    requires Indexed(s.opener) && Enabled(s, act)
    requires act.Prepare? || act.MakePool? || act.Ping? || act.CheckCause? || act.Leave?
    ensures Work(Apply(c, s, act).opener) < Work(s.opener)
  {
    hide Indexed;
    hide Work;
    hide SumBy;
    var next := Apply(c, s, act).opener;
    PhaseWorks(s.opener, act.attempt, next.attempts[act.attempt].phase);
    SameWork(next, s.opener.(attempts := next.attempts));
  }

  lemma FinishWorks(d: Dialect, o: Opener, a: nat)
    requires Indexed(o) && a < |o.attempts| && o.attempts[a].phase.Finishing?
    ensures Work(Finish(d, o, a)) < Work(o)
  {
    SumByUpdate(o.attempts, a, Finish(d, o, a).attempts[a], AttemptWork);
  }

  lemma HandOverWorks(c: Config, s: State, a: nat)
    requires Indexed(s.opener) && Enabled(s, HandOver(a))
    ensures Work(Apply(c, s, HandOver(a)).opener) < Work(s.opener)
  {
    var o, o' := s.opener, Apply(c, s, HandOver(a)).opener;
    SumByUpdate(o.attempts, a, o'.attempts[a], AttemptWork);
    SumByAppend(o.closers, Closer(o.attempts[a].phase.pool, Spawned), CloserWork);
  }

  lemma CloserStepWorks(c: Config, s: State, act: Action)
    requires Indexed(s.opener) && Enabled(s, act)
    requires act.RunCloser? || act.RecordError? || act.LeaveCloser?
    ensures Work(Apply(c, s, act).opener) < Work(s.opener)
  {
    var o, o', k := s.opener, Apply(c, s, act).opener, act.closer;
    SumByUpdate(o.closers, k, o'.closers[k], CloserWork);
  }

  /** Every internal step uses up work, open or closed. */
  lemma InternalWorks(c: Config, s: State, act: Action)
    requires Indexed(s.opener) && Enabled(s, act) && Internal(act)
    ensures Work(Apply(c, s, act).opener) < Work(s.opener)
  {
    match act
    case HandOver(a) => HandOverWorks(c, s, a);
    case FinishAttempt(a) => FinishWorks(c.dialect, s.opener, a);
    case RunCloser(_, _) => CloserStepWorks(c, s, act);
    case RecordError(_) => CloserStepWorks(c, s, act);
    case LeaveCloser(_) => CloserStepWorks(c, s, act);
    case Complete =>
    case _ => AttemptStepWorks(c, s, act);
  }

  /** Nothing outside makes new work for a closed opener. */
  lemma ExternalAddsNothing(c: Config, s: State, act: Action)
    requires Indexed(s.opener) && Enabled(s, act) && !Internal(act) && s.opener.isClosed
    ensures Work(Apply(c, s, act).opener) == Work(s.opener)
  {
    if act.Expire? {
      var o, o', a := s.opener, Apply(c, s, act).opener, act.attempt;
      SumByUpdate(o.attempts, a, o'.attempts[a], AttemptWork);
      assert o.attempts[a].cause.Some? ==> o' == o;
    }
  }

  function InternalStep(act: Action): nat { if Internal(act) then 1 else 0 }

  function InternalSteps(acts: seq<Action>): nat {
    SumBy(acts, InternalStep)
  }

  lemma StepWorks(c: Config, s: State, act: Action, s': State)
    requires Step(c, s, act, s') && s.opener.isClosed
    ensures InternalStep(act) + Work(s'.opener) <= Work(s.opener)
  {
    hide Work;
    if Internal(act) {
      InternalWorks(c, s, act);
    } else {
      ExternalAddsNothing(c, s, act);
    }
  }

  lemma StaysClosed(c: Config, states: seq<State>, acts: seq<Action>, i: nat, j: nat)
    requires IsRun(c, states, acts) && i <= j < |states| && states[i].opener.isClosed
    ensures states[j].opener.isClosed
  {
    ClosedForever(c, states, acts, i, j);
  }

  /** From a closed state on, a run takes at most Work internal steps, whatever callers do meanwhile. */
  lemma {:induction false} ShutdownTerminates(c: Config, states: seq<State>, acts: seq<Action>, i: nat, j: nat)
    requires IsRun(c, states, acts) && i <= j < |states| && states[i].opener.isClosed
    ensures InternalSteps(acts[i..j]) + Work(states[j].opener) <= Work(states[i].opener)
    decreases j - i
  {
    hide Work;
    hide Step;
    if i < j {
      ShutdownTerminates(c, states, acts, i, j - 1);
      StaysClosed(c, states, acts, i, j - 1);
      assert acts[i..j] == acts[i..j - 1] + [acts[j - 1]];
      SumByAppend(acts[i..j - 1], acts[j - 1], InternalStep);
      StepWorks(c, states[j - 1], acts[j - 1], states[j]);
    }
  }

  /** A closed opener that can take no step of its own has completed closing. */
  lemma StuckMeansCompleted(c: Config, states: seq<State>, acts: seq<Action>, j: nat)
    requires IsRun(c, states, acts) && j < |states| && states[j].opener.isClosed
    requires forall act | Internal(act) :: !Enabled(states[j], act)
    ensures states[j].opener.completer.Completed?
  {
    RunHolds(c, states, acts, j);
    if !states[j].opener.completer.Completed? {
      var act := NoDeadlock(states[j]);
    }
  }
}
