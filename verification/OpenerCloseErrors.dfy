/** The MySQL opener joins the errors of its pools' Close calls: each is reported once and none is lost. */
module OpenerCloseErrors {
  import opened Common
  import opened OpenerModel

  /** Whether a closer has recorded this error. */
  function Recording(e: CloseError): Closer -> nat {
    (c: Closer) => if (c.stage.Recorded? || c.stage.Finished?) && c.stage.result == Some(e) then 1 else 0
  }

  /** Whether the pool of a closer reported this error when it was closed. */
  function Reporting(e: CloseError): Closer -> nat {
    (c: Closer) => if !c.stage.Spawned? && c.stage.result == Some(e) then 1 else 0
  }

  /** Whether an error is this one. */
  function Same(e: CloseError): CloseError -> nat {
    (f: CloseError) => if f == e then 1 else 0
  }

  /** The joined error holds this one as often as closers have recorded it. */
  ghost predicate Accounted(o: Opener, e: CloseError) {
    SumBy(o.closeErrs, Same(e)) == SumBy(o.closers, Recording(e))
  }

  lemma DetachAccounts(o: Opener, id: Id, cause: Error, e: CloseError)
    requires Accounted(o, e) && Indexed(o)
    ensures Accounted(Detach(o, id, cause), e)
  {
    hide SumBy;
    if id in o.entries && o.entries[id].client.Some? {
      SumByAppend(o.closers, Closer(o.entries[id].client.value, Spawned), Recording(e));
    }
  }

  lemma {:induction false} DetachAllAccounts(o: Opener, order: seq<Id>, e: CloseError)
    requires Accounted(o, e) && Indexed(o)
    ensures Accounted(DetachAll(o, order), e)
    decreases |order|
  {
    if order != [] {
      DetachAllAccounts(o, order[..|order| - 1], e);
      DetachAccounts(DetachAll(o, order[..|order| - 1]), order[|order| - 1], RuntimeClosed, e);
    }
  }

  lemma CloserStepAccounts(c: Config, s: State, act: Action, e: CloseError)
    requires Accounted(s.opener, e) && Indexed(s.opener) && Enabled(s, act)
    requires act.RunCloser? || act.RecordError? || act.LeaveCloser?
    ensures Accounted(Apply(c, s, act).opener, e)
  {
    hide SumBy;
    var o, o', k := s.opener, Apply(c, s, act).opener, act.closer;
    SumByUpdate(o.closers, k, o'.closers[k], Recording(e));
    if act.RecordError? {
      SumByAppend(o.closeErrs, o.closers[k].stage.result.value, Same(e));
    }
  }

  lemma HandOverAccounts(c: Config, s: State, a: nat, e: CloseError)
    requires Accounted(s.opener, e) && Indexed(s.opener) && Enabled(s, HandOver(a))
    ensures Accounted(Apply(c, s, HandOver(a)).opener, e)
  {
    hide SumBy;
    SumByAppend(s.opener.closers, Closer(s.opener.attempts[a].phase.pool, Spawned), Recording(e));
  }

  /** The other actions leave closers and errors alone. */
  lemma OthersAccount(c: Config, s: State, act: Action)
    requires Indexed(s.opener) && Enabled(s, act)
    requires !act.RunCloser? && !act.RecordError? && !act.LeaveCloser?
    requires !act.HandOver? && !act.InvalidateNext? && !act.Shutdown?
    ensures Apply(c, s, act).opener.closers == s.opener.closers
    ensures Apply(c, s, act).opener.closeErrs == s.opener.closeErrs
  {
    hide Detach;
    hide DetachAll;
  }

  /** Every action keeps the joined error equal to what the closers have recorded. */
  lemma StepAccounts(c: Config, s: State, act: Action, e: CloseError)
    requires Accounted(s.opener, e) && Indexed(s.opener) && Enabled(s, act)
    ensures Accounted(Apply(c, s, act).opener, e)
  {
    hide *;
    match act
    case HandOver(a) => HandOverAccounts(c, s, a, e);
    case InvalidateNext(id, v) => InvalidateAccounts(c, s, id, v, e);
    case Shutdown(order) => ShutdownAccounts(c, s, order, e);
    case RunCloser(_, _) => CloserStepAccounts(c, s, act, e);
    case RecordError(_) => CloserStepAccounts(c, s, act, e);
    case LeaveCloser(_) => CloserStepAccounts(c, s, act, e);
    case _ =>
      OthersAccount(c, s, act);
      SameAccounts(s.opener, Apply(c, s, act).opener, e);
  }

  lemma SameAccounts(o: Opener, o': Opener, e: CloseError)
    requires Accounted(o, e) && o'.closers == o.closers && o'.closeErrs == o.closeErrs
    ensures Accounted(o', e)
  {
  }

  lemma InvalidateAccounts(c: Config, s: State, id: Id, v: nat, e: CloseError)
    requires Accounted(s.opener, e) && Indexed(s.opener) && Enabled(s, InvalidateNext(id, v))
    ensures Accounted(Apply(c, s, InvalidateNext(id, v)).opener, e)
  {
    hide Detach;
    hide SumBy;
    DetachAccounts(s.opener, id, OpenInvalidated, e);
  }

  lemma ShutdownAccounts(c: Config, s: State, order: seq<Id>, e: CloseError)
    requires Accounted(s.opener, e) && Indexed(s.opener) && Enabled(s, Shutdown(order))
    ensures Accounted(Apply(c, s, Shutdown(order)).opener, e)
  {
    hide Detach;
    hide DetachAll;
    hide SumBy;
    DetachAllAccounts(s.opener.(isClosed := true, completer := WaitingAttempts), order, e);
  }

  lemma {:induction false} FinishedReportAll(closers: seq<Closer>, e: CloseError)
    requires forall k | 0 <= k < |closers| :: closers[k].stage.Finished?
    ensures SumBy(closers, Recording(e)) == SumBy(closers, Reporting(e))
    decreases |closers|
  {
    if closers != [] {
      FinishedReportAll(closers[..|closers| - 1], e);
    }
  }

  // ---- What pools' Close calls return ----

  /** Whether in this action a pool's Close returns this error. */
  function ClosingWith(e: CloseError): Action -> nat {
    (act: Action) => if act.RunCloser? && act.closeErr == Some(e) then 1 else 0
  }

  /** What an action adds to the reports of this error: the MySQL opener takes what Close returns. */
  function Added(c: Config, act: Action, e: CloseError): nat {
    if c.dialect.MySQL? then ClosingWith(e)(act) else 0
  }

  lemma DetachReports(o: Opener, id: Id, cause: Error, e: CloseError)
    requires Indexed(o)
    ensures SumBy(Detach(o, id, cause).closers, Reporting(e)) == SumBy(o.closers, Reporting(e))
  {
    hide SumBy;
    if id in o.entries && o.entries[id].client.Some? {
      SumByAppend(o.closers, Closer(o.entries[id].client.value, Spawned), Reporting(e));
    }
  }

  lemma {:induction false} DetachAllReports(o: Opener, order: seq<Id>, e: CloseError)
    requires Indexed(o)
    ensures SumBy(DetachAll(o, order).closers, Reporting(e)) == SumBy(o.closers, Reporting(e))
    decreases |order|
  {
    hide Detach;
    if order != [] {
      DetachAllReports(o, order[..|order| - 1], e);
      DetachReports(DetachAll(o, order[..|order| - 1]), order[|order| - 1], RuntimeClosed, e);
    }
  }

  lemma CloserStepReports(c: Config, s: State, act: Action, e: CloseError)
    requires Indexed(s.opener) && Enabled(s, act)
    requires act.RunCloser? || act.RecordError? || act.LeaveCloser?
    ensures SumBy(Apply(c, s, act).opener.closers, Reporting(e))
            == SumBy(s.opener.closers, Reporting(e)) + Added(c, act, e)
  {
    hide SumBy;
    hide Indexed;
    var o, o', k := s.opener, Apply(c, s, act).opener, act.closer;
    SumByUpdate(o.closers, k, o'.closers[k], Reporting(e));
  }

  lemma HandOverReports(c: Config, s: State, a: nat, e: CloseError)
    requires Indexed(s.opener) && Enabled(s, HandOver(a))
    ensures SumBy(Apply(c, s, HandOver(a)).opener.closers, Reporting(e)) == SumBy(s.opener.closers, Reporting(e))
  {
    hide SumBy;
    SumByAppend(s.opener.closers, Closer(s.opener.attempts[a].phase.pool, Spawned), Reporting(e));
  }

  lemma DetachingReports(c: Config, s: State, act: Action, e: CloseError)
    requires Indexed(s.opener) && Enabled(s, act) && (act.InvalidateNext? || act.Shutdown?)
    ensures SumBy(Apply(c, s, act).opener.closers, Reporting(e)) == SumBy(s.opener.closers, Reporting(e))
  {
    hide Detach;
    hide DetachAll;
    hide SumBy;
    match act
    case InvalidateNext(id, _) => DetachReports(s.opener, id, OpenInvalidated, e);
    case Shutdown(order) => DetachAllReports(s.opener.(isClosed := true, completer := WaitingAttempts), order, e);
  }

  lemma StepReports(c: Config, s: State, act: Action, e: CloseError)
    requires Indexed(s.opener) && Enabled(s, act)
    ensures SumBy(Apply(c, s, act).opener.closers, Reporting(e))
            == SumBy(s.opener.closers, Reporting(e)) + Added(c, act, e)
  {
    hide Apply;
    hide Enabled;
    hide Indexed;
    match act
    case HandOver(a) => HandOverReports(c, s, a, e);
    case InvalidateNext(_, _) => DetachingReports(c, s, act, e);
    case Shutdown(_) => DetachingReports(c, s, act, e);
    case RunCloser(_, _) => CloserStepReports(c, s, act, e);
    case RecordError(_) => CloserStepReports(c, s, act, e);
    case LeaveCloser(_) => CloserStepReports(c, s, act, e);
    case _ => OthersAccount(c, s, act);
  }
}
