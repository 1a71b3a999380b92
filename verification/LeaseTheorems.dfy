/** What holds in every reachable state of the SQLite runtime. */
module LeaseTheorems {
  import opened Common
  import opened LeaseModel

  lemma {:induction false} RunHolds(states: seq<State>, acts: seq<Action>, i: nat)
    requires IsRun(states, acts) && i < |states|
    ensures Inv(states[i])
  {
    hide Apply;
    hide Enabled;
    if i > 0 {
      RunHolds(states, acts, i - 1);
      StepKeeps(states[i - 1], acts[i - 1]);
    } else {
      InitialHolds();
    }
  }

  lemma InitialHolds()
    ensures Inv(INITIAL) && Balanced(INITIAL.runtime)
  {
  }

  // ---- The two counters agree ----

  /** The runtime counts what its entries count, attached or not. */
  ghost predicate Balanced(r: Runtime) {
    r.active == SumBy(r.logical, ActiveOf)
  }

  lemma {:induction false} SumBySame(xs: seq<Logical>, ys: seq<Logical>)
    requires |xs| == |ys| && forall i | 0 <= i < |xs| :: ActiveOf(xs[i]) == ActiveOf(ys[i])
    ensures SumBy(xs, ActiveOf) == SumBy(ys, ActiveOf)
    decreases |xs|
  {
    if xs != [] {
      SumBySame(xs[..|xs| - 1], ys[..|ys| - 1]);
    }
  }

  lemma AcquireBalanced(s: State, id: Id)
    requires Inv(s) && Balanced(s.runtime) && !s.runtime.isClosed
    ensures Balanced(Acquire(s.runtime, id))
  {
    var r, e := s.runtime, EntryFor(s.runtime, id);
    SumActive(s);
    if e == |r.logical| {
      SumByAppend(r.logical, Logical(1, false), ActiveOf);
      assert Acquire(r, id).logical == r.logical + [Logical(1, false)];
    } else {
      SumByUpdate(r.logical, e, r.logical[e].(active := r.logical[e].active + 1), ActiveOf);
    }
  }

  lemma ReleaseBalanced(s: State, k: nat)
    requires Inv(s) && Balanced(s.runtime) && k < |s.sessions| && Leased(s, k) && s.sessions[k].phase != Released
    ensures Balanced(ReleaseSession(s, k).runtime)
  {
    HolderCounts(s, k);
    var r, e := s.runtime, s.sessions[k].entry;
    SumByUpdate(r.logical, e, r.logical[e].(active := r.logical[e].active - 1), ActiveOf);
  }

  lemma StepBalanced(s: State, act: Action)
    requires Inv(s) && Balanced(s.runtime) && Enabled(s, act)
    ensures Balanced(Apply(s, act).runtime)
  {
    hide Inv;
    hide Acquire;
    hide Release;
    match act
    case Begin(id) => if !s.runtime.isClosed { AcquireBalanced(s, id); }
    case Fail(k) => ReleaseBalanced(s, k);
    case Keep(_) =>
    case CloseClient(k) => if s.sessions[k].phase == Kept { ReleaseBalanced(s, k); }
    case InvalidateID(id) => SumBySame(Invalidate(s.runtime, id).logical, s.runtime.logical);
    case CloseRuntime => SumBySame(Close(s.runtime).logical, s.runtime.logical);
  }

  /** The runtime's counter is the number of leases out, and the sum over all entries ever made. */
  lemma {:induction false} LeasesAreCounted(states: seq<State>, acts: seq<Action>, i: nat)
    requires IsRun(states, acts) && i < |states|
    ensures states[i].runtime.active == SumBy(states[i].sessions, Holds)
    ensures Balanced(states[i].runtime)
  {
    hide Apply;
    hide Enabled;
    RunHolds(states, acts, i);
    if i > 0 {
      LeasesAreCounted(states, acts, i - 1);
      RunHolds(states, acts, i - 1);
      StepBalanced(states[i - 1], acts[i - 1]);
    } else {
      InitialHolds();
    }
  }

  // ---- Releases ----

  predicate Releases(s: State, act: Action)
  {
    match act
    case Fail(k) => k < |s.sessions| && s.sessions[k].phase == Opening
    case CloseClient(k) => k < |s.sessions| && s.sessions[k].phase == Kept
    case _ => false
  }

  function Releaser(act: Action): nat {
    match act
    case Fail(k) => k
    case CloseClient(k) => k
    case _ => 0
  }

  /** Every release lowers both counters by one: the guards against going below zero never act. */
  lemma ReleaseNeverMasks(states: seq<State>, acts: seq<Action>, i: nat)
    requires IsRun(states, acts) && i < |acts| && Releases(states[i], acts[i])
    ensures var e := states[i].sessions[Releaser(acts[i])].entry;
      && e < |states[i].runtime.logical| == |states[i + 1].runtime.logical|
      && states[i + 1].runtime.active == states[i].runtime.active - 1
      && states[i + 1].runtime.logical[e].active == states[i].runtime.logical[e].active - 1
  {
    RunHolds(states, acts, i);
    HolderCounts(states[i], Releaser(acts[i]));
  }

  /** A session that has released stays released, and keeps its entry. */
  lemma {:induction false} ReleasedForever(states: seq<State>, acts: seq<Action>, i: nat, j: nat, k: nat)
    requires IsRun(states, acts) && i <= j < |states| && k < |states[i].sessions|
    ensures k < |states[j].sessions| && states[j].sessions[k].entry == states[i].sessions[k].entry
    ensures states[i].sessions[k].phase == Released ==> states[j].sessions[k].phase == Released
    decreases j - i
  {
    if i < j {
      ReleasedForever(states, acts, i, j - 1, k);
      SessionStep(states[j - 1], acts[j - 1], k);
    }
  }

  lemma SessionStep(s: State, act: Action, k: nat)
    requires Enabled(s, act) && k < |s.sessions|
    ensures var next := Apply(s, act);
      && k < |next.sessions| && next.sessions[k].entry == s.sessions[k].entry
      && (s.sessions[k].phase == Released ==> next.sessions[k].phase == Released)
      && (next.sessions[k].phase == Released && s.sessions[k].phase != Released ==>
            Releases(s, act) && Releaser(act) == k)
      && (Releases(s, act) && Releaser(act) == k ==> next.sessions[k].phase == Released)
  {
  }

  /** However a session ends, and however often its client is closed, its lease goes back exactly once. */
  lemma ReleasedOnce(states: seq<State>, acts: seq<Action>, i: nat, j: nat)
    requires IsRun(states, acts) && i < |acts| && j < |acts|
    requires Releases(states[i], acts[i]) && Releases(states[j], acts[j]) && Releaser(acts[i]) == Releaser(acts[j])
    ensures i == j
  {
    hide Apply;
    hide Enabled;
    var a, b := if i < j then i else j, if i < j then j else i;
    if a < b {
      SessionStep(states[a], acts[a], Releaser(acts[a]));
      ReleasedForever(states, acts, a + 1, b, Releaser(acts[a]));
      assert false;
    }
  }

  // ---- The drain ----

  /** The drain is closed, once, exactly when the runtime is closed and every session has released. */
  lemma DrainMeansReleased(states: seq<State>, acts: seq<Action>, i: nat)
    requires IsRun(states, acts) && i < |states|
    ensures var s := states[i];
      && (s.runtime.drainClosed <==>
            s.runtime.isClosed && forall k | 0 <= k < |s.sessions| :: s.sessions[k].phase == Released)
      && s.runtime.drainCloses == (if s.runtime.drainClosed then 1 else 0)
  {
    RunHolds(states, acts, i);
    var s := states[i];
    if s.runtime.active == 0 {
      SumByZero(s.sessions, Holds);
    } else {
      var k := SumByWitness(s.sessions, Holds);
    }
  }

  // ---- Invalidation ----

  /** From an invalidation on, the id's attached entry is one made since. */
  lemma {:induction false} EntryIsNewer(states: seq<State>, acts: seq<Action>, i: nat, j: nat, id: Id)
    requires IsRun(states, acts) && i < j < |states| && acts[i] == InvalidateID(id)
    ensures |states[i].runtime.logical| <= |states[j].runtime.logical|
    ensures id in states[j].runtime.entries ==> states[j].runtime.entries[id] >= |states[i].runtime.logical|
    decreases j - i
  {
    hide Inv;
    hide Apply;
    hide Enabled;
    if i + 1 < j {
      EntryIsNewer(states, acts, i, j - 1, id);
      EntryStep(states[j - 1], acts[j - 1], id);
    } else {
      RunHolds(states, acts, i);
      InvalidateDrops(states[i], id);
    }
  }

  lemma InvalidateDrops(s: State, id: Id)
    requires Inv(s) && Enabled(s, InvalidateID(id))
    ensures var next := Apply(s, InvalidateID(id));
      |next.runtime.logical| == |s.runtime.logical| && id !in next.runtime.entries
  {
  }

  lemma EntryStep(s: State, act: Action, id: Id)
    requires Enabled(s, act)
    ensures var next := Apply(s, act);
      && |s.runtime.logical| <= |next.runtime.logical|
      && (id in next.runtime.entries ==>
            (id in s.runtime.entries && s.runtime.entries[id] == next.runtime.entries[id])
            || next.runtime.entries[id] >= |s.runtime.logical|)
  {
  }

  /** A session that begins after an invalidation shares its entry with no session from before. */
  lemma InvalidationSeparates(states: seq<State>, acts: seq<Action>, i: nat, j: nat, earlier: nat)
    requires IsRun(states, acts) && i < j < |acts|
    requires acts[i].InvalidateID? && acts[j] == Begin(acts[i].id) && !states[j].runtime.isClosed
    requires earlier < |states[i].sessions|
    ensures |states[j + 1].sessions| == |states[j].sessions| + 1
    ensures states[j + 1].sessions[|states[j].sessions|].entry != states[i].sessions[earlier].entry
  {
    RunHolds(states, acts, i);
    EntryIsNewer(states, acts, i, j, acts[i].id);
    assert Leased(states[i], earlier);
  }
}
