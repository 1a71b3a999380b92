/**
 Freshness is exact: whenever the registrations leave a window for an older definition, there is a run
 in which a call is served a client of it.
 */
module OpenerExactness {
  import opened Common
  import opened OpenerModel
  import opened OpenerTheorems

  // ---- Histories ----

  ghost predicate IsSuffix(todo: seq<Kind>, all: seq<Kind>) {
    |todo| <= |all| && todo == all[|all| - |todo|..]
  }

  /** Registrations as they can be: each has done some of its invalidations, from the first on. */
  ghost predicate Possible(history: seq<Registration>) {
    forall k | 0 <= k < |history| :: IsSuffix(history[k].todo, Invalidations(history[..k], history[k].kind))
  }

  /** Only the kinds of the registrations before matter. */
  lemma InvalidationsByKind(h: seq<Registration>, g: seq<Registration>, kind: Kind)
    requires |h| == |g| && (h != [] ==> h[|h| - 1].kind == g[|g| - 1].kind)
    ensures Invalidations(h, kind) == Invalidations(g, kind)
  {
  }

  lemma RegisteredIsPossible(history: seq<Registration>, kind: Kind)
    requires Possible(history)
    ensures Possible(history + [Registration(kind, Invalidations(history, kind))])
  {
    hide Invalidations;
    var next := history + [Registration(kind, Invalidations(history, kind))];
    forall k | 0 <= k < |next| ensures IsSuffix(next[k].todo, Invalidations(next[..k], next[k].kind)) {
      if k < |history| {
        assert next[..k] == history[..k];
      } else {
        assert next[..k] == history;
      }
    }
  }

  lemma InvalidatedIsPossible(history: seq<Registration>, v: nat)
    requires Possible(history) && v < |history| && history[v].todo != []
    ensures Possible(history[v := history[v].(todo := history[v].todo[1..])])
  {
    hide Invalidations;
    var next := history[v := history[v].(todo := history[v].todo[1..])];
    forall k | 0 <= k < |next| ensures IsSuffix(next[k].todo, Invalidations(next[..k], next[k].kind)) {
      InvalidationsByKind(next[..k], history[..k], history[k].kind);
      assert IsSuffix(history[k].todo, Invalidations(history[..k], history[k].kind));
    }
  }

  /** The registrations of every id in every run are such histories. */
  lemma {:induction false} HistoriesArePossible(c: Config, states: seq<State>, acts: seq<Action>, i: nat, id: Id)
    requires IsRun(c, states, acts) && i < |states|
    ensures Possible(RegistrationsOf(states[i], id))
    decreases i
  {
    hide Possible;
    if i == 0 {
      InitialIsPossible(RegistrationsOf(states[0], id));
    } else {
      HistoriesArePossible(c, states, acts, i - 1, id);
      assert Step(c, states[i - 1], acts[i - 1], states[i]);
      StepIsPossible(c, states[i - 1], acts[i - 1], id);
    }
  }

  lemma InitialIsPossible(history: seq<Registration>)
    requires |history| <= 1 && forall r | r in history :: r.todo == []
    ensures Possible(history)
  {
  }

  lemma StepIsPossible(c: Config, s: State, act: Action, id: Id)
    requires Indexed(s.opener) && Enabled(s, act) && Possible(RegistrationsOf(s, id))
    ensures Possible(RegistrationsOf(Apply(c, s, act), id))
  {
    hide Possible;
    var history := RegistrationsOf(s, id);
    match act
    case Register(other, kind) => if other == id { RegisteredIsPossible(history, kind); }
    case InvalidateNext(other, v) => if other == id { InvalidatedIsPossible(history, v); }
    case _ => assert Apply(c, s, act).registry == s.registry;
  }

  // ---- Building a run ----

  /** An opener that has done nothing but count invalidations. */
  ghost predicate Untouched(o: Opener) {
    o == NEW_OPENER.(generations := o.generations)
  }

  /** The run so far, its last state, and the registrations of the id in it. */
  ghost predicate Reached(c: Config, states: seq<State>, acts: seq<Action>, s: State, id: Id,
                          history: seq<Registration>) {
    && IsRun(c, states, acts)
    && |states| == |acts| + 1 && states[|acts|] == s
    && RegistrationsOf(s, id) == history
  }

  /** The registration does the next n of its invalidations. */
  lemma {:induction false} Invalidate(c: Config, states: seq<State>, acts: seq<Action>, s: State, id: Id,
                                      history: seq<Registration>, k: nat, n: nat)
    returns (states': seq<State>, acts': seq<Action>, s': State)
    requires Reached(c, states, acts, s, id, history) && k < |history| && n <= |history[k].todo|
    ensures Reached(c, states', acts', s', id, history[k := history[k].(todo := history[k].todo[n..])])
    ensures s'.callers == s.callers
    ensures Untouched(s.opener) ==> Untouched(s'.opener)
    ensures c.kind !in history[k].todo[..n] ==> s'.opener == s.opener
    decreases n
  {
    hide Untouched;
    hide IsRun;
    if n == 0 {
      states', acts', s' := states, acts, s;
      assert history[k := history[k].(todo := history[k].todo[0..])] == history;
    } else {
      var todo := history[k].todo;
      var states1, acts1, s1 := Advance(c, states, acts, s, InvalidateNext(id, k));
      var next := history[k := history[k].(todo := todo[1..])];
      if Untouched(s.opener) { UntouchedStays(s.opener, id); }
      assert Reached(c, states1, acts1, s1, id, next);
      states', acts', s' := Invalidate(c, states1, acts1, s1, id, next, k, n - 1);
      assert todo[1..][n - 1..] == todo[n..];
      assert todo[0] == todo[..n][0];
      assert forall x | x in todo[1..][..n - 1] :: x in todo[..n] by { Shifted(todo, n); }
      assert next[k := next[k].(todo := todo[n..])] == history[k := history[k].(todo := todo[n..])];
    }
  }

  lemma Shifted(todo: seq<Kind>, n: nat)
    requires 0 < n <= |todo|
    ensures forall x | x in todo[1..][..n - 1] :: x in todo[..n]
  {
    forall x | x in todo[1..][..n - 1] ensures x in todo[..n] {
      var i :| 0 <= i < n - 1 && todo[1..][..n - 1][i] == x;
      assert todo[..n][i + 1] == x;
    }
  }

  lemma UntouchedStays(o: Opener, id: Id)
    requires Indexed(o) && Untouched(o)
    ensures Untouched(OpenerModel.Invalidate(o, id))
  {
  }

  /** What a registration of another kind, or one that still has to invalidate the kind, has invalidated so far. */
  lemma KindIsSpared(history: seq<Registration>, k: nat, kind: Kind)
    requires Possible(history) && k < |history|
    requires Touches(history, k, kind) ==> kind in history[k].todo
    ensures var all := Invalidations(history[..k], history[k].kind);
      |history[k].todo| <= |all| && kind !in all[..|all| - |history[k].todo|]
  {
    assert IsSuffix(history[k].todo, Invalidations(history[..k], history[k].kind));
  }

  /** The next registration of the history is made, and does the invalidations it has done in the history. */
  lemma Add(c: Config, states: seq<State>, acts: seq<Action>, s: State, id: Id, history: seq<Registration>, k: nat)
    returns (states': seq<State>, acts': seq<Action>, s': State)
    requires Possible(history) && k < |history| && Reached(c, states, acts, s, id, history[..k])
    ensures Reached(c, states', acts', s', id, history[..k + 1])
    ensures s'.callers == s.callers
    ensures Untouched(s.opener) ==> Untouched(s'.opener)
    ensures (Touches(history, k, c.kind) ==> c.kind in history[k].todo) ==> s'.opener == s.opener
  {
    hide Untouched;
    hide IsRun;
    hide Invalidations;
    hide Touches;
    assert IsSuffix(history[k].todo, Invalidations(history[..k], history[k].kind));
    var all := Invalidations(history[..k], history[k].kind);
    var n := |all| - |history[k].todo|;
    states', acts', s' := Advance(c, states, acts, s, Register(id, history[k].kind));
    var next := history[..k] + [Registration(history[k].kind, all)];
    states', acts', s' := Invalidate(c, states', acts', s', id, next, k, n);
    assert next[k := next[k].(todo := all[n..])] == history[..k + 1];
    if Touches(history, k, c.kind) ==> c.kind in history[k].todo {
      KindIsSpared(history, k, c.kind);
    }
  }

  /** The registrations from k up to m. */
  lemma {:induction false} AddAll(c: Config, states: seq<State>, acts: seq<Action>, s: State, id: Id,
                                  history: seq<Registration>, k: nat, m: nat)
    returns (states': seq<State>, acts': seq<Action>, s': State)
    requires Possible(history) && k <= m <= |history| && Reached(c, states, acts, s, id, history[..k])
    ensures Reached(c, states', acts', s', id, history[..m])
    ensures s'.callers == s.callers
    ensures Untouched(s.opener) ==> Untouched(s'.opener)
    ensures (forall u | k <= u < m && Touches(history, u, c.kind) :: c.kind in history[u].todo) ==>
              s'.opener == s.opener
    decreases m - k
  {
    hide Untouched;
    hide Reached;
    hide Possible;
    hide Touches;
    states', acts', s' := states, acts, s;
    if k < m {
      states', acts', s' := Add(c, states, acts, s, id, history, k);
      states', acts', s' := AddAll(c, states', acts', s', id, history, k + 1, m);
    }
  }

  /** A call opens a pool from the current definition. */
  lemma OpenPool(c: Config, states: seq<State>, acts: seq<Action>, s: State, id: Id, history: seq<Registration>)
    returns (states': seq<State>, acts': seq<Action>, s': State)
    requires Reached(c, states, acts, s, id, history) && Untouched(s.opener)
    requires history != [] && history[|history| - 1].kind == c.kind
    ensures Reached(c, states', acts', s', id, history)
    ensures var o, g := s'.opener, GenerationOf(s.opener, id);
      && !o.isClosed && GenerationOf(o, id) == g
      && o.attempts == [Attempt(id, g, None, 0, None, None, Pooled(0))]
      && o.pools == [Pool(id, |history| - 1, ByAttempt(0), 0)]
      && id in o.entries && o.entries[id] == Entry(g, None, Some(0))
  {
    hide IsRun;
    states', acts', s' := Advance(c, states, acts, s, Call(id, false));
    assert s'.opener.attempts == [Attempt(id, GenerationOf(s.opener, id), None, 0, None, None, Starting)];
    states', acts', s' := Advance(c, states', acts', s', Prepare(0, true));
    states', acts', s' := Advance(c, states', acts', s', MakePool(0, Made));
  }

  /** The attempt succeeds, and its pool is cached. */
  lemma CachePool(c: Config, states: seq<State>, acts: seq<Action>, s: State, id: Id, history: seq<Registration>)
    returns (states': seq<State>, acts': seq<Action>, s': State)
    requires Reached(c, states, acts, s, id, history) && Untouched(s.opener)
    requires history != [] && history[|history| - 1].kind == c.kind
    ensures Reached(c, states', acts', s', id, history)
    ensures var o := s'.opener;
      && !o.isClosed && o.pools == [Pool(id, |history| - 1, ByEntry(id), 0)]
      && id in o.entries && o.entries[id].client == Some(0)
  {
    hide IsRun;
    hide Untouched;
    states', acts', s' := OpenPool(c, states, acts, s, id, history);
    states', acts', s' := Advance(c, states', acts', s', Ping(0, true));
    states', acts', s' := Advance(c, states', acts', s', CheckCause(0));
    states', acts', s' := Advance(c, states', acts', s', FinishAttempt(0));
  }

  // ---- The exact condition ----

  /** The run ends with a call of the id, at these registrations, that is served a client of this version. */
  ghost predicate Serves(c: Config, states: seq<State>, acts: seq<Action>, id: Id, history: seq<Registration>,
                         version: nat) {
    && IsRun(c, states, acts) && |acts| > 0 && acts[|acts| - 1] == Call(id, false)
    && RegistrationsOf(states[|acts| - 1], id) == history
    && |states[|acts|].callers| == |states[|acts| - 1].callers| + 1
    && var outcome := states[|acts|].callers[|states[|acts| - 1].callers|].outcome;
       && outcome.Got?
       && outcome.pool < |states[|acts|].opener.pools|
       && states[|acts|].opener.pools[outcome.pool].version == version
  }

  /** While every later registration has still to invalidate the kind, a client of the definition may be served. */
  lemma StaleIsServed(c: Config, id: Id, history: seq<Registration>, w: nat)
    returns (states: seq<State>, acts: seq<Action>)
    requires Possible(history) && StaleOnlyPending(history, w, c.kind)
    ensures Serves(c, states, acts, id, history, w)
  {
    hide IsRun;
    hide Possible;
    var s := State(NEW_OPENER, map[], []);
    states, acts := [s], [];
    assert IsRun(c, states, acts) by { EmptyRun(c, s); }
    assert history[..0] == [];
    states, acts, s := AddAll(c, states, acts, s, id, history, 0, w + 1);
    states, acts, s := CachePool(c, states, acts, s, id, history[..w + 1]);
    var cached := s.opener;
    states, acts, s := AddAll(c, states, acts, s, id, history, w + 1, |history|);
    assert s.opener == cached;
    assert history[..|history|] == history;
    states, acts, s := Advance(c, states, acts, s, Call(id, false));
  }

  lemma EmptyRun(c: Config, s: State)
    requires s == State(NEW_OPENER, map[], [])
    ensures IsRun(c, [s], [])
  {
  }

  /**
   A call is sure to see registration `v` or a later one exactly when no registration before `v` has, for
   this kind, only registrations after it that have yet to invalidate the kind.
   */
  lemma FreshnessIsExact(c: Config, id: Id, history: seq<Registration>, v: nat)
    requires Possible(history) && v < |history|
    ensures Settled(history, v, c.kind) <==>
            forall states, acts, version | Serves(c, states, acts, id, history, version) :: v <= version
  {
    if Settled(history, v, c.kind) {
      forall states, acts, version | Serves(c, states, acts, id, history, version) ensures v <= version {
        Freshness(c, states, acts, |acts| - 1, |acts|, id, v);
      }
    } else {
      var w :| 0 <= w < v && StaleOnlyPending(history, w, c.kind);
      var states, acts := StaleIsServed(c, id, history, w);
    }
  }

  // ---- A window ----

  const DB: Id := [100, 98]
  const K: Kind := [75]
  const J: Kind := [74]

  const OVERLAP: seq<Registration> := [Registration(K, []), Registration(J, [K, J]), Registration(J, [])]

  lemma OverlapIsPossible()
    ensures Possible(OVERLAP)
  {
    hide IsSuffix;
    hide Invalidations;
    var h := OVERLAP;
    assert h[..0] == [] && h[..1] == [h[0]] && h[..2] == [h[0], h[1]];
    OverlapTodos();
    forall k | 0 <= k < |h| ensures IsSuffix(h[k].todo, Invalidations(h[..k], h[k].kind)) {
      assert k == 0 || k == 1 || k == 2;
    }
  }

  lemma OverlapTodos()
    ensures IsSuffix([], Invalidations([], K))
    ensures IsSuffix([K, J], Invalidations([OVERLAP[0]], J))
    ensures IsSuffix([], Invalidations([OVERLAP[0], OVERLAP[1]], J))
  {
  }

  lemma OverlapIsStale()
    ensures StaleOnlyPending(OVERLAP, 0, K) && !Settled(OVERLAP, 2, K)
  {
    assert Touches(OVERLAP, 1, K) && !Touches(OVERLAP, 2, K);
    assert K in OVERLAP[1].todo;
    assert StaleOnlyPending(OVERLAP, 0, K);
  }

  /**
   Overlapping registrations that change kinds leave a window. The first, from kind K to J, has not reached
   its invalidation of K; the second, from J to J, never invalidates K and returns.
   */
  lemma OverlapServesStale() returns (states: seq<State>, acts: seq<Action>)
    ensures Serves(Config(K, Postgres), states, acts, DB, OVERLAP, 0) && !Settled(OVERLAP, 2, K)
    ensures OVERLAP[2].todo == []
  {
    hide Possible;
    hide StaleOnlyPending;
    hide Settled;
    hide Serves;
    OverlapIsPossible();
    OverlapIsStale();
    states, acts := StaleIsServed(Config(K, Postgres), DB, OVERLAP, 0);
  }
}
