/**
 Replacing a connection: what the registrar does is a registration of the transition system with all its
 invalidations, so whatever runs on from there serves what was registered, or something later.
 */
module Replacement {
  import opened Common
  import opened Text
  import opened OpenerModel
  import opened OpenerTheorems
  import opened Registrar
  import Connection
  import Importer
  import Saga

  // ---- Registrations stay ----

  /** Registrations are added, keep their kinds, and have nothing new to invalidate. */
  ghost predicate Grows(history: seq<Registration>, history': seq<Registration>) {
    && |history| <= |history'|
    && forall k | 0 <= k < |history| ::
         && history'[k].kind == history[k].kind
         && forall kind | kind in history'[k].todo :: kind in history[k].todo
  }

  lemma StepGrows(c: Config, s: State, act: Action, id: Id)
    requires OpenerModel.Indexed(s.opener) && Enabled(s, act)
    ensures Grows(RegistrationsOf(s, id), RegistrationsOf(Apply(c, s, act), id))
  {
    hide Invalidations;
    match act
    case Register(other, kind) =>
    case InvalidateNext(other, v) =>
    case _ => assert Apply(c, s, act).registry == s.registry;
  }

  lemma {:induction false} RunGrows(c: Config, states: seq<State>, acts: seq<Action>, i: nat, j: nat, id: Id)
    requires IsRun(c, states, acts) && i <= j < |states|
    ensures Grows(RegistrationsOf(states[i], id), RegistrationsOf(states[j], id))
    decreases j - i
  {
    if i < j {
      assert Step(c, states[i], acts[i], states[i + 1]);
      StepGrows(c, states[i], acts[i], id);
      RunGrows(c, states, acts, i + 1, j, id);
    }
  }

  // ---- What calls are served ----

  /** The registration has returned, and touches the kind, or none before it has still to invalidate the kind. */
  ghost predicate Effective(history: seq<Registration>, v: nat, kind: Kind) {
    && v < |history| && history[v].todo == []
    && (Touches(history, v, kind) || forall u | 0 <= u < v :: kind !in history[u].todo)
  }

  lemma EffectiveStays(history: seq<Registration>, history': seq<Registration>, v: nat, kind: Kind)
    requires Effective(history, v, kind) && Grows(history, history')
    ensures Effective(history', v, kind)
  {
    SomethingIn(history'[v].todo);
    assert v > 0 ==> history'[v - 1].kind == history[v - 1].kind;
  }

  lemma SomethingIn(todo: seq<Kind>)
    ensures todo == [] || exists kind :: kind in todo
  {
    if todo != [] {
      assert todo[0] in todo;
    }
  }

  /** The call that was made next in state `s` has not been served, by state `s'`, an older client than this. */
  ghost predicate ServedSince(s: State, s': State, id: Id, v: nat) {
    && |s.callers| < |s'.callers|
    && var outcome := s'.callers[|s.callers|].outcome;
       outcome.Got? ==>
         && outcome.pool < |s'.opener.pools|
         && s'.opener.pools[outcome.pool].id == id
         && v <= s'.opener.pools[outcome.pool].version
  }

  ghost predicate Continues(c: Config, states: seq<State>, acts: seq<Action>,
                            states': seq<State>, acts': seq<Action>) {
    IsRun(c, states', acts') && states <= states' && acts <= acts'
  }

  /** However the run goes on, no call from its end on is served a client older than the registration. */
  ghost predicate SeenFromNow(c: Config, states: seq<State>, acts: seq<Action>, id: Id, v: nat) {
    forall states', acts', i, j |
      && Continues(c, states, acts, states', acts')
      && |acts| <= i < |acts'| && acts'[i] == Call(id, false) && i < j < |states'| ::
      ServedSince(states'[i], states'[j], id, v)
  }

  /** An effective registration is seen by every call from now on, whatever registrations follow it. */
  lemma EffectiveIsSeen(c: Config, states: seq<State>, acts: seq<Action>, id: Id, v: nat)
    requires IsRun(c, states, acts) && Effective(RegistrationsOf(states[|acts|], id), v, c.kind)
    ensures SeenFromNow(c, states, acts, id, v)
  {
    hide Effective;
    hide Step;
    forall states', acts', i, j |
      && Continues(c, states, acts, states', acts')
      && |acts| <= i < |acts'| && acts'[i] == Call(id, false) && i < j < |states'|
      ensures ServedSince(states'[i], states'[j], id, v)
    {
      SeenInRun(c, states', acts', |acts|, i, j, id, v);
    }
  }

  lemma SeenInRun(c: Config, states: seq<State>, acts: seq<Action>, n: nat, i: nat, j: nat, id: Id, v: nat)
    requires IsRun(c, states, acts) && n <= i < |acts| && acts[i] == Call(id, false) && i < j < |states|
    requires Effective(RegistrationsOf(states[n], id), v, c.kind)
    ensures ServedSince(states[i], states[j], id, v)
  {
    RunGrows(c, states, acts, n, i, id);
    EffectiveStays(RegistrationsOf(states[n], id), RegistrationsOf(states[i], id), v, c.kind);
    FreshOnceReturned(c, states, acts, i, j, id, v);
  }

  // ---- The registrar ----

  /** The definition the manager holds for an id is of the kind registered last. */
  ghost predicate Agrees(previous: Option<Connection.Definition>, history: seq<Registration>) {
    && (previous.None? <==> history == [])
    && (previous.Some? ==> previous.value.kind == history[|history| - 1].kind)
  }

  lemma TouchedAre(previous: Option<Connection.Definition>, history: seq<Registration>, kind: Kind)
    requires Agrees(previous, history)
    ensures Touched(previous, kind) == Invalidations(history, kind)
    ensures forall k :: k in Touched(previous, kind)
                        <==> Touches(history + [OpenerModel.Registration(kind, [])], |history|, k)
  {
  }

  /** Commit and invalidate, one call after the other. */
  lemma RegisterRuns(c: Config, states: seq<State>, acts: seq<Action>, s: State, id: Id, kind: Kind)
    returns (states': seq<State>, acts': seq<Action>, s': State)
    requires IsRun(c, states, acts) && states[|acts|] == s
    ensures Continues(c, states, acts, states', acts') && states'[|acts'|] == s'
    ensures OpenerModel.Indexed(s.opener) && s'.callers == s.callers
    ensures s'.registry == s.registry[id := RegistrationsOf(s, id) + [OpenerModel.Registration(kind, [])]]
    ensures s'.opener == if c.kind in Invalidations(RegistrationsOf(s, id), kind)
                         then OpenerModel.Invalidate(s.opener, id) else s.opener
  {
    hide IsRun;
    hide OpenerModel.Invalidate;
    var history := RegistrationsOf(s, id);
    var todo := Invalidations(history, kind);
    assert todo == [todo[0]] || (todo == [todo[0], todo[1]] && todo[1..] == [todo[1]] && todo[0] != todo[1]);
    var s1;
    states', acts', s1 := Advance(c, states, acts, s, Register(id, kind));
    LastInvalidates(c, s1, id, history, OpenerModel.Registration(kind, todo));
    states', acts', s' := Advance(c, states', acts', s1, InvalidateNext(id, |history|));
    if |todo| == 2 {
      LastInvalidates(c, s', id, history, OpenerModel.Registration(kind, [todo[1]]));
      states', acts', s' := Advance(c, states', acts', s', InvalidateNext(id, |history|));
    }
    var last: seq<Kind> := [todo[|todo| - 1]];
    assert last[1..] == [];
  }

  /** The last registration's next invalidation. */
  lemma LastInvalidates(c: Config, s: State, id: Id, history: seq<Registration>, r: Registration)
    requires OpenerModel.Indexed(s.opener) && r.todo != []
    requires id in s.registry && s.registry[id] == history + [r]
    ensures Enabled(s, InvalidateNext(id, |history|))
    ensures Apply(c, s, InvalidateNext(id, |history|))
            == s.(registry := s.registry[id := history + [r.(todo := r.todo[1..])]],
                  opener := if r.todo[0] == c.kind then OpenerModel.Invalidate(s.opener, id) else s.opener)
  {
    hide OpenerModel.Invalidate;
    assert (history + [r])[|history| := r.(todo := r.todo[1..])] == history + [r.(todo := r.todo[1..])];
  }

  /**
   The registrar's Register, as a continuation of any run of a pooled runtime: it leaves the runtime in the state
   that the run ends with, and the new definition is the one registered last. If it touches the kind of the
   runtime, or nothing before it is pending for the kind, no later call is served an older one.
   */
  lemma RegisterIsServed(c: Config, states: seq<State>, acts: seq<Action>, s: State, id: Id, kind: Kind,
                         previous: Option<Connection.Definition>, before: map<Bytes, RuntimeState>)
    returns (states': seq<State>, acts': seq<Action>, s': State)
    requires IsRun(c, states, acts) && states[|acts|] == s && Agrees(previous, RegistrationsOf(s, id))
    requires c.kind in before && before[c.kind] == PoolState(s.opener)
    ensures Continues(c, states, acts, states', acts') && states'[|acts'|] == s' && s'.callers == s.callers
    ensures s'.registry == s.registry[id := RegistrationsOf(s, id) + [OpenerModel.Registration(kind, [])]]
    ensures InvalidatedIn(before, Touched(previous, kind), id)[c.kind] == PoolState(s'.opener)
    ensures c.kind in Touched(previous, kind)
            || (forall r | r in RegistrationsOf(s, id) :: c.kind !in r.todo) ==>
              SeenFromNow(c, states', acts', id, |RegistrationsOf(s, id)|)
  {
    hide IsRun;
    hide SeenFromNow;
    hide Touches;
    hide Invalidations;
    hide Touched;
    hide OpenerModel.Invalidate;
    var history := RegistrationsOf(s, id);
    TouchedAre(previous, history, kind);
    states', acts', s' := RegisterRuns(c, states, acts, s, id, kind);
    if c.kind in Touched(previous, kind) || forall r | r in history :: c.kind !in r.todo {
      assert Effective(RegistrationsOf(s', id), |history|, c.kind);
      EffectiveIsSeen(c, states', acts', id, |history|);
    }
  }

  /**
   An import that returned is what the next call of openRaw is served, unless something later is: it continues any
   run of a pooled runtime that it touches, by its registration, to the state it leaves the runtime in.
   */
  twostate lemma ImportIsServed(importer: Importer.ConnectionImporter, request: Saga.Request,
                                parsed: Connection.Parsed, c: Config, states: seq<State>, acts: seq<Action>, s: State)
    returns (states': seq<State>, acts': seq<Action>, s': State)
    requires importer.Committed(request, parsed)
    requires IsRun(c, states, acts) && states[|acts|] == s
    requires Agrees(Previous(old(importer.repository.definitions), request.id), RegistrationsOf(s, request.id))
    requires c.kind in old(importer.registrar.States())
    requires old(importer.registrar.States())[c.kind] == PoolState(s.opener)
    ensures Continues(c, states, acts, states', acts') && states'[|acts'|] == s'
    ensures importer.registrar.States()[c.kind] == PoolState(s'.opener)
    ensures Agrees(Previous(importer.repository.definitions, request.id), RegistrationsOf(s', request.id))
    ensures c.kind in Touched(Previous(old(importer.repository.definitions), request.id), request.kind) ==>
              SeenFromNow(c, states', acts', request.id, |RegistrationsOf(s', request.id)| - 1)
  {
    hide IsRun;
    hide SeenFromNow;
    var previous := Previous(old(importer.repository.definitions), request.id);
    states', acts', s' := RegisterIsServed(c, states, acts, s, request.id, request.kind, previous,
                                           old(importer.registrar.States()));
  }
}
