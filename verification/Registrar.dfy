/** The replacement registrar: commit a definition, then invalidate the runtimes that may hold an older one. */
module Registrar {
  import opened Common
  import opened Text
  import opened Connection
  import Repository
  import OpenerModel
  import OpenerObject
  import LeaseModel
  import LeaseObject

  datatype Runtime = Pooled(cache: OpenerObject.RuntimeCache) | Leased(leases: LeaseObject.LeaseRuntime)

  function ObjectOf(runtime: Runtime): object {
    match runtime
    case Pooled(cache) => cache
    case Leased(leases) => leases
  }

  datatype RuntimeState = PoolState(opener: OpenerModel.Opener) | LeaseState(leases: LeaseModel.Runtime)

  ghost function StateOf(runtime: Runtime): RuntimeState
    reads ObjectOf(runtime)
  {
    match runtime
    case Pooled(cache) => PoolState(cache.Snapshot())
    case Leased(leases) => LeaseState(leases.Snapshot())
  }

  ghost predicate Indexed(s: RuntimeState) {
    match s
    case PoolState(o) => OpenerModel.Indexed(o)
    case LeaseState(r) => LeaseModel.Indexed(r)
  }

  ghost function Invalidated(s: RuntimeState, id: Bytes): RuntimeState {
    match s
    case PoolState(o) => if Indexed(s) then PoolState(OpenerModel.Invalidate(o, id)) else s
    case LeaseState(r) => if Indexed(s) then LeaseState(LeaseModel.Invalidate(r, id)) else s
  }

  /** The id invalidated in the runtimes of these kinds, once each, and nothing else done. */
  ghost function InvalidatedIn(states: map<Bytes, RuntimeState>, kinds: seq<Bytes>, id: Bytes)
    : map<Bytes, RuntimeState>
  {
    map kind | kind in states :: if kind in kinds then Invalidated(states[kind], id) else states[kind]
  }

  /** The kinds whose runtimes a registration invalidates, as the transition system has them. */
  function Touched(previous: Option<Definition>, kind: Bytes): seq<Bytes> {
    OpenerModel.Invalidations(
      if previous.Some? then [OpenerModel.Registration(previous.value.kind, [])] else [], kind)
  }

  /** One runtime invalidated, then another: both. */
  lemma TouchedTwice(previous: Option<Definition>, kind: Bytes, states: map<Bytes, RuntimeState>, id: Bytes)
    ensures previous.None? || previous.value.kind == kind ==> Touched(previous, kind) == [kind]
    ensures previous.Some? && previous.value.kind != kind ==>
              InvalidatedIn(states, Touched(previous, kind), id)
                == InvalidatedIn(InvalidatedIn(states, [previous.value.kind], id), [kind], id)
  {
    hide Invalidated;
  }

  /** The call through the lifecycle interface. */
  method InvalidateRuntime(runtime: Runtime, id: Bytes)
    requires Indexed(StateOf(runtime))
    modifies ObjectOf(runtime)
    ensures Indexed(StateOf(runtime))
    ensures StateOf(runtime) == Invalidated(old(StateOf(runtime)), id)
  {
    match runtime {
      case Pooled(cache) => cache.Invalidate(id);
      case Leased(leases) => leases.Invalidate(id);
    }
  }

  class ReplacementRegistrar {
    const manager: Repository.Manager
    const runtimes: map<Bytes, Runtime>

    constructor (manager: Repository.Manager, runtimes: map<Bytes, Runtime>)
      ensures this.manager == manager && this.runtimes == runtimes
    {
      this.manager, this.runtimes := manager, runtimes;
    }

    ghost function Objects(): (objects: set<object>)
      ensures forall kind | kind in runtimes :: ObjectOf(runtimes[kind]) in objects
    {
      set kind | kind in runtimes :: ObjectOf(runtimes[kind])
    }

    /** Each kind has a runtime of its own. */
    ghost predicate Ready()
      reads Objects()
    {
      && manager !in Objects()
      && (forall kind | kind in runtimes :: Indexed(StateOf(runtimes[kind])))
      && (forall k, l | k in runtimes && l in runtimes && ObjectOf(runtimes[k]) == ObjectOf(runtimes[l]) :: k == l)
    }

    ghost function States(): map<Bytes, RuntimeState>
      reads Objects()
    {
      map kind | kind in runtimes :: StateOf(runtimes[kind])
    }

    method Invalidate(kind: Bytes, id: Bytes)
      requires Ready()
      modifies Objects()
      ensures Ready()
      ensures States() == InvalidatedIn(old(States()), [kind], id)
    {
      hide StateOf;
      hide Invalidated;
      hide Indexed;
      if kind !in runtimes {
        return;
      }
      InvalidateRuntime(runtimes[kind], id);
    }

    /** Fails exactly on an invalid definition; then nothing has happened. */
    method Register(definition: Definition) returns (r: Option<Repository.Registration>)
      requires Ready()
      modifies manager, Objects()
      ensures Ready()
      ensures r.Some? <==> ValidDefinition(definition)
      ensures r.None? ==> manager.definitions == old(manager.definitions) && States() == old(States())
      ensures r.Some? ==>
                && manager.definitions == old(manager.definitions)[definition.id := definition]
                && r.value.previous == Previous(old(manager.definitions), definition.id)
                && States() == InvalidatedIn(old(States()), Touched(r.value.previous, definition.kind), definition.id)
    {
      hide ValidDefinition;
      hide Touched;
      hide Indexed;
      hide States;
      hide InvalidatedIn;
      r := manager.Register(definition);
      if r.None? {
        return;
      }
      var previous := r.value.previous;
      TouchedTwice(previous, definition.kind, old(States()), definition.id);
      if previous.Some? {
        Invalidate(previous.value.kind, definition.id);
      }
      if previous.None? || previous.value.kind != definition.kind {
        Invalidate(definition.kind, definition.id);
      }
    }
  }

  function Previous(defs: Definitions, id: Bytes): Option<Definition> {
    if id in defs then Some(defs[id]) else None
  }
}
