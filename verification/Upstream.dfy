/** A stable port's connection to whatever mapping its host currently has, retried once. */
module Upstream {
  import opened Bytes
  import Pool

  datatype UpstreamError = NoMapping(error: Pool.PoolError) | ConnectionRefused | Unexpected

  /** Where the caller is suspended; `Holding` has the host's lock and replaces the mapping. */
  datatype Stage =
    | Asking
    | Holding
    | Connecting(id: int)
    | Dropping(id: int)
    | Connected(id: int)
    | Failed(error: UpstreamError)

  /** `attempt` is the loop variable and `refused` the mappings that have refused a connection and been closed. */
  datatype Caller = Caller(host: string, attempt: nat, stage: Stage, refused: seq<int>)

  datatype World = World(pool: Pool.State, caller: Caller)

  datatype Outcome = Established | OsError | OtherError

  /** What may happen next: anything anybody else does with the pool, or the caller's own next step. */
  datatype Event =
    | Others(action: Pool.Action)
    | Ask
    | Replace(action: Pool.Action)
    | Finish(outcome: Outcome)
    | Dropped

  function Fresh(pool: Pool.State, host: string): World {
    World(pool, Caller(host, 0, Asking, []))
  }

  /** The steps only the holder of a host's lock takes. */
  predicate HolderStep(action: Pool.Action, host: string) {
    (action.OldClosed? || action.Opened? || action.OpenFailed?) && action.host == host
  }

  predicate Enabled(w: World, e: Event) {
    match e
    case Others(action) =>
      Pool.Enabled(w.pool, action) && !(w.caller.stage == Holding && HolderStep(action, w.caller.host))
    case Ask =>
      && w.caller.stage == Asking
      && (w.pool.closed || w.caller.host !in w.pool.hosts || Pool.Enabled(w.pool, Pool.Get(w.caller.host)))
    case Replace(action) =>
      w.caller.stage == Holding && HolderStep(action, w.caller.host) && Pool.Enabled(w.pool, action)
    case Finish(_) => w.caller.stage.Connecting?
    case Dropped => w.caller.stage.Dropping? && w.caller.stage.id in w.pool.health
  }

  function At(w: World, stage: Stage): World {
    w.(caller := w.caller.(stage := stage))
  }

  function Act(w: World, action: Pool.Action): World
    requires Pool.Enabled(w.pool, action)
  {
    w.(pool := Pool.Step(w.pool, action))
  }

  function Step(w: World, e: Event): World
    requires Enabled(w, e)
  {
    var host := w.caller.host;
    match e
    case Others(action) => Act(w, action)
    case Ask =>
      if w.pool.closed then At(w, Failed(NoMapping(Pool.PoolClosed)))
      else if host !in w.pool.hosts then At(w, Failed(NoMapping(Pool.UnknownHost)))
      else if Pool.StoredHealthy(w.pool, host) then At(Act(w, Pool.Get(host)), Connecting(w.pool.mappings[host]))
      else At(Act(w, Pool.Get(host)), Holding)
    case Replace(action) =>
      At(Act(w, action),
         if action.Opened? then Connecting(action.id)
         else if action.OpenFailed? then Failed(NoMapping(Pool.OpenerFailed))
         else Holding)
    case Finish(outcome) =>
      At(w, match outcome
            case Established => Connected(w.caller.stage.id)
            case OsError => Dropping(w.caller.stage.id)
            case OtherError => Failed(Unexpected))
    case Dropped =>
      var c, id := w.caller, w.caller.stage.id;
      Act(w, Pool.CloseMapping(id)).(
        caller := Caller(host, if c.attempt == 1 then 1 else c.attempt + 1,
                         if c.attempt == 1 then Failed(ConnectionRefused) else Asking, c.refused + [id]))
  }

  predicate Legal(w: World, events: seq<Event>)
    decreases |events|
  {
    events == [] || (Enabled(w, events[0]) && Legal(Step(w, events[0]), events[1..]))
  }

  function Final(w: World, events: seq<Event>): World
    requires Legal(w, events)
    decreases |events|
  {
    if events == [] then w else Final(Step(w, events[0]), events[1..])
  }

  // ---------------------------------------------------------------- what every step keeps

  /** A host's stored mapping is the latest one opened for it. */
  ghost predicate StoredIsNewest(s: Pool.State) {
    forall h, id :: h in s.mappings && id in s.owner && s.owner[id] == h ==> id <= s.mappings[h]
  }

  /** Opened for the host, closed by now or not, and later than everything that refused a connection. */
  ghost predicate OfHost(w: World, id: int) {
    && id in w.pool.health && id in w.pool.owner && w.pool.owner[id] == w.caller.host
    && forall k :: 0 <= k < |w.caller.refused| ==> w.caller.refused[k] < id
  }

  ghost predicate RefusedAreClosed(w: World) {
    forall k :: 0 <= k < |w.caller.refused| ==>
      var id := w.caller.refused[k];
      id in w.pool.health && w.pool.health[id] == Pool.Closed && id in w.pool.owner && w.pool.owner[id] == w.caller.host
  }

  /** Refused mappings come in the order in which they were opened, and there is one for every attempt made. */
  ghost predicate Attempts(c: Caller) {
    && (forall j, k :: 0 <= j < k < |c.refused| ==> c.refused[j] < c.refused[k])
    && c.attempt <= 1
    && |c.refused| == (if c.stage == Failed(ConnectionRefused) then 2 else c.attempt)
  }

  ghost predicate Inv(w: World) {
    && Pool.Inv(w.pool) && StoredIsNewest(w.pool) && RefusedAreClosed(w) && Attempts(w.caller)
    && (w.caller.stage == Holding ==> w.caller.host in w.pool.hosts && Pool.PhaseOf(w.pool, w.caller.host) != Pool.Free)
    && (w.caller.stage.Connecting? || w.caller.stage.Dropping? || w.caller.stage.Connected? ==>
          OfHost(w, w.caller.stage.id))
  }

  lemma NewestKept(s: Pool.State, action: Pool.Action)
    requires Pool.Inv(s) && Pool.Enabled(s, action) && StoredIsNewest(s)
    ensures StoredIsNewest(Pool.Step(s, action))
  {
  }

  /** Closed mappings stay closed, and owners never change. */
  lemma ClosedForGood(s: Pool.State, action: Pool.Action, id: int)
    requires Pool.Inv(s) && Pool.Enabled(s, action) && id in s.health
    ensures var t := Pool.Step(s, action);
      id in t.health && id in t.owner && t.owner[id] == s.owner[id]
      && (s.health[id] == Pool.Closed ==> t.health[id] == Pool.Closed)
  {
  }

  lemma PoolStepKeeps(w: World, action: Pool.Action)
    requires Inv(w) && Pool.Enabled(w.pool, action)
    requires !(w.caller.stage == Holding && HolderStep(action, w.caller.host))
    ensures Inv(Act(w, action))
  {
    var t := Act(w, action);
    Pool.StepKeeps(w.pool, action);
    NewestKept(w.pool, action);
    forall k | 0 <= k < |w.caller.refused|
      ensures var id := w.caller.refused[k];
        id in t.pool.health && t.pool.health[id] == Pool.Closed
        && id in t.pool.owner && t.pool.owner[id] == w.caller.host
    {
      ClosedForGood(w.pool, action, w.caller.refused[k]);
    }
    if w.caller.stage.Connecting? || w.caller.stage.Dropping? || w.caller.stage.Connected? {
      ClosedForGood(w.pool, action, w.caller.stage.id);
    }
    if w.caller.stage == Holding {
      LockStays(w.pool, action, w.caller.host);
    }
  }

  lemma LockStays(s: Pool.State, action: Pool.Action, host: string)
    requires Pool.Enabled(s, action) && host in s.hosts && Pool.PhaseOf(s, host) != Pool.Free
    requires !HolderStep(action, host)
    ensures host in Pool.Step(s, action).hosts && Pool.PhaseOf(Pool.Step(s, action), host) != Pool.Free
  {
  }

  /** A healthy stored mapping is later than all that refused: those are closed, and it is the host's latest. */
  lemma HandedIsNewer(w: World)
    requires Inv(w) && Pool.StoredHealthy(w.pool, w.caller.host)
    ensures OfHost(w, w.pool.mappings[w.caller.host])
  {
  }

  lemma AskKeeps(w: World)
    requires Inv(w) && Enabled(w, Ask)
    ensures Inv(Step(w, Ask))
  {
    if !w.pool.closed && w.caller.host in w.pool.hosts {
      PoolStepKeeps(w, Pool.Get(w.caller.host));
      if Pool.StoredHealthy(w.pool, w.caller.host) {
        HandedIsNewer(w);
      }
    }
  }

  lemma ReplaceKeeps(w: World, action: Pool.Action)
    requires Inv(w) && Enabled(w, Replace(action))
    ensures Inv(Step(w, Replace(action)))
  {
    PoolStepKeeps(At(w, Asking), action);
    if action.Opened? {
      HandedIsNewer(Act(At(w, Asking), action));
    }
  }

  lemma DroppedKeeps(w: World)
    requires Inv(w) && Enabled(w, Dropped)
    ensures Inv(Step(w, Dropped))
  {
    PoolStepKeeps(w, Pool.CloseMapping(w.caller.stage.id));
  }

  lemma StepKeeps(w: World, e: Event)
    requires Inv(w) && Enabled(w, e)
    ensures Inv(Step(w, e))
  {
    match e
    case Others(action) => PoolStepKeeps(w, action);
    case Ask => AskKeeps(w);
    case Replace(action) => ReplaceKeeps(w, action);
    case Finish(_) =>
    case Dropped => DroppedKeeps(w);
  }

  lemma {:induction false} RunKeeps(w: World, events: seq<Event>)
    requires Inv(w) && Legal(w, events)
    ensures Inv(Final(w, events))
    decreases |events|
  {
    if events != [] {
      StepKeeps(w, events[0]);
      RunKeeps(Step(w, events[0]), events[1..]);
    }
  }

  lemma {:induction false} NewestInEveryRun(s: Pool.State, actions: seq<Pool.Action>)
    requires Pool.Inv(s) && StoredIsNewest(s) && Pool.Legal(s, actions)
    ensures Pool.Inv(Pool.Final(s, actions)) && StoredIsNewest(Pool.Final(s, actions))
    decreases |actions|
  {
    if actions != [] {
      Pool.StepKeeps(s, actions[0]);
      NewestKept(s, actions[0]);
      NewestInEveryRun(Pool.Step(s, actions[0]), actions[1..]);
    }
  }

  // ---------------------------------------------------------------- results over every interleaving

  /** How many connections were tried. */
  function Tries(events: seq<Event>): nat {
    if events == [] then 0 else (if events[0].Finish? then 1 else 0) + Tries(events[1..])
  }

  /** One try for every refused mapping, and one more when the last try was not refused or is not cleaned up yet. */
  function Made(c: Caller): nat {
    |c.refused| + (if c.stage.Dropping? || c.stage.Connected? || c.stage == Failed(Unexpected) then 1 else 0)
  }

  lemma {:induction false} TriesAreMade(w: World, events: seq<Event>)
    requires Legal(w, events)
    ensures Made(Final(w, events).caller) == Made(w.caller) + Tries(events)
    decreases |events|
  {
    if events != [] {
      TriesAreMade(Step(w, events[0]), events[1..]);
    }
  }

  /**
    From any reachable pool, whatever others do meanwhile: at most two tries; a mapping that refused one is
    closed for good, and the second try goes to a mapping opened later than the first; the call fails for a
    refusal exactly when both tries were refused; and of all mappings only the stored ones are open.
  */
  lemma AtMostTwoTries(hosts: set<string>, before: seq<Pool.Action>, host: string, events: seq<Event>)
    requires Pool.Legal(Pool.Initial(hosts), before)
    requires Legal(Fresh(Pool.Final(Pool.Initial(hosts), before), host), events)
    ensures var w := Final(Fresh(Pool.Final(Pool.Initial(hosts), before), host), events);
      var c := w.caller;
      && Tries(events) <= 2 && |c.refused| <= 2
      && RefusedAreClosed(w)
      && (|c.refused| == 2 ==> c.refused[0] < c.refused[1])
      && (c.stage == Failed(ConnectionRefused) <==> |c.refused| == 2)
      && (c.stage.Connecting? || c.stage.Connected? ==>
            OfHost(w, c.stage.id) && c.stage.id !in c.refused)
      && (forall id :: id in w.pool.health && w.pool.health[id] != Pool.Closed ==>
            id in w.pool.owner && w.pool.owner[id] in w.pool.mappings && w.pool.mappings[w.pool.owner[id]] == id)
  {
    var s := Pool.Final(Pool.Initial(hosts), before);
    NewestInEveryRun(Pool.Initial(hosts), before);
    RunKeeps(Fresh(s, host), events);
    TriesAreMade(Fresh(s, host), events);
  }

  // ---------------------------------------------------------------- what the events decide

  function Refusals(events: seq<Event>): nat {
    if events == [] then 0 else (if events[0] == Finish(OsError) then 1 else 0) + Refusals(events[1..])
  }

  /** A connection to the mapping is established. */
  predicate EverEstablishes(w: World, events: seq<Event>, id: int)
    requires Legal(w, events)
    decreases |events|
  {
    events != [] && ((events[0] == Finish(Established) && w.caller.stage == Connecting(id))
                     || EverEstablishes(Step(w, events[0]), events[1..], id))
  }

  /** The pool turns the call down. */
  predicate EverTurnedDown(w: World, events: seq<Event>, error: Pool.PoolError)
    requires Legal(w, events)
    decreases |events|
  {
    events != [] && (TurnsDown(w, events[0], error) || EverTurnedDown(Step(w, events[0]), events[1..], error))
  }

  predicate TurnsDown(w: World, e: Event, error: Pool.PoolError) {
    match error
    case PoolClosed => e == Ask && w.pool.closed
    case UnknownHost => e == Ask && !w.pool.closed && w.caller.host !in w.pool.hosts
    case OpenerFailed => e == Replace(Pool.OpenFailed(w.caller.host))
  }

  /** The call is over. */
  predicate Over(stage: Stage) {
    stage.Connected? || stage.Failed?
  }

  lemma {:induction false} OverIsFinal(w: World, events: seq<Event>)
    requires Legal(w, events) && Over(w.caller.stage)
    ensures Final(w, events).caller == w.caller && Refusals(events) == 0 && Finish(OtherError) !in events
    ensures forall id :: !EverEstablishes(w, events, id)
    ensures forall error :: !EverTurnedDown(w, events, error)
    decreases |events|
  {
    if events != [] {
      OverIsFinal(Step(w, events[0]), events[1..]);
    }
  }

  /**
    The call's end is decided by what happened to it: the number of refusals is that of the mappings closed for
    refusing, and one more while the last is being closed; it has failed unexpectedly exactly when a connection
    raised some other error, succeeded with a mapping exactly when a connection to it was established, and got
    no mapping exactly when the pool turned it down, for that reason.
  */
  lemma {:induction false} EventsDecide(w: World, events: seq<Event>)
    requires Legal(w, events) && !Over(w.caller.stage) && w.caller.attempt <= 1
    requires w.caller.stage == Holding ==> w.caller.host in w.pool.hosts
    ensures var c := Final(w, events).caller;
      && |c.refused| + (if c.stage.Dropping? then 1 else 0)
         == |w.caller.refused| + (if w.caller.stage.Dropping? then 1 else 0) + Refusals(events)
      && (c.stage == Failed(Unexpected) <==> Finish(OtherError) in events)
      && (forall id :: c.stage == Connected(id) <==> EverEstablishes(w, events, id))
      && (forall error :: c.stage == Failed(NoMapping(error)) <==> EverTurnedDown(w, events, error))
    decreases |events|
  {
    if events != [] {
      var next := Step(w, events[0]);
      if Over(next.caller.stage) {
        OverIsFinal(next, events[1..]);
      } else {
        EventsDecide(next, events[1..]);
      }
    }
  }

  predicate AllOthers(events: seq<Event>) {
    forall e :: e in events ==> e.Others?
  }

  lemma {:induction false} OthersLeaveTheCaller(w: World, events: seq<Event>)
    requires Legal(w, events) && AllOthers(events)
    ensures Final(w, events).caller == w.caller
    decreases |events|
  {
    if events != [] {
      assert events[0] in events && forall e :: e in events[1..] ==> e in events;
      OthersLeaveTheCaller(Step(w, events[0]), events[1..]);
    }
  }

  /**
    A refused connection: whatever others do meanwhile, the call's next own step is to have the mapping closed;
    the first time it then asks again, the second time it fails.
  */
  lemma RefusalIsCleanedUp(hosts: set<string>, past: seq<Pool.Action>, host: string, before: seq<Event>, id: int,
                           others: seq<Event>, own: Event)
    requires Pool.Legal(Pool.Initial(hosts), past)
    requires var w := Fresh(Pool.Final(Pool.Initial(hosts), past), host);
      && Legal(w, before) && Final(w, before).caller.stage == Connecting(id)
      && Legal(Step(Final(w, before), Finish(OsError)), others) && AllOthers(others)
      && Enabled(Final(Step(Final(w, before), Finish(OsError)), others), own) && !own.Others?
    ensures own == Dropped
    ensures var w := Fresh(Pool.Final(Pool.Initial(hosts), past), host);
      var t := Step(Final(Step(Final(w, before), Finish(OsError)), others), own);
      && id in t.pool.health && t.pool.health[id] == Pool.Closed
      && t.caller.stage == (if Refusals(before) == 0 then Asking else Failed(ConnectionRefused))
  {
    var w := Fresh(Pool.Final(Pool.Initial(hosts), past), host);
    NewestInEveryRun(Pool.Initial(hosts), past);
    RunKeeps(w, before);
    EventsDecide(w, before);
    OthersLeaveTheCaller(Step(Final(w, before), Finish(OsError)), others);
  }

  /** What the call connects to is, at that moment, the host's stored and healthy mapping. */
  lemma ConnectsToTheStored(w: World, e: Event, id: int)
    requires Inv(w) && Enabled(w, e) && !w.caller.stage.Connecting? && Step(w, e).caller.stage == Connecting(id)
    ensures var pool := Step(w, e).pool; Pool.StoredHealthy(pool, w.caller.host) && pool.mappings[w.caller.host] == id
  {
  }

  // ---------------------------------------------------------------- the call

  /** One call, suspended at its awaits; each method is what runs when one of them returns. */
  class UpstreamCall {
    const pool: Pool.LanMappingPool
    const host: string
    var attempt: nat
    var stage: Stage
    ghost var refused: seq<int>

    ghost function State(): World
      reads this, pool
    {
      World(pool.Abstract(), Caller(host, attempt, stage, refused))
    }

    constructor (pool: Pool.LanMappingPool, host: string)
      ensures this.pool == pool && this.host == host && State() == Fresh(pool.Abstract(), host)
    {
      this.pool, this.host, attempt, stage, refused := pool, host, 0, Asking, [];
    }

    /** The call to `async_get_mapping`, up to its first await under the lock. */
    method AskForMapping()
      requires Inv(State()) && Enabled(State(), Ask)
      modifies this`stage, pool`phases
      ensures Inv(State()) && State() == Step(old(State()), Ask)
    {
      StepKeeps(State(), Ask);
      var r := pool.GetMapping(host);
      stage :=
        match r
        case Err(error) => Failed(NoMapping(error))
        case Ok(None) => Holding
        case Ok(Some(id)) => Connecting(id);
    }

    /** The unhealthy mapping is closed. */
    method OldMappingClosed()
      requires Inv(State()) && Enabled(State(), Replace(Pool.OldClosed(host)))
      modifies pool`phases, pool`health
      ensures Inv(State()) && State() == Step(old(State()), Replace(Pool.OldClosed(host)))
    {
      StepKeeps(State(), Replace(Pool.OldClosed(host)));
      pool.FinishClosing(host);
    }

    /** The opener has returned. */
    method MappingOpened(id: int)
      requires Inv(State()) && Enabled(State(), Replace(Pool.Opened(host, id)))
      modifies this`stage, pool`mappings, pool`phases, pool`health, pool`owner, pool`openings
      ensures Inv(State()) && State() == Step(old(State()), Replace(Pool.Opened(host, id)))
    {
      StepKeeps(State(), Replace(Pool.Opened(host, id)));
      pool.StoreMapping(host, id);
      stage := Connecting(id);
    }

    method OpenerRaised()
      requires Inv(State()) && Enabled(State(), Replace(Pool.OpenFailed(host)))
      modifies this`stage, pool`phases
      ensures Inv(State()) && State() == Step(old(State()), Replace(Pool.OpenFailed(host)))
    {
      StepKeeps(State(), Replace(Pool.OpenFailed(host)));
      pool.AbandonOpening(host);
      stage := Failed(NoMapping(Pool.OpenerFailed));
    }

    /** `open_connection` has returned or raised. */
    method ConnectionDone(outcome: Outcome)
      requires Inv(State()) && Enabled(State(), Finish(outcome))
      modifies this`stage
      ensures Inv(State()) && State() == Step(old(State()), Finish(outcome))
    {
      match outcome
      case Established => stage := Connected(stage.id);
      case OsError => stage := Dropping(stage.id);
      case OtherError => stage := Failed(Unexpected);
    }

    /** The mapping that refused is closed; the second time the error is raised again. */
    method MappingDropped()
      requires Inv(State()) && Enabled(State(), Dropped)
      modifies this`stage, this`attempt, this`refused, pool`health
      ensures Inv(State()) && State() == Step(old(State()), Dropped)
    {
      StepKeeps(State(), Dropped);
      var id := stage.id;
      pool.CloseOne(id);
      refused := refused + [id];
      if attempt == 1 {
        stage := Failed(ConnectionRefused);
      } else {
        attempt := attempt + 1;
        stage := Asking;
      }
    }
  }
}
