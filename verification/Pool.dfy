/**
  The renewable mapping pool. One caller at a time holds a host's lock; it may be suspended while it closes an
  unhealthy mapping or opens a new one, and anything else may run meanwhile.
*/
module Pool {
  import opened Bytes

  /** `Failed` has a terminal error and is not closed yet. */
  datatype Health = Healthy | Failed | Closed

  /** Where the holder of a host's lock is suspended. */
  datatype Phase = Free | Closing(id: int) | Opening

  /** Mappings are numbered in the order in which they are opened; `owner` records the host of each. */
  datatype State = State(
    hosts: set<string>, mappings: map<string, int>, phases: map<string, Phase>,
    health: map<int, Health>, owner: map<int, string>, openings: int, closed: bool)

  datatype PoolError = PoolClosed | UnknownHost | OpenerFailed

  datatype Action =
    | Get(host: string)
    | OldClosed(host: string)
    | Opened(host: string, id: int)
    | OpenFailed(host: string)
    | Break(id: int)
    | CloseMapping(id: int)
    | ClosePool

  function Initial(hosts: set<string>): State {
    State(hosts, map[], map h | h in hosts :: Free, map[], map[], 0, false)
  }

  function PhaseOf(s: State, host: string): Phase {
    if host in s.phases then s.phases[host] else Free
  }

  predicate StoredHealthy(s: State, host: string) {
    host in s.mappings && s.mappings[host] in s.health && s.health[s.mappings[host]] == Healthy
  }

  /** Calls wait for the lock; a closed pool refuses them, also when it closed while they waited. */
  predicate Enabled(s: State, a: Action) {
    match a
    case Get(host) => !s.closed && host in s.hosts && PhaseOf(s, host) == Free
    case OldClosed(host) => host in s.hosts && PhaseOf(s, host).Closing?
    case Opened(host, id) => host in s.hosts && PhaseOf(s, host) == Opening && id == s.openings
    case OpenFailed(host) => host in s.hosts && PhaseOf(s, host) == Opening
    case Break(id) => id in s.health && s.health[id] == Healthy
    case CloseMapping(id) => id in s.health
    case ClosePool => !s.closed
  }

  function SetPhase(s: State, host: string, phase: Phase): State {
    s.(phases := s.phases[host := phase])
  }

  function SetHealth(s: State, id: int, health: Health): State {
    s.(health := s.health[id := health])
  }

  function Step(s: State, a: Action): State
    requires Enabled(s, a)
  {
    match a
    case Get(host) =>
      if StoredHealthy(s, host) then s
      else if host in s.mappings then SetPhase(s, host, Closing(s.mappings[host]))
      else SetPhase(s, host, Opening)
    case OldClosed(host) => SetPhase(SetHealth(s, PhaseOf(s, host).id, Closed), host, Opening)
    case Opened(host, id) =>
      SetPhase(SetHealth(s, id, Healthy), host, Free).(
        mappings := s.mappings[host := id], owner := s.owner[id := host], openings := id + 1)
    case OpenFailed(host) => SetPhase(s, host, Free)
    case Break(id) => SetHealth(s, id, Failed)
    case CloseMapping(id) => SetHealth(s, id, Closed)
    case ClosePool =>
      s.(closed := true, mappings := map[],
         health := map id | id in s.health :: if id in s.mappings.Values then Closed else s.health[id])
  }

  predicate Legal(s: State, actions: seq<Action>)
    decreases |actions|
  {
    actions == [] || (Enabled(s, actions[0]) && Legal(Step(s, actions[0]), actions[1..]))
  }

  function Final(s: State, actions: seq<Action>): State
    requires Legal(s, actions)
    decreases |actions|
  {
    if actions == [] then s else Final(Step(s, actions[0]), actions[1..])
  }

  // ---------------------------------------------------------------- over every interleaving

  ghost predicate Inv(s: State) {
    && s.health.Keys == s.owner.Keys
    && (forall id :: id in s.health ==> id < s.openings)
    && s.phases.Keys == s.hosts
    && (forall id :: id in s.owner ==> s.owner[id] in s.hosts)
    && (forall h :: h in s.mappings ==> s.mappings[h] in s.owner && s.owner[s.mappings[h]] == h)
    && (forall id :: id in s.health && s.health[id] != Closed ==>
          s.owner[id] in s.mappings && s.mappings[s.owner[id]] == id)
    && (forall h :: h in s.phases && s.phases[h].Closing? ==>
          && s.phases[h].id in s.owner && s.owner[s.phases[h].id] == h
          && (!s.closed ==> h in s.mappings && s.mappings[h] == s.phases[h].id)
          && (s.closed ==> h !in s.mappings))
    && (forall h, id :: h in s.phases && s.phases[h] == Opening && id in s.owner && s.owner[id] == h ==>
          s.health[id] == Closed)
  }

  lemma ClosingKeeps(s: State)
    requires Inv(s) && !s.closed
    ensures Inv(Step(s, ClosePool)) && AllClosed(Step(s, ClosePool))
  {
    var t := Step(s, ClosePool);
    forall id | id in t.health
      ensures t.health[id] == Closed
    {
      if s.health[id] != Closed {
        assert s.mappings[s.owner[id]] == id;
        assert id in s.mappings.Values;
      }
    }
  }

  lemma OpeningKeeps(s: State, host: string)
    requires Inv(s) && Enabled(s, Opened(host, s.openings))
    ensures Inv(Step(s, Opened(host, s.openings)))
  {
  }

  lemma GetKeeps(s: State, host: string)
    requires Inv(s) && Enabled(s, Get(host))
    ensures Inv(Step(s, Get(host)))
  {
    if host in s.mappings && !StoredHealthy(s, host) {
      PhaseKeeps(s, host, Closing(s.mappings[host]));
    } else if host !in s.mappings {
      PhaseKeeps(s, host, Opening);
    }
  }

  /** The holder of a host's lock moves on. */
  lemma PhaseKeeps(s: State, host: string, phase: Phase)
    requires Inv(s) && host in s.hosts
    requires phase.Closing? ==> !s.closed && host in s.mappings && s.mappings[host] == phase.id
    requires phase == Opening ==> forall id :: id in s.owner && s.owner[id] == host ==> s.health[id] == Closed
    ensures Inv(SetPhase(s, host, phase))
  {
  }

  lemma OldClosedKeeps(s: State, host: string)
    requires Inv(s) && Enabled(s, OldClosed(host))
    ensures Inv(Step(s, OldClosed(host)))
  {
    var id := PhaseOf(s, host).id;
    HealthKeeps(s, CloseMapping(id));
    PhaseKeeps(SetHealth(s, id, Closed), host, Opening);
  }

  lemma HealthKeeps(s: State, a: Action)
    requires Inv(s) && Enabled(s, a) && (a.Break? || a.CloseMapping?)
    ensures Inv(Step(s, a))
  {
  }

  lemma StepKeeps(s: State, a: Action)
    requires Inv(s) && Enabled(s, a)
    ensures Inv(Step(s, a))
  {
    match a
    case ClosePool => ClosingKeeps(s);
    case Opened(host, _) => OpeningKeeps(s, host);
    case Break(_) => HealthKeeps(s, a);
    case CloseMapping(_) => HealthKeeps(s, a);
    case Get(host) => GetKeeps(s, host);
    case OldClosed(host) => OldClosedKeeps(s, host);
    case OpenFailed(host) => PhaseKeeps(s, host, Free);
  }

  lemma {:induction false} RunKeeps(s: State, actions: seq<Action>)
    requires Inv(s) && Legal(s, actions)
    ensures Inv(Final(s, actions))
    decreases |actions|
  {
    if actions != [] {
      StepKeeps(s, actions[0]);
      RunKeeps(Step(s, actions[0]), actions[1..]);
    }
  }

  /** Every mapping ever opened for a host is closed, except the one stored for it. */
  lemma OnlyTheStoredIsOpen(hosts: set<string>, actions: seq<Action>, id: int)
    requires Legal(Initial(hosts), actions)
    requires var s := Final(Initial(hosts), actions); id in s.health && s.health[id] != Closed
    ensures var s := Final(Initial(hosts), actions);
      id in s.owner && s.owner[id] in s.mappings && s.mappings[s.owner[id]] == id
  {
    RunKeeps(Initial(hosts), actions);
  }

  /** A replacement is opened only when every earlier mapping of the host is closed. */
  lemma ClosedBeforeReplaced(hosts: set<string>, actions: seq<Action>, host: string, replacement: int, earlier: int)
    requires Legal(Initial(hosts), actions)
    requires Enabled(Final(Initial(hosts), actions), Opened(host, replacement))
    requires var s := Final(Initial(hosts), actions); earlier in s.owner && s.owner[earlier] == host
    ensures var s := Final(Initial(hosts), actions); earlier in s.health && s.health[earlier] == Closed
  {
    RunKeeps(Initial(hosts), actions);
  }

  /** Somebody closes the mapping: whoever asks for it, a caller replacing it, or the pool that stores it. */
  predicate Closes(s: State, a: Action, id: int) {
    || a == CloseMapping(id)
    || (a.OldClosed? && PhaseOf(s, a.host) == Closing(id))
    || (a.ClosePool? && id in s.mappings.Values)
  }

  predicate EverCloses(s: State, actions: seq<Action>, id: int)
    requires Legal(s, actions)
    decreases |actions|
  {
    actions != [] && (Closes(s, actions[0], id) || EverCloses(Step(s, actions[0]), actions[1..], id))
  }

  lemma CloseStep(s: State, a: Action, id: int)
    requires Inv(s) && Enabled(s, a) && id in s.health
    ensures var t := Step(s, a);
      id in t.health && (t.health[id] == Closed <==> s.health[id] == Closed || Closes(s, a, id))
  {
  }

  /** A mapping is closed exactly when somebody has closed it; failing does not close it. */
  lemma {:induction false} ClosedExactly(s: State, actions: seq<Action>, id: int)
    requires Inv(s) && Legal(s, actions) && id in s.health
    ensures id in Final(s, actions).health
    ensures Final(s, actions).health[id] == Closed <==> s.health[id] == Closed || EverCloses(s, actions, id)
    decreases |actions|
  {
    if actions != [] {
      StepKeeps(s, actions[0]);
      CloseStep(s, actions[0], id);
      ClosedExactly(Step(s, actions[0]), actions[1..], id);
    }
  }

  /** Whether a caller holds a host's lock, from what callers did: it is taken to replace a mapping, and given back. */
  function HeldAfter(held: bool, a: Action, renews: bool, host: string): bool {
    if a == Get(host) then renews
    else if (a.Opened? || a.OpenFailed?) && a.host == host then false
    else held
  }

  function Held(s: State, actions: seq<Action>, host: string, held: bool): bool
    requires Legal(s, actions)
    decreases |actions|
  {
    if actions == [] then held
    else Held(Step(s, actions[0]), actions[1..], host, HeldAfter(held, actions[0], !StoredHealthy(s, host), host))
  }

  lemma LockStep(s: State, a: Action, host: string)
    requires Inv(s) && Enabled(s, a) && host in s.hosts
    ensures host in Step(s, a).hosts
    ensures PhaseOf(Step(s, a), host) != Free
      <==> HeldAfter(PhaseOf(s, host) != Free, a, !StoredHealthy(s, host), host)
  {
  }

  /**
    A host's lock is held exactly from a call that finds no healthy mapping until the opener returns or raises;
    and whoever finds it free may call again as long as the pool is open.
  */
  lemma {:induction false} LockIsGivenBack(s: State, actions: seq<Action>, host: string)
    requires Inv(s) && Legal(s, actions) && host in s.hosts
    ensures var t, held := Final(s, actions), Held(s, actions, host, PhaseOf(s, host) != Free);
      && (PhaseOf(t, host) != Free <==> held)
      && (!held && !t.closed ==> Enabled(t, Get(host)))
      && (held ==> Enabled(t, OldClosed(host)) || Enabled(t, OpenFailed(host)))
    decreases |actions|
  {
    if actions != [] {
      StepKeeps(s, actions[0]);
      LockStep(s, actions[0], host);
      LockIsGivenBack(Step(s, actions[0]), actions[1..], host);
    }
  }

  predicate Disturbs(a: Action, id: int) {
    (a.Break? && a.id == id) || (a.CloseMapping? && a.id == id) || a.ClosePool?
  }

  /** The host has this healthy mapping, and nobody holds the host's lock. */
  predicate Serves(s: State, host: string, id: int) {
    StoredHealthy(s, host) && s.mappings[host] == id && PhaseOf(s, host) == Free
  }

  lemma ServesOn(s: State, a: Action, host: string, id: int)
    requires Inv(s) && Enabled(s, a) && Serves(s, host, id) && !Disturbs(a, id)
    ensures Serves(Step(s, a), host, id) && !(a.Opened? && a.host == host)
  {
  }

  /** As long as nothing disturbs it, a healthy mapping is what every call for its host gets. */
  lemma {:induction false} HealthyIsShared(s: State, actions: seq<Action>, host: string, id: int)
    requires Inv(s) && Legal(s, actions) && Serves(s, host, id)
    requires forall a :: a in actions ==> !Disturbs(a, id)
    ensures Serves(Final(s, actions), host, id)
    ensures forall a :: a in actions ==> !(a.Opened? && a.host == host)
    decreases |actions|
  {
    if actions != [] {
      StepKeeps(s, actions[0]);
      ServesOn(s, actions[0], host, id);
      HealthyIsShared(Step(s, actions[0]), actions[1..], host, id);
      assert forall a :: a in actions <==> a == actions[0] || a in actions[1..];
    }
  }

  // ---------------------------------------------------------------- closing the pool

  predicate AllFree(s: State) {
    forall h :: h in s.phases ==> s.phases[h] == Free
  }

  predicate AllClosed(s: State) {
    forall id :: id in s.health ==> s.health[id] == Closed
  }

  lemma {:induction false} ClosedPoolStaysQuiet(s: State, actions: seq<Action>)
    requires Inv(s) && s.closed && AllFree(s) && AllClosed(s) && Legal(s, actions)
    ensures AllClosed(Final(s, actions))
    decreases |actions|
  {
    if actions != [] {
      StepKeeps(s, actions[0]);
      ClosedPoolStaysQuiet(Step(s, actions[0]), actions[1..]);
    }
  }

  /**
    Closing the pool closes everything it holds at that moment. Nothing is open afterwards, in any
    continuation, exactly when no caller was between taking a lock and storing its mapping: such a caller
    stores and returns an open mapping of a closed pool.
  */
  lemma CloseIsFinalIffIdle(hosts: set<string>, actions: seq<Action>)
    requires Legal(Initial(hosts), actions) && !Final(Initial(hosts), actions).closed
    ensures var s := Step(Final(Initial(hosts), actions), ClosePool);
      && AllClosed(s)
      && (AllFree(s) <==> forall more :: Legal(s, more) ==> AllClosed(Final(s, more)))
  {
    RunKeeps(Initial(hosts), actions);
    var before := Final(Initial(hosts), actions);
    var s := Step(before, ClosePool);
    ClosingKeeps(before);
    if AllFree(s) {
      forall more | Legal(s, more)
        ensures AllClosed(Final(s, more))
      {
        ClosedPoolStaysQuiet(s, more);
      }
    } else {
      var host :| host in s.phases && s.phases[host] != Free;
      LateOpener(s, host);
    }
  }

  /** The suspended caller of a closed pool finishes and leaves its new mapping open. */
  lemma LateOpener(s: State, host: string)
    requires Inv(s) && s.closed && host in s.phases && s.phases[host] != Free
    ensures exists more :: Legal(s, more) && !AllClosed(Final(s, more))
  {
    var last := Opened(host, s.openings);
    if s.phases[host] == Opening {
      OneMore(s, last);
      OpenerLeaks(s, host);
    } else {
      var mid := Step(s, OldClosed(host));
      OneMore(mid, last);
      OpenerLeaks(mid, host);
      var more := [OldClosed(host), last];
      assert more[1..] == [last];
      assert Legal(s, more) && Final(s, more) == Step(mid, last);
    }
  }

  lemma OneMore(s: State, a: Action)
    requires Enabled(s, a)
    ensures Legal(s, [a]) && Final(s, [a]) == Step(s, a)
  {
    assert [a][1..] == [];
  }

  lemma OpenerLeaks(s: State, host: string)
    requires Enabled(s, Opened(host, s.openings))
    ensures !AllClosed(Step(s, Opened(host, s.openings)))
  {
    assert Step(s, Opened(host, s.openings)).health[s.openings] == Healthy;
  }

  // ---------------------------------------------------------------- the pool object

  class LanMappingPool {
    const hosts: set<string>
    var mappings: map<string, int>
    var phases: map<string, Phase>
    var health: map<int, Health>
    var owner: map<int, string>
    var openings: int
    var closed: bool

    ghost function Abstract(): State
      reads this
    {
      State(hosts, mappings, phases, health, owner, openings, closed)
    }

    constructor (hosts: set<string>)
      ensures Abstract() == Initial(hosts)
    {
      this.hosts := hosts;
      mappings, health, owner, openings, closed := map[], map[], map[], 0, false;
      phases := map h | h in hosts :: Free;
    }

    /** A call up to its first await under the lock: it returns a healthy mapping or starts a replacement. */
    method GetMapping(host: string) returns (r: Result<Option<int>, PoolError>)
      requires Inv(Abstract())
      requires !closed && host in hosts ==> PhaseOf(Abstract(), host) == Free
      modifies this`phases
      ensures Inv(Abstract())
      ensures old(closed) ==> r == Err(PoolClosed) && Abstract() == old(Abstract())
      ensures !old(closed) && host !in hosts ==> r == Err(UnknownHost) && Abstract() == old(Abstract())
      ensures r.Ok? <==> !closed && host in hosts
      ensures r.Ok? ==> Enabled(old(Abstract()), Get(host)) && Abstract() == Step(old(Abstract()), Get(host))
      ensures r.Ok? ==> r.value == if StoredHealthy(Abstract(), host) then Some(mappings[host]) else None
    {
      if closed {
        return Err(PoolClosed);
      }
      if host !in hosts {
        return Err(UnknownHost);
      }
      if host in mappings && health[mappings[host]] == Healthy {
        return Ok(Some(mappings[host]));
      }
      StepKeeps(Abstract(), Get(host));
      if host in mappings {
        phases := phases[host := Closing(mappings[host])];
      } else {
        phases := phases[host := Opening];
      }
      return Ok(None);
    }

    /** The unhealthy mapping is closed; the caller goes on to open another. */
    method FinishClosing(host: string)
      requires Inv(Abstract()) && Enabled(Abstract(), OldClosed(host))
      modifies this`phases, this`health
      ensures Inv(Abstract()) && Abstract() == Step(old(Abstract()), OldClosed(host))
    {
      StepKeeps(Abstract(), OldClosed(host));
      health := health[phases[host].id := Closed];
      phases := phases[host := Opening];
    }

    /** The opener returned: its mapping is stored, in a closed pool as well. */
    method StoreMapping(host: string, id: int)
      requires Inv(Abstract()) && Enabled(Abstract(), Opened(host, id))
      modifies this`mappings, this`phases, this`health, this`owner, this`openings
      ensures Inv(Abstract()) && Abstract() == Step(old(Abstract()), Opened(host, id))
    {
      StepKeeps(Abstract(), Opened(host, id));
      health, owner, openings := health[id := Healthy], owner[id := host], id + 1;
      mappings := mappings[host := id];
      phases := phases[host := Free];
    }

    method AbandonOpening(host: string)
      requires Inv(Abstract()) && Enabled(Abstract(), OpenFailed(host))
      modifies this`phases
      ensures Inv(Abstract()) && Abstract() == Step(old(Abstract()), OpenFailed(host))
    {
      StepKeeps(Abstract(), OpenFailed(host));
      phases := phases[host := Free];
    }

    /** Closing one mapping, whoever asks for it. */
    method CloseOne(id: int)
      requires Inv(Abstract()) && id in health
      modifies this`health
      ensures Inv(Abstract()) && Abstract() == Step(old(Abstract()), CloseMapping(id))
    {
      StepKeeps(Abstract(), CloseMapping(id));
      health := health[id := Closed];
    }

    method ClosePool()
      requires Inv(Abstract())
      modifies this`mappings, this`health, this`closed
      ensures Inv(Abstract()) && closed
      ensures !old(closed) ==> Abstract() == Step(old(Abstract()), Action.ClosePool)
      ensures old(closed) ==> Abstract() == old(Abstract())
    {
      if closed {
        return;
      }
      StepKeeps(Abstract(), Action.ClosePool);
      closed := true;
      var stored := mappings.Values;
      mappings := map[];
      health := map id | id in health :: if id in stored then Closed else health[id];
    }
  }
}
