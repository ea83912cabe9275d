/** What one endpoint guarantees over whole runs, whatever its peer sends. */
module MuxRuns {
  import opened Bytes
  import opened Tunnel
  import opened Mux

  // ---------------------------------------------------------------- runs

  lemma RunCons(e: Endpoint, a: Action, rest: seq<Action>)
    requires Enabled(e, a) && Legal(Step(e, a).0, rest)
    ensures Legal(e, [a] + rest)
    ensures Final(e, [a] + rest) == Final(Step(e, a).0, rest)
    ensures Output(e, [a] + rest) == Step(e, a).1 + Output(Step(e, a).0, rest)
  {
    assert ([a] + rest)[0] == a && ([a] + rest)[1..] == rest;
  }

  /** One step more at the end of a run. */
  lemma {:induction false} RunSnoc(e: Endpoint, actions: seq<Action>, a: Action)
    requires Legal(e, actions) && Enabled(Final(e, actions), a)
    ensures Legal(e, actions + [a])
    ensures Final(e, actions + [a]) == Step(Final(e, actions), a).0
    ensures Output(e, actions + [a]) == Output(e, actions) + Step(Final(e, actions), a).1
    decreases |actions|
  {
    if actions == [] {
      RunCons(e, a, []);
      assert actions + [a] == [a] + [];
    } else {
      var first, rest := actions[0], actions[1..];
      var mid := Step(e, first).0;
      RunSnoc(mid, rest, a);
      RunCons(e, first, rest);
      RunCons(e, first, rest + [a]);
      assert actions == [first] + rest && actions + [a] == [first] + (rest + [a]);
      Regroup(Step(e, first).1, Output(mid, rest), Step(Final(mid, rest), a).1);
    }
  }

  lemma Regroup(x: seq<Packet>, y: seq<Packet>, z: seq<Packet>)
    ensures (x + y) + z == x + (y + z)
  {
  }

  lemma {:induction false} RunKeepsRole(e: Endpoint, actions: seq<Action>)
    requires Legal(e, actions)
    ensures Final(e, actions).role == e.role
    decreases |actions|
  {
    if actions != [] {
      StepKeepsRole(e, actions[0]);
      RunKeepsRole(Step(e, actions[0]).0, actions[1..]);
    }
  }

  lemma StepKeepsRole(e: Endpoint, a: Action)
    requires Enabled(e, a)
    ensures Step(e, a).0.role == e.role
  {
  }

  // ---------------------------------------------------------------- request ids

  /** The first k ids from the counter on are in use. */
  ghost predicate AllActive(streams: map<int, Stream>, next: int, k: int) {
    forall j :: 0 <= j < k ==> CyclicId(next, j) in streams
  }

  lemma FirstFreeAt(streams: map<int, Stream>, next: int, k: nat)
    requires k < REQUEST_ID_LIMIT && AllActive(streams, next, k) && CyclicId(next, k) !in streams
    ensures FirstFree(streams, next, CyclicId(next, k))
  {
    OffsetOfCyclic(next, k);
  }

  lemma FullCircle(streams: map<int, Stream>, next: int)
    requires AllActive(streams, next, REQUEST_ID_LIMIT)
    ensures forall id :: 0 <= id < REQUEST_ID_LIMIT ==> id in streams
  {
    forall id | 0 <= id < REQUEST_ID_LIMIT
      ensures id in streams
    {
      CyclicOffset(next, id);
      assert CyclicId(next, (id - next) % REQUEST_ID_LIMIT) in streams;
    }
  }

  lemma CyclicOffset(next: int, id: int)
    requires 0 <= id < REQUEST_ID_LIMIT
    ensures CyclicId(next, (id - next) % REQUEST_ID_LIMIT) == id
  {
    var q := (id - next) / REQUEST_ID_LIMIT;
    assert next + (id - next) % REQUEST_ID_LIMIT == id - REQUEST_ID_LIMIT * q;
  }

  lemma OffsetOfCyclic(next: int, j: nat)
    requires j < REQUEST_ID_LIMIT
    ensures (CyclicId(next, j) - next) % REQUEST_ID_LIMIT == j
  {
    var q := (next + j) / REQUEST_ID_LIMIT;
    assert CyclicId(next, j) - next == j - REQUEST_ID_LIMIT * q;
  }

  /** A block of consecutive cyclic ids, all active, is no larger than the table. */
  lemma {:induction false} ActiveBlock(streams: map<int, Stream>, next: int, k: nat)
    requires k <= REQUEST_ID_LIMIT
    requires forall j :: 0 <= j < k ==> CyclicId(next, j) in streams
    ensures k <= |streams|
    decreases k
  {
    if k > 0 {
      var last := CyclicId(next, k - 1);
      var fewer := map id | id in streams && id != last :: streams[id];
      assert fewer.Keys == streams.Keys - {last};
      forall j | 0 <= j < k - 1
        ensures CyclicId(next, j) in fewer
      {
        OffsetOfCyclic(next, j);
        OffsetOfCyclic(next, k - 1);
      }
      ActiveBlock(fewer, next, k - 1);
      assert |fewer.Keys| == |streams.Keys| - 1;
    }
  }

  /** The scan looks at no more than one id beyond the active ones, and finds a unique answer. */
  lemma FirstFreeIsNear(streams: map<int, Stream>, next: int, id: int)
    requires FirstFree(streams, next, id)
    ensures (id - next) % REQUEST_ID_LIMIT <= |streams|
    ensures forall other :: FirstFree(streams, next, other) ==> other == id
  {
    ActiveBlock(streams, next, (id - next) % REQUEST_ID_LIMIT);
    CyclicOffset(next, id);
    forall other | FirstFree(streams, next, other)
      ensures other == id
    {
      CyclicOffset(next, other);
    }
  }

  /** Only a full id space leaves nothing to allocate. */
  lemma ExhaustionNeedsAllIds(streams: map<int, Stream>, next: int)
    requires forall id :: 0 <= id < REQUEST_ID_LIMIT ==> id in streams
    ensures |streams| >= REQUEST_ID_LIMIT
  {
    ActiveBlock(streams, next, REQUEST_ID_LIMIT);
  }

  // ---------------------------------------------------------------- retired ids

  /** Entries newer than the id's own. */
  function Younger(retired: seq<Retired>, id: int): nat {
    if retired == [] then 0
    else if retired[0].id == id then |retired| - 1
    else Younger(retired[1..], id)
  }

  lemma {:induction false} YoungerAfterDrop(retired: seq<Retired>, dropped: int, id: int)
    requires id != dropped && id in RetiredIds(retired)
    ensures id in RetiredIds(DropRetired(retired, dropped))
    ensures Younger(DropRetired(retired, dropped), id) <= Younger(retired, id)
  {
    if retired[0].id == id {
      var rest := DropRetired(retired[1..], dropped);
      assert ([retired[0]] + rest)[0].id == id;
    } else {
      var i :| 0 <= i < |retired| && retired[i].id == id;
      assert retired[1..][i - 1].id == id;
      YoungerAfterDrop(retired[1..], dropped, id);
      var rest := DropRetired(retired[1..], dropped);
      if retired[0].id != dropped {
        var k :| 0 <= k < |rest| && rest[k].id == id;
        assert ([retired[0]] + rest)[k + 1].id == id;
        assert ([retired[0]] + rest)[1..] == rest;
      }
    }
  }

  lemma {:induction false} YoungerAfterAppend(retired: seq<Retired>, entry: Retired, id: int)
    requires id in RetiredIds(retired)
    ensures id in RetiredIds(retired + [entry])
    ensures Younger(retired + [entry], id) == Younger(retired, id) + 1
  {
    var i :| 0 <= i < |retired| && retired[i].id == id;
    assert (retired + [entry])[i].id == id;
    if retired[0].id != id {
      assert retired[1..][i - 1].id == id;
      YoungerAfterAppend(retired[1..], entry, id);
      assert (retired + [entry])[1..] == retired[1..] + [entry];
    }
  }

  /** One retirement ages an entry by one and evicts it only when it is the oldest of a full table. */
  lemma YoungerAfterRetire(retired: seq<Retired>, entry: Retired, id: int)
    requires id in RetiredIds(retired) && Younger(retired, id) < MAX_RETIRED_STREAMS - 1
    requires |retired| <= MAX_RETIRED_STREAMS
    ensures id in RetiredIds(Retire(retired, entry))
    ensures Younger(Retire(retired, entry), id) == Younger(retired, id) + 1
  {
    var i :| 0 <= i < |retired| && retired[i].id == id;
    if |retired| >= MAX_RETIRED_STREAMS {
      assert retired[0].id != id;
      assert retired[1..][i - 1].id == id;
      YoungerAfterAppend(retired[1..], entry, id);
    } else {
      YoungerAfterAppend(retired, entry, id);
    }
  }

  predicate Retires(e: Endpoint, a: Action) {
    a.FinishStop? && e.receiver.Awaiting? && e.receiver.remove
  }

  function Retirements(e: Endpoint, actions: seq<Action>): nat
    requires Legal(e, actions)
    decreases |actions|
  {
    if actions == [] then 0
    else (if Retires(e, actions[0]) then 1 else 0) + Retirements(Step(e, actions[0]).0, actions[1..])
  }

  /** The id is allocated to another client. */
  predicate Takes(a: Action, id: int) {
    (a.Accept? || a.Spend?) && a.id == id
  }

  predicate Reallocates(actions: seq<Action>, id: int) {
    actions != [] && (Takes(actions[0], id) || Reallocates(actions[1..], id))
  }

  predicate TakesNone(actions: seq<Action>) {
    forall a :: a in actions ==> !a.Accept? && !a.Spend?
  }

  lemma {:induction false} CounterStays(e: Endpoint, actions: seq<Action>)
    requires Legal(e, actions) && TakesNone(actions)
    ensures Final(e, actions).nextRequestId == e.nextRequestId
    decreases |actions|
  {
    if actions != [] {
      CounterStep(e, actions[0]);
      CounterStays(Step(e, actions[0]).0, actions[1..]);
    }
  }

  lemma CounterStep(e: Endpoint, a: Action)
    requires Enabled(e, a) && !a.Accept? && !a.Spend?
    ensures Step(e, a).0.nextRequestId == e.nextRequestId
  {
  }

  /**
    Ids are handed out in turn: the next one taken is the first inactive id after the last one taken, so an id
    that has just been given up is not taken again while any other id is inactive.
  */
  lemma NextIdMovesOn(e: Endpoint, a: Action, id: int, actions: seq<Action>, b: Action, other: int)
    requires Enabled(e, a) && Takes(a, id) && Legal(Step(e, a).0, actions) && TakesNone(actions)
    requires Enabled(Final(Step(e, a).0, actions), b) && Takes(b, other)
    ensures var streams := Final(Step(e, a).0, actions).streams;
      && FirstFree(streams, (id + 1) % REQUEST_ID_LIMIT, other)
      && (other == id ==> forall k :: ValidRequestId(k) && k != id ==> k in streams)
  {
    CounterStays(Step(e, a).0, actions);
    var streams, next := Final(Step(e, a).0, actions).streams, (id + 1) % REQUEST_ID_LIMIT;
    if other == id {
      forall k | ValidRequestId(k) && k != id ensures k in streams {
        CyclicOffset(next, k);
        assert (k - next) % REQUEST_ID_LIMIT < (id - next) % REQUEST_ID_LIMIT;
      }
    }
  }

  /** A retired id that is not reallocated stays known through 255 later retirements, counted with its age. */
  lemma {:induction false} RetiredSurvives(e: Endpoint, actions: seq<Action>, id: int)
    requires e.role == Listener && WellFormed(e) && Legal(e, actions)
    requires id in RetiredIds(e.retired)
    requires Younger(e.retired, id) + Retirements(e, actions) < 256
    requires !Reallocates(actions, id) && !Final(e, actions).closed
    ensures id in RetiredIds(Final(e, actions).retired)
    ensures Younger(Final(e, actions).retired, id) <= Younger(e.retired, id) + Retirements(e, actions)
    decreases |actions|
  {
    if actions != [] {
      var a, rest := actions[0], actions[1..];
      var mid := Step(e, a).0;
      if a.Close? {
        ClosedIsFinal(mid, rest);
      } else {
        TableStep(e, a, id);
        StepKeepsListenerTables(e, a);
        RetiredSurvives(mid, rest, id);
      }
    }
  }

  lemma TableStep(e: Endpoint, a: Action, id: int)
    requires e.role == Listener && WellFormed(e) && Enabled(e, a) && !a.Close?
    requires id in RetiredIds(e.retired) && !Takes(a, id)
    requires Retires(e, a) ==> Younger(e.retired, id) < MAX_RETIRED_STREAMS - 1
    ensures var after := Step(e, a).0.retired;
      && id in RetiredIds(after)
      && Younger(after, id) <= Younger(e.retired, id) + (if Retires(e, a) then 1 else 0)
  {
    match a
    case Accept(other, _, _) => YoungerAfterDrop(e.retired, other, id);
    case Spend(other) => YoungerAfterDrop(e.retired, other, id);
    case FinishStop =>
      if e.receiver.remove {
        var s := e.streams[e.receiver.id];
        YoungerAfterRetire(e.retired, Retired(e.receiver.id, s.localPort, s.remotePort), id);
      }
    case _ =>
  }

  lemma StepKeepsListenerTables(e: Endpoint, a: Action)
    requires e.role == Listener && WellFormed(e) && Enabled(e, a)
    ensures WellFormed(Step(e, a).0) && Step(e, a).0.role == Listener
  {
    if a.Deliver? && a.packet.Announce? {
    } else {
      StepKeepsTables(e, a);
    }
  }

  lemma ClosedIsFinal(e: Endpoint, actions: seq<Action>)
    requires e.closed && Legal(e, actions)
    ensures Final(e, actions).closed && actions == []
  {
  }

  /** Every reachable open state: active and retired ids disjoint, at most 256 retired. */
  lemma {:induction false} TablesInEveryRun(e: Endpoint, actions: seq<Action>)
    requires e.role == Listener && WellFormed(e) && Legal(e, actions)
    ensures WellFormed(Final(e, actions)) && |Final(e, actions).retired| <= 256
    decreases |actions|
  {
    if actions != [] {
      StepKeepsListenerTables(e, actions[0]);
      TablesInEveryRun(Step(e, actions[0]).0, actions[1..]);
    }
  }

  // ---------------------------------------------------------------- inbound bytes

  /** Data frames for a stream: its id, the camera's role, the mirrored ports. */
  predicate MeantFor(p: Packet, id: int, localPort: int, remotePort: int) {
    && p.Data? && p.frame.header.requestId == id && p.frame.header.operation >= 0
    && Routed(Listener, localPort, remotePort, p.frame.header)
  }

  function Meant(actions: seq<Action>, id: int, localPort: int, remotePort: int): seq<TunnelFrame> {
    if actions == [] then []
    else (if actions[0].Deliver? && MeantFor(actions[0].packet, id, localPort, remotePort)
          then [actions[0].packet.frame] else [])
         + Meant(actions[1..], id, localPort, remotePort)
  }

  /** A received packet changes at most one socket: that of an accepted data frame's own stream. */
  lemma OtherSocketsUntouched(e: Endpoint, p: Packet)
    requires e.role == Listener
    ensures Receive(e, p).streams.Keys == e.streams.Keys
    ensures forall id :: id in e.streams ==>
      var s, t := e.streams[id], Receive(e, p).streams[id];
      if MeantFor(p, id, s.localPort, s.remotePort) && p.frame.header.operation == s.receiveSequence
      then t.sink == s.sink + p.frame.payload && t.receiveSequence == s.receiveSequence + 1
      else t.sink == s.sink && t.receiveSequence == s.receiveSequence
  {
  }

  lemma {:induction false} HaltedReceivesNothing(e: Endpoint, actions: seq<Action>, id: int, localPort: int, remotePort: int)
    requires e.receiver == Halted && Legal(e, actions)
    ensures Meant(actions, id, localPort, remotePort) == []
    ensures Final(e, actions).receiver == Halted
    decreases |actions|
  {
    if actions != [] {
      HaltedReceivesNothing(Step(e, actions[0]).0, actions[1..], id, localPort, remotePort);
    }
  }

  lemma {:induction false} StaysAbsent(e: Endpoint, actions: seq<Action>, id: int)
    requires e.role == Listener && Legal(e, actions) && id !in e.streams && !Reallocates(actions, id)
    ensures id !in Final(e, actions).streams
    decreases |actions|
  {
    if actions != [] {
      StaysAbsent(Step(e, actions[0]).0, actions[1..], id);
    }
  }

  /** The payloads of the first n frames, in order. */
  function FirstPayloads(frames: seq<TunnelFrame>, n: nat): seq<byte>
    requires n <= |frames|
  {
    if n == 0 then [] else frames[0].payload + FirstPayloads(frames[1..], n - 1)
  }

  /** Accepted frames are numbered consecutively; only a frame that stops the receive loop is left out. */
  ghost predicate InboundExact(s: Stream, t: Stream, frames: seq<TunnelFrame>, halted: bool) {
    var n := t.receiveSequence - s.receiveSequence;
    && 0 <= n <= |frames| <= n + 1
    && (n < |frames| ==> halted)
    && (forall k :: 0 <= k < n ==> frames[k].header.operation == s.receiveSequence + k)
    && t.sink == s.sink + FirstPayloads(frames, n)
  }

  /**
    Inbound isolation and order, for any frames whatever: while a stream lives, its socket has received
    exactly the payloads of the frames meant for it, in order and without gaps.
  */
  lemma {:induction false} InboundIsExact(e: Endpoint, actions: seq<Action>, id: int)
    requires e.role == Listener && Legal(e, actions) && id in e.streams
    requires !Reallocates(actions, id) && id in Final(e, actions).streams
    ensures var s, t := e.streams[id], Final(e, actions).streams[id];
      && t.localPort == s.localPort && t.remotePort == s.remotePort
      && InboundExact(s, t, Meant(actions, id, s.localPort, s.remotePort), Final(e, actions).receiver == Halted)
    decreases |actions|
  {
    if actions != [] {
      var a, rest := actions[0], actions[1..];
      var mid := Step(e, a).0;
      var s := e.streams[id];
      if id !in mid.streams {
        StaysAbsent(mid, rest, id);
      } else {
        InboundStep(e, a, id);
        InboundIsExact(mid, rest, id);
        if mid.receiver == Halted {
          HaltedReceivesNothing(mid, rest, id, s.localPort, s.remotePort);
        }
        InboundThen(s, a, mid.streams[id], Final(mid, rest).streams[id], id,
          Meant(rest, id, s.localPort, s.remotePort), mid.receiver == Halted, Final(mid, rest).receiver == Halted);
      }
    }
  }

  /** What one step does to one stream's socket; `halted` says whether it stopped the receive loop. */
  predicate InboundEffect(s: Stream, a: Action, m: Stream, id: int, halted: bool) {
    && m.localPort == s.localPort && m.remotePort == s.remotePort
    && if a.Deliver? && MeantFor(a.packet, id, s.localPort, s.remotePort) then
         if a.packet.frame.header.operation == s.receiveSequence
         then m.receiveSequence == s.receiveSequence + 1 && m.sink == s.sink + a.packet.frame.payload
         else m.receiveSequence == s.receiveSequence && m.sink == s.sink && halted
       else m.receiveSequence == s.receiveSequence && m.sink == s.sink
  }

  lemma InboundStep(e: Endpoint, a: Action, id: int)
    requires e.role == Listener && Enabled(e, a) && id in e.streams && !(a.Accept? && a.id == id)
    requires id in Step(e, a).0.streams
    ensures Step(e, a).0.role == Listener
    ensures InboundEffect(e.streams[id], a, Step(e, a).0.streams[id], id, Step(e, a).0.receiver == Halted)
  {
    if a.Deliver? {
      assert Step(e, a).0 == Receive(e, a.packet);
      OtherSocketsUntouched(e, a.packet);
      if MeantFor(a.packet, id, e.streams[id].localPort, e.streams[id].remotePort) {
        assert Receive(e, a.packet) == Dispatch(e, a.packet.frame);
      }
    }
  }

  lemma InboundThen(s: Stream, a: Action, m: Stream, t: Stream, id: int, later: seq<TunnelFrame>, stopped: bool, halted: bool)
    requires InboundEffect(s, a, m, id, stopped) && InboundExact(m, t, later, halted)
    requires stopped ==> later == [] && halted
    ensures InboundExact(s, t,
      (if a.Deliver? && MeantFor(a.packet, id, s.localPort, s.remotePort) then [a.packet.frame] else []) + later, halted)
  {
    if a.Deliver? && MeantFor(a.packet, id, s.localPort, s.remotePort) {
      if a.packet.frame.header.operation == s.receiveSequence {
        InboundCons(s, m, t, a.packet.frame, later, halted);
      } else {
        assert FirstPayloads([a.packet.frame] + later, 0) == FirstPayloads(later, 0);
      }
    } else {
      assert [] + later == later;
    }
  }

  lemma InboundCons(s: Stream, m: Stream, t: Stream, frame: TunnelFrame, later: seq<TunnelFrame>, halted: bool)
    requires frame.header.operation == s.receiveSequence
    requires m.receiveSequence == s.receiveSequence + 1 && m.sink == s.sink + frame.payload
    requires InboundExact(m, t, later, halted)
    ensures InboundExact(s, t, [frame] + later, halted)
  {
    var n := t.receiveSequence - m.receiveSequence;
    var all := [frame] + later;
    assert all[1..] == later;
    assert FirstPayloads(all, n + 1) == frame.payload + FirstPayloads(later, n);
    forall k | 0 <= k < n + 1
      ensures all[k].header.operation == s.receiveSequence + k
    {
      if k > 0 {
        assert all[k] == later[k - 1];
      }
    }
  }
}
