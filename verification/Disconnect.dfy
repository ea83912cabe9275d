/** Who says what in the disconnect exchange, over every run of the integration and whatever its peer sends. */
module Disconnect {
  import opened Bytes
  import opened Tunnel
  import opened Mux
  import opened MuxRuns
  import opened Outbound

  // ---------------------------------------------------------------- requests

  predicate RequestFor(p: Packet, id: int) {
    p.Data? && p.frame.header.requestId == id && p.frame.header.operation == DISCONNECT_REQUEST
  }

  predicate NoRequestIn(packets: seq<Packet>, id: int) {
    forall i :: 0 <= i < |packets| ==> !RequestFor(packets[i], id)
  }

  /** The remote end has asked to disconnect, and the task is not already past its guard. */
  predicate Silenced(e: Endpoint, id: int) {
    id in e.streams ==> e.streams[id].remoteDisconnect && e.streams[id].task != Requesting
  }

  lemma SilencedStep(e: Endpoint, a: Action, id: int)
    requires e.role == Listener && Enabled(e, a) && Silenced(e, id) && !Takes(a, id)
    ensures Step(e, a).0.role == Listener && Silenced(Step(e, a).0, id) && NoRequestIn(Step(e, a).1, id)
  {
    if a.Deliver? {
      assert Step(e, a).0 == Receive(e, a.packet);
      if a.packet.Data? {
        assert Receive(e, a.packet) == Dispatch(e, a.packet.frame);
      }
    }
  }

  /** After the remote end's request no request goes out, however the local end finishes. */
  lemma {:induction false} NoRequestAfterRemote(e: Endpoint, actions: seq<Action>, id: int)
    requires e.role == Listener && Legal(e, actions) && !Reallocates(actions, id)
    requires id in e.streams && e.streams[id].remoteDisconnect && e.streams[id].task != Requesting
    ensures NoRequestIn(Output(e, actions), id)
  {
    SilencedRun(e, actions, id);
  }

  lemma {:induction false} SilencedRun(e: Endpoint, actions: seq<Action>, id: int)
    requires e.role == Listener && Legal(e, actions) && !Reallocates(actions, id) && Silenced(e, id)
    ensures NoRequestIn(Output(e, actions), id)
    decreases |actions|
  {
    if actions != [] {
      var (mid, out) := Step(e, actions[0]);
      SilencedStep(e, actions[0], id);
      SilencedRun(mid, actions[1..], id);
      var later := Output(mid, actions[1..]);
      assert forall i :: 0 <= i < |out + later| ==> (out + later)[i] == if i < |out| then out[i] else later[i - |out|];
    }
  }

  /** A camera's frame for the stream, on its ports. */
  predicate Addressed(a: Action, id: int, localPort: int, remotePort: int) {
    && a.Deliver? && a.packet.Data?
    && a.packet.frame.header.requestId == id && a.packet.frame.header.role == Connector
    && a.packet.frame.header.localPort == remotePort && a.packet.frame.header.remotePort == localPort
  }

  predicate Hears(a: Action, id: int, localPort: int, remotePort: int, operation: int) {
    && Addressed(a, id, localPort, remotePort)
    && a.packet.frame.header.operation == operation && a.packet.frame.payload == []
  }

  predicate EverHears(actions: seq<Action>, id: int, localPort: int, remotePort: int, operation: int) {
    actions != [] && (Hears(actions[0], id, localPort, remotePort, operation)
                      || EverHears(actions[1..], id, localPort, remotePort, operation))
  }

  lemma FlagStep(e: Endpoint, a: Action, id: int)
    requires e.role == Listener && Enabled(e, a) && id in e.streams && !Takes(a, id) && id in Step(e, a).0.streams
    ensures var s, t := e.streams[id], Step(e, a).0.streams[id];
      && Step(e, a).0.role == Listener && t.localPort == s.localPort && t.remotePort == s.remotePort
      && (t.remoteDisconnect <==> s.remoteDisconnect || Hears(a, id, s.localPort, s.remotePort, DISCONNECT_REQUEST))
  {
    if a.Deliver? {
      assert Step(e, a).0 == Receive(e, a.packet);
      if a.packet.Data? {
        assert Receive(e, a.packet) == Dispatch(e, a.packet.frame);
      }
    }
  }

  /** A live stream knows of a remote disconnect exactly when a request has been delivered to it. */
  lemma {:induction false} RemoteFlagIsExact(e: Endpoint, actions: seq<Action>, id: int)
    requires e.role == Listener && Legal(e, actions) && !Reallocates(actions, id)
    requires id in e.streams && id in Final(e, actions).streams
    ensures var s := e.streams[id];
      (Final(e, actions).streams[id].remoteDisconnect)
      <==> (s.remoteDisconnect || EverHears(actions, id, s.localPort, s.remotePort, DISCONNECT_REQUEST))
    decreases |actions|
  {
    if actions != [] {
      var mid := Step(e, actions[0]).0;
      if id !in mid.streams {
        StepKeepsRole(e, actions[0]);
        StaysAbsent(mid, actions[1..], id);
      } else {
        FlagStep(e, actions[0], id);
        RemoteFlagIsExact(mid, actions[1..], id);
      }
    }
  }

  /** The step ends the forwarding task: its socket has ended, or the receive loop cancels it. */
  predicate Ends(e: Endpoint, a: Action, id: int) {
    && Enabled(e, a) && id in e.streams
    && var s := e.streams[id];
       || a == LocalEof(id)
       || (a == CancelTask && e.receiver.id == id)
       || Hears(a, id, s.localPort, s.remotePort, DISCONNECT_CONFIRM)
  }

  function TheRequest(id: int, s: Stream): Packet {
    Data(TunnelFrame(TunnelHeader(id, DISCONNECT_REQUEST, Listener, s.localPort, s.remotePort, 0), []))
  }

  lemma {:induction false} DoneIsSilent(e: Endpoint, actions: seq<Action>, id: int)
    requires e.role == Listener && Legal(e, actions) && !Reallocates(actions, id)
    requires id in e.streams ==> e.streams[id].task == Done
    ensures OwnOf(Output(e, actions), id) == []
    decreases |actions|
  {
    if actions != [] {
      var (mid, out) := Step(e, actions[0]);
      DoneStep(e, actions[0], id);
      DoneIsSilent(mid, actions[1..], id);
      OwnOfStep(out, Output(mid, actions[1..]), id);
    }
  }

  lemma DoneStep(e: Endpoint, a: Action, id: int)
    requires e.role == Listener && Enabled(e, a) && !Takes(a, id) && (id in e.streams ==> e.streams[id].task == Done)
    ensures var (mid, out) := Step(e, a);
      && mid.role == Listener && (id in mid.streams ==> mid.streams[id].task == Done)
      && |out| <= 1 && (out != [] ==> !Own(out[0], id))
  {
  }

  /** A task past its guard: the request, unless it is cancelled first, and nothing else. */
  lemma {:induction false} RequestingSaysOne(e: Endpoint, actions: seq<Action>, id: int)
    requires e.role == Listener && Legal(e, actions) && !Reallocates(actions, id)
    requires id in e.streams && e.streams[id].task == Requesting
    ensures OwnOf(Output(e, actions), id) == [] || OwnOf(Output(e, actions), id) == [TheRequest(id, e.streams[id])]
    decreases |actions|
  {
    if actions != [] {
      var (mid, out) := Step(e, actions[0]);
      var later := Output(mid, actions[1..]);
      RequestingStep(e, actions[0], id);
      OwnOfStep(out, later, id);
      if id in mid.streams && mid.streams[id].task == Requesting {
        RequestingSaysOne(mid, actions[1..], id);
        assert [] + OwnOf(later, id) == OwnOf(later, id);
      } else {
        DoneIsSilent(mid, actions[1..], id);
      }
    }
  }

  lemma RequestingStep(e: Endpoint, a: Action, id: int)
    requires e.role == Listener && Enabled(e, a) && !Takes(a, id)
    requires id in e.streams && e.streams[id].task == Requesting
    ensures var (mid, out) := Step(e, a);
      && mid.role == Listener && |out| <= 1
      && (out != [] && Own(out[0], id) ==> out == [TheRequest(id, e.streams[id])])
      && (id in mid.streams ==>
            && mid.streams[id].localPort == e.streams[id].localPort && mid.streams[id].remotePort == e.streams[id].remotePort
            && (mid.streams[id].task == Requesting || mid.streams[id].task == Done)
            && (out != [] && Own(out[0], id) ==> mid.streams[id].task == Done))
  {
  }

  /**
    However a forwarding task ends, all it still writes is at most one disconnect request. It writes none when
    the remote end has asked first, when it never started, or when it is cancelled again while it waits to
    write; otherwise the request is what it does next.
  */
  lemma AfterTheEnd(e: Endpoint, a: Action, actions: seq<Action>, id: int)
    requires e.role == Listener && Ends(e, a, id) && Legal(Step(e, a).0, actions) && !Reallocates(actions, id)
    ensures var s := e.streams[id];
      var own := OwnOf(Output(Step(e, a).0, actions), id);
      && (own == [] || own == [TheRequest(id, s)])
      && if s.remoteDisconnect || s.task == Created || s.task == Requesting || s.task == Done
         then own == []
         else Enabled(Step(e, a).0, WriteRequest(id)) && Step(Step(e, a).0, WriteRequest(id)).1 == [TheRequest(id, s)]
  {
    var mid := Step(e, a).0;
    EndStep(e, a, id);
    if mid.streams[id].task == Requesting {
      RequestingSaysOne(mid, actions, id);
    } else {
      DoneIsSilent(mid, actions, id);
    }
  }

  lemma EndStep(e: Endpoint, a: Action, id: int)
    requires e.role == Listener && Ends(e, a, id)
    ensures var s, mid := e.streams[id], Step(e, a).0;
      && mid.role == Listener && !mid.closed && id in mid.streams
      && mid.streams[id].localPort == s.localPort && mid.streams[id].remotePort == s.remotePort
      && mid.streams[id].task ==
           if s.remoteDisconnect || s.task == Created || s.task == Requesting || s.task == Done then Done else Requesting
  {
    if a.Deliver? {
      assert Step(e, a).0 == Dispatch(e, a.packet.frame);
    }
  }

  // ---------------------------------------------------------------- answers

  predicate IsAnswer(p: Packet) {
    p.Data? && (p.frame.header.operation == DISCONNECT_RESPONSE || p.frame.header.operation == DISCONNECT_CONFIRM)
  }

  function AnswersOf(packets: seq<Packet>): seq<Packet> {
    if packets == [] then []
    else (if IsAnswer(packets[0]) then [packets[0]] else []) + AnswersOf(packets[1..])
  }

  /** The frame sent back: a request is answered by a response and a response by a confirmation. */
  function AnswerTo(h: TunnelHeader): Packet {
    var operation := if h.operation == DISCONNECT_REQUEST then DISCONNECT_RESPONSE else DISCONNECT_CONFIRM;
    Data(TunnelFrame(TunnelHeader(h.requestId, operation, Listener, h.remotePort, h.localPort, 0), []))
  }

  /** Requests and responses delivered to a live stream. */
  predicate Asks(e: Endpoint, a: Action) {
    && a.Deliver? && a.packet.Data?
    && var id := a.packet.frame.header.requestId;
       && id in e.streams
       && (Hears(a, id, e.streams[id].localPort, e.streams[id].remotePort, DISCONNECT_REQUEST)
           || Hears(a, id, e.streams[id].localPort, e.streams[id].remotePort, DISCONNECT_RESPONSE))
  }

  /** The answers a run should give, in the order in which they are asked for. */
  function Due(e: Endpoint, actions: seq<Action>): seq<Packet>
    requires Legal(e, actions)
    decreases |actions|
  {
    if actions == [] then []
    else (if Asks(e, actions[0]) then [AnswerTo(actions[0].packet.frame.header)] else [])
         + Due(Step(e, actions[0]).0, actions[1..])
  }

  /** What the receive loop is about to answer. */
  function Owed(e: Endpoint): seq<Packet> {
    match e.receiver
    case Responding(id) => if id in e.streams then [Control(e.role, id, e.streams[id], DISCONNECT_RESPONSE)] else []
    case Confirming(id) => if id in e.streams then [Control(e.role, id, e.streams[id], DISCONNECT_CONFIRM)] else []
    case _ => []
  }

  lemma AnswersOfStep(out: seq<Packet>, rest: seq<Packet>)
    requires |out| <= 1
    ensures AnswersOf(out + rest) == (if out != [] && IsAnswer(out[0]) then out else []) + AnswersOf(rest)
  {
    if out == [] {
      assert out + rest == rest;
    } else {
      assert (out + rest)[1..] == rest && out == [out[0]];
    }
  }

  lemma OwedStep(e: Endpoint, a: Action)
    requires e.role == Listener && WellFormed(e) && Enabled(e, a) && !a.Close?
    ensures |Step(e, a).1| <= 1
    ensures var (mid, out) := Step(e, a);
      Owed(e) + (if Asks(e, a) then [AnswerTo(a.packet.frame.header)] else [])
        == (if out != [] && IsAnswer(out[0]) then out else []) + Owed(mid)
  {
    if a.Deliver? {
      assert Step(e, a).0 == Receive(e, a.packet);
      if a.packet.Data? {
        assert Receive(e, a.packet) == Dispatch(e, a.packet.frame);
      }
    }
  }

  lemma {:induction false} AnswersOfARun(e: Endpoint, actions: seq<Action>)
    requires e.role == Listener && WellFormed(e) && Legal(e, actions) && !Final(e, actions).closed
    ensures AnswersOf(Output(e, actions)) + Owed(Final(e, actions)) == Owed(e) + Due(e, actions)
    decreases |actions|
  {
    if actions == [] {
      assert Owed(e) + [] == [] + Owed(e);
    } else {
      var (mid, out) := Step(e, actions[0]);
      if actions[0].Close? {
        ClosedIsFinal(mid, actions[1..]);
      } else {
        OwedStep(e, actions[0]);
        StepKeepsListenerTables(e, actions[0]);
        AnswersOfARun(mid, actions[1..]);
        AnswersOfStep(out, Output(mid, actions[1..]));
        Chain(Owed(e), if Asks(e, actions[0]) then [AnswerTo(actions[0].packet.frame.header)] else [],
              if out != [] && IsAnswer(out[0]) then out else [], Owed(mid), Due(mid, actions[1..]),
              AnswersOf(Output(mid, actions[1..])), Owed(Final(e, actions)));
      }
    }
  }

  lemma Chain(owed: seq<Packet>, asked: seq<Packet>, said: seq<Packet>, owing: seq<Packet>, due: seq<Packet>,
              later: seq<Packet>, last: seq<Packet>)
    requires owed + asked == said + owing && later + last == owing + due
    ensures (said + later) + last == owed + (asked + due)
  {
    assert (said + later) + last == said + (later + last);
    assert said + (owing + due) == (said + owing) + due;
    assert (owed + asked) + due == owed + (asked + due);
  }

  /**
    The receive loop's own packets answer, in order and each once, exactly the requests and responses delivered
    to live streams; at most the last answer is still to come, and none when the loop is reading again.
  */
  lemma AnswersInOrder(actions: seq<Action>)
    requires Legal(Initial(Listener), actions) && !Final(Initial(Listener), actions).closed
    ensures var said, due := AnswersOf(Output(Initial(Listener), actions)), Due(Initial(Listener), actions);
      && said <= due && |due| <= |said| + 1
      && (Final(Initial(Listener), actions).receiver == Idle ==> said == due)
  {
    AnswersOfARun(Initial(Listener), actions);
    AlmostAll(AnswersOf(Output(Initial(Listener), actions)), Owed(Final(Initial(Listener), actions)),
              Due(Initial(Listener), actions));
  }

  lemma AlmostAll(said: seq<Packet>, owed: seq<Packet>, due: seq<Packet>)
    requires said + owed == [] + due && |owed| <= 1
    ensures said <= due && |due| <= |said| + 1 && (owed == [] ==> said == due)
  {
    assert [] + due == due;
  }

  // ---------------------------------------------------------------- leaving the table

  predicate EverEnds(actions: seq<Action>, id: int, localPort: int, remotePort: int) {
    || EverHears(actions, id, localPort, remotePort, DISCONNECT_RESPONSE)
    || EverHears(actions, id, localPort, remotePort, DISCONNECT_CONFIRM)
  }

  predicate EndsNow(a: Action, id: int, localPort: int, remotePort: int) {
    || Hears(a, id, localPort, remotePort, DISCONNECT_RESPONSE)
    || Hears(a, id, localPort, remotePort, DISCONNECT_CONFIRM)
  }

  /** The receive loop is removing the stream. */
  predicate Leaving(e: Endpoint, id: int) {
    match e.receiver
    case Confirming(i) => i == id
    case Stopping(i, remove) => i == id && remove
    case Awaiting(i, remove) => i == id && remove
    case _ => false
  }

  lemma LeavingStep(e: Endpoint, a: Action, id: int)
    requires e.role == Listener && WellFormed(e) && Enabled(e, a) && !a.Close? && !Takes(a, id) && id in e.streams
    ensures var s, mid := e.streams[id], Step(e, a).0;
      && mid.role == Listener
      && (id in mid.streams ==>
            && mid.streams[id].localPort == s.localPort && mid.streams[id].remotePort == s.remotePort
            && (Leaving(mid, id) <==> Leaving(e, id) || EndsNow(a, id, s.localPort, s.remotePort)))
      && (id !in mid.streams ==>
            && Leaving(e, id) && Retires(e, a)
            && Retired(id, s.localPort, s.remotePort) == mid.retired[|mid.retired| - 1])
  {
    if a.Deliver? {
      assert Step(e, a).0 == Receive(e, a.packet);
      if a.packet.Data? {
        assert Receive(e, a.packet) == Dispatch(e, a.packet.frame);
      }
    }
  }

  lemma {:induction false} EntrySurvives(e: Endpoint, actions: seq<Action>, entry: Retired)
    requires e.role == Listener && WellFormed(e) && Legal(e, actions) && entry in e.retired
    requires Younger(e.retired, entry.id) + Retirements(e, actions) < MAX_RETIRED_STREAMS
    requires !Reallocates(actions, entry.id) && !Final(e, actions).closed
    ensures entry in Final(e, actions).retired
    decreases |actions|
  {
    if actions != [] {
      var a, rest := actions[0], actions[1..];
      var mid := Step(e, a).0;
      if a.Close? {
        ClosedIsFinal(mid, rest);
      } else {
        assert entry.id in RetiredIds(e.retired) by {
          var i :| 0 <= i < |e.retired| && e.retired[i] == entry;
        }
        TableStep(e, a, entry.id);
        StepKeepsListenerTables(e, a);
        EntryStep(e, a, entry);
        EntrySurvives(mid, rest, entry);
      }
    }
  }

  lemma EntryStep(e: Endpoint, a: Action, entry: Retired)
    requires e.role == Listener && WellFormed(e) && Enabled(e, a) && !a.Close? && !Takes(a, entry.id)
    requires entry in e.retired && entry.id in RetiredIds(Step(e, a).0.retired)
    ensures entry in Step(e, a).0.retired
  {
    if Retires(e, a) {
      var s := e.streams[e.receiver.id];
      var next := Step(e, a).0.retired;
      assert next == Retire(e.retired, Retired(e.receiver.id, s.localPort, s.remotePort));
      var i :| 0 <= i < |next| && next[i].id == entry.id;
      var k :| 0 <= k < |e.retired| && e.retired[k] == entry;
      assert entry.id in RetiredIds(e.retired);
      if |e.retired| >= MAX_RETIRED_STREAMS {
        assert i < |next| - 1 ==> next[i] == e.retired[i + 1];
        assert k == i + 1;
      } else {
        assert i < |next| - 1 ==> next[i] == e.retired[i];
        assert k == i;
      }
    }
  }

  /**
    A stream leaves the table exactly when a response or a confirmation has been delivered to it and the receive
    loop is done with it; a request alone never removes it. Its id and ports stay known through 255 further
    retirements.
  */
  lemma {:induction false} LeavesExactly(e: Endpoint, actions: seq<Action>, id: int)
    requires e.role == Listener && WellFormed(e) && Legal(e, actions) && !Final(e, actions).closed
    requires id in e.streams && !Leaving(e, id) && !Reallocates(actions, id)
    ensures var s, t := e.streams[id], Final(e, actions);
      && (id !in t.streams ==> EverEnds(actions, id, s.localPort, s.remotePort))
      && (EverEnds(actions, id, s.localPort, s.remotePort) && (t.receiver == Idle || t.receiver == Halted) ==>
            id !in t.streams)
      && (id !in t.streams && Retirements(e, actions) <= 256 ==>
            Retired(id, s.localPort, s.remotePort) in t.retired)
  {
    LeavesRun(e, actions, id);
  }

  lemma {:induction false} LeavesRun(e: Endpoint, actions: seq<Action>, id: int)
    requires e.role == Listener && WellFormed(e) && Legal(e, actions) && !Final(e, actions).closed
    requires id in e.streams && !Reallocates(actions, id)
    ensures var s, t := e.streams[id], Final(e, actions);
      && (id !in t.streams ==> Leaving(e, id) || EverEnds(actions, id, s.localPort, s.remotePort))
      && (id in t.streams ==> (Leaving(t, id) <==> Leaving(e, id) || EverEnds(actions, id, s.localPort, s.remotePort)))
      && (id !in t.streams && Retirements(e, actions) <= 256 ==>
            Retired(id, s.localPort, s.remotePort) in t.retired)
    decreases |actions|
  {
    if actions != [] {
      var a, rest, s := actions[0], actions[1..], e.streams[id];
      var mid := Step(e, a).0;
      if a.Close? {
        ClosedIsFinal(mid, rest);
      } else {
        LeavingStep(e, a, id);
        StepKeepsListenerTables(e, a);
        if id in mid.streams {
          LeavesRun(mid, rest, id);
        } else {
          var entry := Retired(id, s.localPort, s.remotePort);
          StaysAbsent(mid, rest, id);
          YoungestIsZero(mid.retired, entry);
          if Retirements(e, actions) <= 256 {
            EntrySurvives(mid, rest, entry);
          }
        }
      }
    }
  }

  lemma {:induction false} YoungestIsZero(retired: seq<Retired>, entry: Retired)
    requires DistinctIds(retired) && retired != [] && retired[|retired| - 1] == entry
    ensures Younger(retired, entry.id) == 0
  {
    if |retired| > 1 {
      assert retired[0].id != entry.id;
      YoungestIsZero(retired[1..], entry);
    }
  }
}
