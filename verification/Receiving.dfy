/** When the integration's receive loop and its keepalive loop give up, over every run. */
module Receiving {
  import opened Bytes
  import opened Tunnel
  import opened Mux
  import opened MuxRuns

  // ---------------------------------------------------------------- the receive loop

  /** The ports of an id that is in use or still remembered. */
  predicate Knows(e: Endpoint, id: int, localPort: int, remotePort: int) {
    if id in e.streams then e.streams[id].localPort == localPort && e.streams[id].remotePort == remotePort
    else Retired(id, localPort, remotePort) in e.retired
  }

  predicate KnownControl(operation: int) {
    operation in {DISCONNECT_REQUEST, DISCONNECT_RESPONSE, DISCONNECT_CONFIRM}
  }

  /**
    What the receive loop takes without an error: empty keepalives, and camera frames for an id it knows, on
    that id's ports, controls without payload; data for a stream in use must carry the next number.
  */
  ghost predicate Acceptable(e: Endpoint, p: Packet) {
    match p
    case Keepalive(payload) => payload == []
    case Announce(_) => false
    case Data(frame) =>
      var h := frame.header;
      && h.role == Connector
      && Knows(e, h.requestId, h.remotePort, h.localPort)
      && (h.operation < 0 ==> frame.payload == [])
      && (h.requestId in e.streams ==>
            if h.operation >= 0 then h.operation == e.streams[h.requestId].receiveSequence else KnownControl(h.operation))
  }

  lemma {:induction false} FindIsMember(retired: seq<Retired>, entry: Retired)
    requires DistinctIds(retired)
    ensures FindRetired(retired, entry.id) == Some(entry) <==> entry in retired
  {
    if retired != [] && retired[0].id != entry.id {
      FindIsMember(retired[1..], entry);
    }
    if entry in retired && retired[0].id == entry.id {
      var i :| 0 <= i < |retired| && retired[i] == entry;
      assert i == 0;
    }
  }

  lemma StopsAtOnce(e: Endpoint, p: Packet)
    requires e.role == Listener && WellFormed(e) && e.receiver == Idle
    ensures Receive(e, p).receiver == Halted <==> !Acceptable(e, p)
    ensures Receive(e, p).failure.Some? <==> e.failure.Some? || !Acceptable(e, p)
    ensures e.failure.Some? ==> Receive(e, p).failure == e.failure
  {
    match p
    case Data(frame) =>
      var h := frame.header;
      FindIsMember(e.retired, Retired(h.requestId, h.remotePort, h.localPort));
      assert Receive(e, p) == Dispatch(e, frame);
    case _ =>
  }

  /** Which error goes with which packet; the cases exclude each other. */
  predicate Reason(e: Endpoint, p: Packet, failure: Failure) {
    match p
    case Keepalive(_) => failure == KeepalivePayload
    case Announce(_) => failure == UnexpectedCommand
    case Data(frame) =>
      var h := frame.header;
      if h.requestId !in e.streams then failure == UnknownRequest
      else if !(h.role == Connector && Knows(e, h.requestId, h.remotePort, h.localPort)) then failure == MappingMismatch
      else if h.operation >= 0 then failure == SequenceGap
      else if frame.payload != [] then failure == PayloadInControl
      else failure == BadControl
  }

  lemma StopsForAReason(e: Endpoint, p: Packet)
    requires e.role == Listener && WellFormed(e) && e.receiver == Idle && e.failure.None? && !Acceptable(e, p)
    ensures Receive(e, p).failure.Some? && Reason(e, p, Receive(e, p).failure.value)
  {
    StopsAtOnce(e, p);
    if p.Data? {
      assert Receive(e, p) == Dispatch(e, p.frame);
    }
  }

  /** The loops' errors: a packet that is not acceptable, or a sixth keepalive in a row without an answer. */
  ghost predicate Fails(e: Endpoint, a: Action) {
    (a.Deliver? && !Acceptable(e, a.packet)) || (a.CountKeepalive? && e.missedKeepalives >= 5)
  }

  lemma FailureStep(e: Endpoint, a: Action)
    requires e.role == Listener && WellFormed(e) && Enabled(e, a)
    ensures var t := Step(e, a).0;
      && (t.receiver == Halted <==> e.receiver == Halted || (a.Deliver? && !Acceptable(e, a.packet)))
      && (t.failure.Some? <==> e.failure.Some? || Fails(e, a))
      && (e.failure.Some? ==> t.failure == e.failure)
  {
    if a.Deliver? {
      StopsAtOnce(e, a.packet);
    }
  }

  ghost predicate EverStops(e: Endpoint, actions: seq<Action>)
    requires Legal(e, actions)
    decreases |actions|
  {
    actions != [] && ((actions[0].Deliver? && !Acceptable(e, actions[0].packet))
                      || EverStops(Step(e, actions[0]).0, actions[1..]))
  }

  ghost predicate EverFails(e: Endpoint, actions: seq<Action>)
    requires Legal(e, actions)
    decreases |actions|
  {
    actions != [] && (Fails(e, actions[0]) || EverFails(Step(e, actions[0]).0, actions[1..]))
  }

  /**
    In every run the receive loop has stopped exactly when some delivered packet was not acceptable at its time,
    an error is recorded exactly when a loop has failed, and the first error recorded stays.
  */
  lemma {:induction false} StopsExactly(e: Endpoint, actions: seq<Action>)
    requires e.role == Listener && WellFormed(e) && Legal(e, actions)
    ensures Final(e, actions).receiver == Halted <==> e.receiver == Halted || EverStops(e, actions)
    ensures Final(e, actions).failure.Some? <==> e.failure.Some? || EverFails(e, actions)
    ensures e.failure.Some? ==> Final(e, actions).failure == e.failure
    decreases |actions|
  {
    if actions != [] {
      FailureStep(e, actions[0]);
      StepKeepsListenerTables(e, actions[0]);
      StopsExactly(Step(e, actions[0]).0, actions[1..]);
    }
  }

  // ---------------------------------------------------------------- keepalives

  /** How many keepalives were counted. */
  function Counts(actions: seq<Action>): nat {
    if actions == [] then 0 else (if actions[0].CountKeepalive? then 1 else 0) + Counts(actions[1..])
  }

  /** No keepalive arrives. */
  predicate Unanswered(actions: seq<Action>) {
    forall a :: a in actions ==> a != Deliver(Keepalive([]))
  }

  function Written(packets: seq<Packet>): nat {
    if packets == [] then 0 else (if packets[0] == Keepalive([]) then 1 else 0) + Written(packets[1..])
  }

  lemma BeatStep(e: Endpoint, a: Action)
    requires e.role == Listener && Enabled(e, a)
    ensures var t := Step(e, a).0;
      && t.role == Listener
      && t.missedKeepalives == (if a == Deliver(Keepalive([])) then 0
                                else if a.CountKeepalive? then e.missedKeepalives + 1 else e.missedKeepalives)
      && (t.beat == Stopped <==> e.beat == Stopped || (a.CountKeepalive? && e.missedKeepalives >= 5))
  {
  }

  lemma {:induction false} CountsRaise(e: Endpoint, actions: seq<Action>)
    requires e.role == Listener && Legal(e, actions) && Unanswered(actions)
    ensures Final(e, actions).missedKeepalives == e.missedKeepalives + Counts(actions)
    decreases |actions|
  {
    if actions != [] {
      assert actions[0] in actions && forall a :: a in actions[1..] ==> a in actions;
      BeatStep(e, actions[0]);
      CountsRaise(Step(e, actions[0]).0, actions[1..]);
    }
  }

  /** More than five missed means that the loop has stopped, and it never starts again. */
  predicate Beating(e: Endpoint) {
    e.role == Listener && (e.missedKeepalives > 5 ==> e.beat == Stopped)
  }

  lemma {:induction false} StoppedStays(e: Endpoint, actions: seq<Action>)
    requires Beating(e) && Legal(e, actions)
    ensures Beating(Final(e, actions)) && (e.beat == Stopped ==> Final(e, actions).beat == Stopped)
    decreases |actions|
  {
    if actions != [] {
      BeatStep(e, actions[0]);
      StoppedStays(Step(e, actions[0]).0, actions[1..]);
    }
  }

  lemma {:induction false} RunSplit(e: Endpoint, actions: seq<Action>, i: nat)
    requires Legal(e, actions) && i <= |actions|
    ensures Legal(e, actions[..i]) && Legal(Final(e, actions[..i]), actions[i..])
    ensures Final(Final(e, actions[..i]), actions[i..]) == Final(e, actions)
    decreases i
  {
    if i == 0 {
      assert actions[..0] == [] && actions[0..] == actions;
    } else {
      assert actions[..i][1..] == actions[1..][..i - 1] && actions[1..][i - 1..] == actions[i..];
      RunSplit(Step(e, actions[0]).0, actions[1..], i - 1);
    }
  }

  /** Six keepalives counted with no keepalive arriving in between. */
  predicate SixUnanswered(actions: seq<Action>, i: nat, j: nat) {
    i <= j <= |actions| && Unanswered(actions[i..j]) && Counts(actions[i..j]) >= 6
  }

  lemma SixStop(e: Endpoint, actions: seq<Action>, i: nat, j: nat)
    requires Beating(e) && Legal(e, actions) && SixUnanswered(actions, i, j)
    ensures Final(e, actions).beat == Stopped
  {
    RunSplit(e, actions, i);
    var mid := Final(e, actions[..i]);
    StoppedStays(e, actions[..i]);
    RunSplit(mid, actions[i..], j - i);
    assert actions[i..][..j - i] == actions[i..j];
    CountsRaise(mid, actions[i..j]);
    StoppedStays(mid, actions[i..j]);
    StoppedStays(Final(mid, actions[i..j]), actions[i..][j - i..]);
  }

  /** A run at whose start some keepalives are missed already. */
  predicate Overdue(actions: seq<Action>, j: nat, missed: nat) {
    j <= |actions| && Unanswered(actions[..j]) && Counts(actions[..j]) + missed >= 6
  }

  ghost predicate SomeSix(actions: seq<Action>) {
    exists i: nat, j: nat :: SixUnanswered(actions, i, j)
  }

  ghost predicate SomeOverdue(actions: seq<Action>, missed: nat) {
    exists j: nat :: Overdue(actions, j, missed)
  }

  lemma SixLater(actions: seq<Action>)
    requires actions != [] && SomeSix(actions[1..])
    ensures SomeSix(actions)
  {
    var i: nat, j: nat :| SixUnanswered(actions[1..], i, j);
    var rest := actions[1..];
    assert |rest| == |actions| - 1 && j <= |rest|;
    var later := actions[i + 1..j + 1];
    assert |later| == j - i && forall k :: 0 <= k < |later| ==> later[k] == rest[i..j][k];
    assert later == rest[i..j];
    assert SixUnanswered(actions, i + 1, j + 1);
  }

  lemma OverdueLater(actions: seq<Action>, missed: nat)
    requires actions != []
    requires SomeOverdue(actions[1..], if actions[0] == Deliver(Keepalive([])) then 0
                                       else if actions[0].CountKeepalive? then missed + 1 else missed)
    ensures SomeSix(actions) || SomeOverdue(actions, missed)
  {
    var a, rest := actions[0], actions[1..];
    var j: nat :| Overdue(rest, j, if a == Deliver(Keepalive([])) then 0 else if a.CountKeepalive? then missed + 1 else missed);
    if a == Deliver(Keepalive([])) {
      assert actions[1..j + 1] == rest[..j];
      assert SixUnanswered(actions, 1, j + 1);
    } else {
      var all := actions[..j + 1];
      assert all == [a] + rest[..j] && all[0] == a && all[1..] == rest[..j];
      assert Unanswered(all) by {
        forall x | x in all ensures x != Deliver(Keepalive([])) {
          assert x == a || x in rest[..j];
        }
      }
      assert Counts(all) == (if a.CountKeepalive? then 1 else 0) + Counts(rest[..j]);
      assert Overdue(actions, j + 1, missed);
    }
  }

  lemma {:induction false} StopMeansSix(e: Endpoint, actions: seq<Action>)
    requires Beating(e) && e.beat != Stopped && Legal(e, actions) && Final(e, actions).beat == Stopped
    ensures SomeSix(actions) || SomeOverdue(actions, e.missedKeepalives)
    decreases |actions|
  {
    var a, rest := actions[0], actions[1..];
    var mid := Step(e, a).0;
    BeatStep(e, a);
    if mid.beat == Stopped {
      assert actions[..1] == [a] && [a][1..] == [];
      assert Counts([a]) == 1;
      assert Overdue(actions, 1, e.missedKeepalives);
    } else {
      StopMeansSix(mid, rest);
      if SomeSix(rest) {
        SixLater(actions);
      } else {
        OverdueLater(actions, e.missedKeepalives);
      }
    }
  }

  /** The keepalive loop has given up exactly when six keepalives in a row were counted without one arriving. */
  lemma TimeoutMeansSix(actions: seq<Action>)
    requires Legal(Initial(Listener), actions)
    ensures Final(Initial(Listener), actions).beat == Stopped <==> SomeSix(actions)
  {
    if i: nat, j: nat :| SixUnanswered(actions, i, j) {
      SixStop(Initial(Listener), actions, i, j);
    }
    if Final(Initial(Listener), actions).beat == Stopped {
      StopMeansSix(Initial(Listener), actions);
      if j: nat :| Overdue(actions, j, 0) {
        assert actions[0..j] == actions[..j];
        assert SixUnanswered(actions, 0, j);
      }
    }
  }

  lemma WrittenOfStep(out: seq<Packet>, rest: seq<Packet>)
    requires |out| <= 1
    ensures Written(out + rest) == Written(out) + Written(rest)
  {
    if out == [] {
      assert out + rest == rest;
    } else {
      assert (out + rest)[1..] == rest && out[1..] == [];
    }
  }

  lemma WriteStep(e: Endpoint, a: Action)
    requires Enabled(e, a)
    ensures var (t, out) := Step(e, a);
      && |out| <= 1
      && Written(out) + (if e.beat == Writing then 1 else 0)
         == (if a.CountKeepalive? then 1 else 0) + (if t.beat == Writing then 1 else 0)
  {
    var out := Step(e, a).1;
    assert out != [] ==> out[1..] == [];
  }

  lemma {:induction false} CountsFollowWrites(e: Endpoint, actions: seq<Action>)
    requires Legal(e, actions)
    ensures Written(Output(e, actions)) + (if e.beat == Writing then 1 else 0)
         == Counts(actions) + (if Final(e, actions).beat == Writing then 1 else 0)
    decreases |actions|
  {
    if actions != [] {
      var (mid, out) := Step(e, actions[0]);
      WriteStep(e, actions[0]);
      CountsFollowWrites(mid, actions[1..]);
      WrittenOfStep(out, Output(mid, actions[1..]));
    }
  }

  /** One keepalive on the tunnel for every one counted, and one more while its write is still draining. */
  lemma EveryCountIsWritten(actions: seq<Action>)
    requires Legal(Initial(Listener), actions)
    ensures var written := Written(Output(Initial(Listener), actions));
      Counts(actions) <= written <= Counts(actions) + 1
  {
    CountsFollowWrites(Initial(Listener), actions);
  }
}
