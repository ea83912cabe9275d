/** What one stream puts on the tunnel, under any interleaving with everything else. */
module Outbound {
  import opened Bytes
  import opened Tunnel
  import opened Mux
  import opened MuxRuns
  import TwoParty

  /** A stream's own packets; responses and confirmations belong to the receive loop. */
  predicate Own(p: Packet, id: int) {
    match p
    case Announce(a) => a.requestId == id
    case Data(f) => f.header.requestId == id && (f.header.operation >= 0 || f.header.operation == DISCONNECT_REQUEST)
    case Keepalive(_) => false
  }

  function OwnOf(packets: seq<Packet>, id: int): seq<Packet> {
    if packets == [] then []
    else (if Own(packets[0], id) then [packets[0]] else []) + OwnOf(packets[1..], id)
  }

  /** The bytes a run reads from the stream's socket. */
  function ReadBytes(actions: seq<Action>, id: int): seq<byte> {
    if actions == [] then []
    else (if actions[0].ReadChunk? && actions[0].id == id then actions[0].data else []) + ReadBytes(actions[1..], id)
  }

  predicate EndsLocally(actions: seq<Action>, id: int) {
    actions != [] && (actions[0] == LocalEof(id) || EndsLocally(actions[1..], id))
  }

  predicate Unannounced(e: Endpoint, id: int) {
    TaskAt(e, id, Created) || TaskAt(e, id, Announcing)
  }

  /** The peer sends nothing for the id before it has been announced. */
  predicate PeerWaits(e: Endpoint, actions: seq<Action>, id: int)
    requires Legal(e, actions)
    decreases |actions|
  {
    actions == [] ||
    (&& (actions[0].Deliver? && TwoParty.PacketId(actions[0].packet) == Some(id) ==> !Unannounced(e, id))
     && PeerWaits(Step(e, actions[0]).0, actions[1..], id))
  }

  datatype Route = Route(id: int, localPort: int, remotePort: int)

  function Sent(r: Route, operation: int, payload: seq<byte>): Packet {
    Data(TunnelFrame(TunnelHeader(r.id, operation, Listener, r.localPort, r.remotePort, 0), payload))
  }

  /**
    Data frames numbered from n whose payloads follow one another in `bytes`, and at most one request, at the
    end. When `complete`, the payloads make up all of `bytes`.
  */
  predicate Shaped(own: seq<Packet>, r: Route, n: nat, bytes: seq<byte>, complete: bool)
    decreases |own|
  {
    if own == [] || own == [Sent(r, DISCONNECT_REQUEST, [])] then complete ==> bytes == []
    else
      && own[0].Data?
      && var payload := own[0].frame.payload;
      && own[0] == Sent(r, n, payload) && payload <= bytes
      && Shaped(own[1..], r, n + 1, bytes[|payload|..], complete)
  }

  /** What remains to be sent and read from a given suspension point of the stream's task. */
  predicate Promise(stream: Option<Stream>, r: Route, own: seq<Packet>, bytes: seq<byte>, complete: bool) {
    match stream
    case None => own == [] && bytes == [] && !complete
    case Some(s) =>
      match s.task
      case Reading => Shaped(own, r, s.sendSequence, bytes, complete)
      case Sending(sequence, data) => Shaped(own, r, sequence, data + bytes, complete)
      case Requesting => bytes == [] && !complete && (own == [] || own == [Sent(r, DISCONNECT_REQUEST, [])])
      case Done => own == [] && bytes == [] && !complete
      case _ =>
        if own == [] then bytes == [] && !complete
        else own[0] == Announce(MappingAnnouncement(r.localPort, r.remotePort, r.id))
             && Shaped(own[1..], r, s.sendSequence, bytes, complete)
  }

  function StreamOf(e: Endpoint, id: int): Option<Stream> {
    if id in e.streams then Some(e.streams[id]) else None
  }

  /** Facts about the stream that every step keeps. */
  predicate Fits(e: Endpoint, r: Route) {
    && e.role == Listener
    && (r.id in e.streams ==>
          var s := e.streams[r.id];
          && s.localPort == r.localPort && s.remotePort == r.remotePort
          && (s.task.Sending? ==> s.task.sequence + 1 == s.sendSequence)
          && (Unannounced(e, r.id) ==> !TwoParty.On(e.receiver, r.id)))
  }

  lemma OwnOfStep(out: seq<Packet>, rest: seq<Packet>, id: int)
    requires |out| <= 1
    ensures OwnOf(out + rest, id) == (if out != [] && Own(out[0], id) then [out[0]] else []) + OwnOf(rest, id)
  {
    if out == [] {
      assert out + rest == rest;
    } else {
      assert out + rest == [out[0]] + rest;
      assert ([out[0]] + rest)[1..] == rest;
    }
  }

  lemma StepFits(e: Endpoint, a: Action, r: Route)
    requires Fits(e, r) && Enabled(e, a) && !(a.Accept? && a.id == r.id)
    requires a.Deliver? && TwoParty.PacketId(a.packet) == Some(r.id) ==> !Unannounced(e, r.id)
    ensures Fits(Step(e, a).0, r)
  {
    if a.Deliver? {
      assert Step(e, a).0 == Receive(e, a.packet);
    }
  }

  /** A promise kept by the rest of the run is kept by one step more. */
  lemma StepKeepsPromise(e: Endpoint, a: Action, r: Route, own: seq<Packet>, bytes: seq<byte>, complete: bool)
    requires Fits(e, r) && Enabled(e, a) && !(a.Accept? && a.id == r.id)
    requires a.Deliver? && TwoParty.PacketId(a.packet) == Some(r.id) ==> !Unannounced(e, r.id)
    requires Promise(StreamOf(Step(e, a).0, r.id), r, own, bytes, complete)
    ensures var out := Step(e, a).1;
      var first := if out != [] && Own(out[0], r.id) then [out[0]] else [];
      var chunk := if a.ReadChunk? && a.id == r.id then a.data else [];
      Promise(StreamOf(e, r.id), r, first + own, chunk + bytes, a == LocalEof(r.id) || complete)
  {
    assert [] + own == own && [] + bytes == bytes;
    if a.WriteAnnouncement? || a.WriteChunk? || a.WriteRequest? {
      WritingStep(e, a, r, own, bytes, complete);
    } else if a.Start? || a.ReadChunk? || a.LocalEof? || a.Accept? || a.Close? {
      SilentStep(e, a, r, own, bytes, complete);
    } else {
      PassiveStep(e, a, r, own, bytes, complete);
    }
  }

  /** A forwarding task writes: what it wrote comes before everything it still has to write. */
  lemma WritingStep(e: Endpoint, a: Action, r: Route, own: seq<Packet>, bytes: seq<byte>, complete: bool)
    requires Fits(e, r) && Enabled(e, a) && (a.WriteAnnouncement? || a.WriteChunk? || a.WriteRequest?)
    requires Promise(StreamOf(Step(e, a).0, r.id), r, own, bytes, complete)
    ensures var out := Step(e, a).1;
      Promise(StreamOf(e, r.id), r, (if Own(out[0], r.id) then [out[0]] else []) + own, bytes, complete)
  {
    var out := Step(e, a).1;
    assert [] + own == own;
    if a.id == r.id {
      assert ([out[0]] + own)[1..] == own;
      if a.WriteChunk? {
        var task := e.streams[r.id].task;
        assert out[0] == Sent(r, task.sequence, task.data);
        ShapedCons(own, r, task.sequence, task.data, bytes, complete);
      } else if a.WriteRequest? {
        assert [out[0]] + own == [Sent(r, DISCONNECT_REQUEST, [])];
      }
    }
  }

  /** A forwarding task starts, or its socket yields data or ends; other clients come, or the mapping closes. */
  lemma SilentStep(e: Endpoint, a: Action, r: Route, own: seq<Packet>, bytes: seq<byte>, complete: bool)
    requires Fits(e, r) && Enabled(e, a) && !(a.Accept? && a.id == r.id)
    requires a.Start? || a.ReadChunk? || a.LocalEof? || a.Accept? || a.Close?
    requires Promise(StreamOf(Step(e, a).0, r.id), r, own, bytes, complete)
    ensures Step(e, a).1 == []
    ensures var chunk := if a.ReadChunk? && a.id == r.id then a.data else [];
      Promise(StreamOf(e, r.id), r, own, chunk + bytes, a == LocalEof(r.id) || complete)
  {
    assert [] + bytes == bytes;
  }

  lemma ShapedCons(own: seq<Packet>, r: Route, n: nat, data: seq<byte>, bytes: seq<byte>, complete: bool)
    requires Shaped(own, r, n + 1, bytes, complete)
    ensures Shaped([Sent(r, n, data)] + own, r, n, data + bytes, complete)
  {
    var all := [Sent(r, n, data)] + own;
    assert all[0] == Sent(r, n, data) && all[0] != Sent(r, DISCONNECT_REQUEST, []);
    assert all[1..] == own;
    assert (data + bytes)[|data|..] == bytes;
  }

  /** Steps of the receive loop and of the keepalive loop write nothing of a stream's own. */
  lemma PassiveStep(e: Endpoint, a: Action, r: Route, own: seq<Packet>, bytes: seq<byte>, complete: bool)
    requires Fits(e, r) && Enabled(e, a)
    requires a.Deliver? || a.WriteResponse? || a.WriteConfirm? || a.CancelTask? || a.FinishStop?
          || a.WriteKeepalive? || a.CountKeepalive? || a.Spend?
    requires a.Deliver? && TwoParty.PacketId(a.packet) == Some(r.id) ==> !Unannounced(e, r.id)
    requires Promise(StreamOf(Step(e, a).0, r.id), r, own, bytes, complete)
    ensures Promise(StreamOf(e, r.id), r, own, bytes, complete)
    ensures var out := Step(e, a).1; out != [] ==> !Own(out[0], r.id)
  {
    if r.id in e.streams {
      var s := e.streams[r.id];
      var next := StreamOf(Step(e, a).0, r.id);
      assert next == None || next.value.task == s.task || next.value.task == Cancelled(s).task;
    }
  }

  lemma {:induction false} RunKeepsPromise(e: Endpoint, actions: seq<Action>, r: Route)
    requires Fits(e, r) && Legal(e, actions) && !Reallocates(actions, r.id) && PeerWaits(e, actions, r.id)
    ensures Promise(StreamOf(e, r.id), r, OwnOf(Output(e, actions), r.id), ReadBytes(actions, r.id), EndsLocally(actions, r.id))
    decreases |actions|
  {
    if actions != [] {
      var a, rest := actions[0], actions[1..];
      var (mid, out) := Step(e, a);
      StepFits(e, a, r);
      RunKeepsPromise(mid, rest, r);
      OwnOfStep(out, Output(mid, rest), r.id);
      StepKeepsPromise(e, a, r, OwnOf(Output(mid, rest), r.id), ReadBytes(rest, r.id), EndsLocally(rest, r.id));
    }
  }

  /** The payloads of data packets, in order. */
  function Carried(own: seq<Packet>): seq<byte> {
    if own == [] then []
    else (if own[0].Data? then own[0].frame.payload else []) + Carried(own[1..])
  }

  lemma {:induction false} ShapedMeans(own: seq<Packet>, r: Route, n: nat, bytes: seq<byte>, complete: bool)
    requires Shaped(own, r, n, bytes, complete)
    ensures forall i :: 0 <= i < |own| ==>
      || (own[i].Data? && own[i] == Sent(r, n + i, own[i].frame.payload))
      || (i == |own| - 1 && own[i] == Sent(r, DISCONNECT_REQUEST, []))
    ensures Carried(own) <= bytes
    ensures complete ==> Carried(own) == bytes
    decreases |own|
  {
    if own != [] {
      if own == [Sent(r, DISCONNECT_REQUEST, [])] {
        assert own[1..] == [];
      } else {
        var payload := own[0].frame.payload;
        ShapedMeans(own[1..], r, n + 1, bytes[|payload|..], complete);
        forall i | 0 <= i < |own|
          ensures || (own[i].Data? && own[i] == Sent(r, n + i, own[i].frame.payload))
                  || (i == |own| - 1 && own[i] == Sent(r, DISCONNECT_REQUEST, []))
        {
          if i > 0 {
            assert own[i] == own[1..][i - 1];
          }
        }
        assert bytes == payload + bytes[|payload|..];
      }
    }
  }

  /**
    Outbound order: from its acceptance on, a stream's own packets are its announcement, data frames numbered
    0, 1, 2, ... and at most one disconnect request at the end. The payloads are a prefix of the bytes read
    locally, and all of them when the local socket reached its end.
  */
  lemma OutboundOrder(e: Endpoint, accept: Action, actions: seq<Action>)
    requires e.role == Listener && WellFormed(e) && accept.Accept? && Enabled(e, accept)
    requires Legal(Step(e, accept).0, actions) && !Reallocates(actions, accept.id)
    requires PeerWaits(Step(e, accept).0, actions, accept.id)
    ensures var r := Route(accept.id, accept.localPort, accept.remotePort);
      var own := OwnOf(Output(Step(e, accept).0, actions), r.id);
      var bytes := ReadBytes(actions, r.id);
      && (own != [] ==> own[0] == Announce(MappingAnnouncement(r.localPort, r.remotePort, r.id)))
      && (forall i :: 1 <= i < |own| ==>
            || (own[i].Data? && own[i] == Sent(r, i - 1, own[i].frame.payload))
            || (i == |own| - 1 && own[i] == Sent(r, DISCONNECT_REQUEST, [])))
      && Carried(own) <= bytes
      && (EndsLocally(actions, r.id) ==> Carried(own) == bytes)
  {
    var r := Route(accept.id, accept.localPort, accept.remotePort);
    var mid := Step(e, accept).0;
    RunKeepsPromise(mid, actions, r);
    var own := OwnOf(Output(mid, actions), r.id);
    if own != [] {
      ShapedMeans(own[1..], r, 0, ReadBytes(actions, r.id), EndsLocally(actions, r.id));
      forall i | 1 <= i < |own|
        ensures || (own[i].Data? && own[i] == Sent(r, i - 1, own[i].frame.payload))
                || (i == |own| - 1 && own[i] == Sent(r, DISCONNECT_REQUEST, []))
      {
        assert own[i] == own[1..][i - 1];
      }
      assert Carried(own) == Carried(own[1..]);
    }
  }
}
