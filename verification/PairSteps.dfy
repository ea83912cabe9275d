/** Every step of one end keeps the invariant of the id it works on. */
module PairSteps {
  import opened Bytes
  import opened Tunnel
  import opened Mux
  import opened PairInvariant

  /** The acting end changes its stream or its receive loop; the channels stay. */
  function WithLocal(v: View, s: Stream, receiver: Receiver): View {
    v.(x := v.x.(stream := Some(s), receiver := receiver))
  }

  /** The acting end also writes one packet. */
  function WithWrite(v: View, s: Stream, receiver: Receiver, p: Packet): View {
    WithLocal(v, s, receiver).(xy := v.xy + [p])
  }

  /** All facts about a channel after one more packet. */
  lemma Appended(v: View, p: Packet)
    requires Half(v) && !p.Announce?
    ensures var role, r, f := v.y.role, ReceptionOf(v.y), Fold(v.y.role, ReceptionOf(v.y), v.xy);
      && Fold(role, r, v.xy + [p]) == Absorb(role, f, p)
      && NoLaterAnnounce(v.xy + [p])
      && (AnnounceAtHead(v.xy + [p]) <==> AnnounceAtHead(v.xy))
      && (forall op :: Will(op, role, r, v.xy + [p]) <==> Will(op, role, r, v.xy) || (f.Open? && IsControl(p, op)))
      && (forall op :: HasControl(v.xy + [p], op) <==> HasControl(v.xy, op) || IsControl(p, op))
      && (r.Open? && f.Open? ==> Flow(role, r, v.xy) == f.bytes)
      && (r.Open? ==>
            Flow(role, r, v.xy + [p]) == (if !f.Open? then Flow(role, r, v.xy)
                                          else if Absorb(role, f, p).Open? then Absorb(role, f, p).bytes
                                          else f.bytes))
  {
    var role, r := v.y.role, ReceptionOf(v.y);
    FoldAppend(role, r, v.xy, p);
    forall op ensures Will(op, role, r, v.xy + [p])
                 <==> Will(op, role, r, v.xy) || (Fold(role, r, v.xy).Open? && IsControl(p, op)) {
      WillAppend(op, role, r, v.xy, p);
    }
    forall op ensures HasControl(v.xy + [p], op) <==> HasControl(v.xy, op) || IsControl(p, op) {
      HasControlAppend(v.xy, p, op);
    }
    if r.Open? {
      FlowAppend(role, r, v.xy, p);
    }
  }

  lemma KeepsAccept(v: View, localPort: int, remotePort: int)
    requires PairInv(v) && Quiet(v) && v.x.stream.None? && v.x.role == Listener
    ensures PairInv(v.(x := v.x.(stream := Some(NewStream(localPort, remotePort, Created)), retired := None)))
  {
  }

  lemma KeepsStart(v: View)
    requires PairInv(v) && v.x.stream.Some? && v.x.stream.value.task == Created
    ensures PairInv(WithLocal(v, v.x.stream.value.(task := Announcing), v.x.receiver))
  {
  }

  lemma KeepsWriteAnnouncement(v: View)
    requires PairInv(v) && v.x.stream.Some? && v.x.stream.value.task == Announcing
    ensures var s := v.x.stream.value;
      PairInv(WithWrite(v, s.(task := Reading), v.x.receiver,
                        Announce(MappingAnnouncement(s.localPort, s.remotePort, v.id))))
  {
  }

  lemma KeepsReadChunk(v: View, data: seq<byte>)
    requires PairInv(v) && v.x.stream.Some? && v.x.stream.value.task == Reading && data != []
    ensures var s := v.x.stream.value;
      PairInv(WithLocal(v, s.(read := s.read + data, sendSequence := s.sendSequence + 1,
                              task := Sending(s.sendSequence, data)), v.x.receiver))
  {
    if Will(DISCONNECT_REQUEST, v.y.role, ReceptionOf(v.y), v.xy) {
      WillHas(DISCONNECT_REQUEST, v.y.role, ReceptionOf(v.y), v.xy);
    }
  }

  lemma KeepsLocalEof(v: View)
    requires PairInv(v) && v.x.stream.Some? && v.x.stream.value.task == Reading
    ensures var s := v.x.stream.value;
      PairInv(WithLocal(v, s.(task := if s.remoteDisconnect then Done else Requesting), v.x.receiver))
  {
  }

  lemma KeepsWriteChunk(v: View)
    requires PairInv(v) && v.x.stream.Some? && v.x.stream.value.task.Sending?
    ensures var s := v.x.stream.value;
      PairInv(WithWrite(v, s.(task := Reading), v.x.receiver,
                        Data(TunnelFrame(Header(v.x.role, v.id, s, s.task.sequence), s.task.data))))
  {
    var s := v.x.stream.value;
    Appended(v, Data(TunnelFrame(Header(v.x.role, v.id, s, s.task.sequence), s.task.data)));
    if Will(DISCONNECT_REQUEST, v.y.role, ReceptionOf(v.y), v.xy) {
      WillHas(DISCONNECT_REQUEST, v.y.role, ReceptionOf(v.y), v.xy);
    }
  }

  lemma KeepsWriteRequest(v: View)
    requires PairInv(v) && v.x.stream.Some? && v.x.stream.value.task == Requesting
    ensures var s := v.x.stream.value;
      PairInv(WithWrite(v, s.(task := Done), v.x.receiver, Control(v.x.role, v.id, s, DISCONNECT_REQUEST)))
  {
    Appended(v, Control(v.x.role, v.id, v.x.stream.value, DISCONNECT_REQUEST));
  }

  lemma KeepsWriteResponse(v: View)
    requires PairInv(v) && v.x.stream.Some? && v.x.receiver.Responding?
    ensures var s := v.x.stream.value;
      PairInv(WithWrite(v, s, Stopping(v.id, false), Control(v.x.role, v.id, s, DISCONNECT_RESPONSE)))
  {
    Appended(v, Control(v.x.role, v.id, v.x.stream.value, DISCONNECT_RESPONSE));
  }

  lemma KeepsWriteConfirm(v: View)
    requires PairInv(v) && v.x.stream.Some? && v.x.receiver.Confirming?
    ensures var s := v.x.stream.value;
      PairInv(WithWrite(v, s, Stopping(v.id, true), Control(v.x.role, v.id, s, DISCONNECT_CONFIRM)))
  {
    Appended(v, Control(v.x.role, v.id, v.x.stream.value, DISCONNECT_CONFIRM));
  }

  lemma KeepsCancel(v: View)
    requires PairInv(v) && v.x.stream.Some? && v.x.receiver.Stopping?
    ensures PairInv(WithLocal(v, Cancelled(v.x.stream.value), Awaiting(v.id, v.x.receiver.remove)))
  {
  }

  lemma KeepsFinish(v: View)
    requires PairInv(v) && v.x.stream.Some? && v.x.receiver.Awaiting? && v.x.stream.value.task == Done
    ensures var s := v.x.stream.value;
      if v.x.receiver.remove
      then PairInv(v.(x := Local(v.x.role, None, Some(Retired(v.id, s.localPort, s.remotePort)), Idle)))
      else PairInv(WithLocal(v, s, Idle))
  {
  }

  lemma KeepsEviction(v: View)
    requires PairInv(v) && Quiet(v) && v.x.stream.None?
    ensures PairInv(v.(x := v.x.(retired := None)))
  {
  }

  // ---------------------------------------------------------------- receiving

  /** What a packet that raises no error does to the receiving end. */
  function Received(id: int, l: Local, p: Packet): Local {
    match p
    case Keepalive(_) => l
    case Announce(a) => Local(l.role, Some(NewStream(a.remotePort, a.localPort, Reading)), None, Idle)
    case Data(frame) =>
      match l.stream
      case None => l
      case Some(s) =>
        var op := frame.header.operation;
        if op >= 0 then
          l.(stream := Some(s.(receiveSequence := s.receiveSequence + 1, sink := s.sink + frame.payload)))
        else if op == DISCONNECT_REQUEST then
          l.(stream := Some(s.(remoteDisconnect := true)), receiver := Responding(id))
        else if op == DISCONNECT_RESPONSE then l.(receiver := Confirming(id))
        else l.(stream := Some(Cancelled(s)), receiver := Awaiting(id, true))
  }

  /** The head of the incoming channel raises no error and moves the abstract receiver as foreseen. */
  lemma HeadIsGood(v: View)
    requires PairInv(v) && v.yx != [] && v.x.receiver == Idle
    ensures Absorb(v.x.role, ReceptionOf(v.x), v.yx[0]) != Bad
    ensures ReceptionOf(Received(v.id, v.x, v.yx[0])) == Absorb(v.x.role, ReceptionOf(v.x), v.yx[0])
    ensures forall op :: HasControl(v.yx, op) <==> IsControl(v.yx[0], op) || HasControl(v.yx[1..], op)
    ensures NoLaterAnnounce(v.yx[1..]) && !AnnounceAtHead(v.yx[1..])
  {
    BadStaysBad(v.x.role, v.yx[1..]);
    forall op ensures HasControl(v.yx, op) <==> IsControl(v.yx[0], op) || HasControl(v.yx[1..], op) {
      HasControlPop(v.yx, op);
    }
  }

  function AfterReceive(v: View): View
    requires v.yx != []
  {
    v.(x := Received(v.id, v.x, v.yx[0]), yx := v.yx[1..])
  }

  /** A receiver that ends up open has been through no response. */
  lemma {:induction false} OpenSeesNoResponse(role: Role, r: Reception, ch: seq<Packet>)
    requires forall i :: 0 <= i < |ch| ==> !ch[i].Announce?
    requires Fold(role, r, ch).Open?
    ensures !HasControl(ch, DISCONNECT_RESPONSE)
    decreases |ch|
  {
    if ch != [] {
      HasControlPop(ch, DISCONNECT_RESPONSE);
      OpenSeesNoResponse(role, Absorb(role, r, ch[0]), ch[1..]);
      if IsControl(ch[0], DISCONNECT_RESPONSE) {
        ShutStaysShut(role, Absorb(role, r, ch[0]), ch[1..]);
      }
    }
  }

  lemma KeepsReceiveAnnounce(v: View)
    requires PairInv(v) && v.yx != [] && v.x.receiver == Idle && v.yx[0].Announce?
    ensures PairInv(AfterReceive(v))
  {
    HeadIsGood(v);
    var after := AfterReceive(v);
    var role, r := after.x.role, ReceptionOf(after.x);
    FlowAppend(role, r, after.yx, Keepalive([]));
    OpenSeesNoResponse(role, r, after.yx);
    if Will(DISCONNECT_REQUEST, role, r, after.yx) {
      WillHas(DISCONNECT_REQUEST, role, r, after.yx);
    }
  }

  lemma KeepsReceiveData(v: View)
    requires PairInv(v) && v.yx != [] && v.x.receiver == Idle && v.yx[0].Data?
    requires v.yx[0].frame.header.operation >= 0
    ensures PairInv(AfterReceive(v))
  {
    HeadIsGood(v);
    var after := AfterReceive(v);
    if v.x.stream.Some? {
      FlowExtends(after.x.role, ReceptionOf(after.x), after.yx);
    }
  }

  lemma KeepsReceiveRequest(v: View)
    requires PairInv(v) && v.yx != [] && v.x.receiver == Idle && IsControl(v.yx[0], DISCONNECT_REQUEST)
    ensures PairInv(AfterReceive(v))
  {
    HeadIsGood(v);
    var after := AfterReceive(v);
    if v.x.stream.Some? {
      FlowAfterEof(after.x.role, ReceptionOf(after.x), after.yx);
    }
  }

  lemma KeepsReceiveResponse(v: View)
    requires PairInv(v) && v.yx != [] && v.x.receiver == Idle && IsControl(v.yx[0], DISCONNECT_RESPONSE)
    ensures PairInv(AfterReceive(v))
  {
    HeadIsGood(v);
  }

  lemma KeepsReceiveConfirm(v: View)
    requires PairInv(v) && v.yx != [] && v.x.receiver == Idle && IsControl(v.yx[0], DISCONNECT_CONFIRM)
    ensures PairInv(AfterReceive(v))
  {
    HeadIsGood(v);
  }
}
