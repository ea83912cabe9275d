/**
  One request id seen from both ends of the tunnel: its stream at either end and its packets in flight.
  The invariant says what the receiving end will make of the packets still in the channel.
*/
module PairInvariant {
  import opened Bytes
  import opened Tunnel
  import opened Mux

  /** What one endpoint knows about the id; `receiver` is `Idle` unless the receive loop is busy with it. */
  datatype Local = Local(role: Role, stream: Option<Stream>, retired: Option<Retired>, receiver: Receiver)

  datatype View = View(id: int, x: Local, y: Local, xy: seq<Packet>, yx: seq<Packet>)

  function Swap(v: View): View {
    View(v.id, v.y, v.x, v.yx, v.xy)
  }

  /** Abstract receiver of one id. `Gone` discards late packets; `Bad` stands for any protocol error. */
  datatype Reception =
    | Fresh
    | Open(next: nat, bytes: seq<byte>, localPort: int, remotePort: int, eof: bool)
    | Gone(localPort: int, remotePort: int)
    | Bad

  /** The stream leaves the table before the receive loop reads another packet. */
  predicate Closing(r: Receiver) {
    r.Confirming? || (r.Stopping? && r.remove) || (r.Awaiting? && r.remove)
  }

  function ReceptionOf(l: Local): Reception {
    match l.stream
    case Some(s) =>
      if Closing(l.receiver) then Gone(s.localPort, s.remotePort)
      else Open(s.receiveSequence, s.sink, s.localPort, s.remotePort, s.remoteDisconnect)
    case None =>
      match l.retired
      case Some(r) => Gone(r.localPort, r.remotePort)
      case None => Fresh
  }

  predicate IsControl(p: Packet, operation: int) {
    p.Data? && p.frame.header.operation == operation
  }

  /** One packet at the abstract receiver: stricter than the code, which never checks the `eof` conditions. */
  function Absorb(role: Role, r: Reception, p: Packet): Reception {
    match p
    case Keepalive(_) => r
    case Announce(a) =>
      if role == Connector && (r.Fresh? || r.Gone?) then Open(0, [], a.remotePort, a.localPort, false) else Bad
    case Data(frame) =>
      var h := frame.header;
      match r
      case Fresh => Bad
      case Bad => Bad
      case Gone(localPort, remotePort) =>
        if Routed(role, localPort, remotePort, h) && (h.operation >= 0 || frame.payload == []) then r else Bad
      case Open(next, bytes, localPort, remotePort, eof) =>
        if !Routed(role, localPort, remotePort, h) then Bad
        else if h.operation >= 0 then
          if h.operation != next || eof then Bad
          else Open(next + 1, bytes + frame.payload, localPort, remotePort, eof)
        else if frame.payload != [] then Bad
        else if h.operation == DISCONNECT_REQUEST then
          if eof then Bad else Open(next, bytes, localPort, remotePort, true)
        else if h.operation == DISCONNECT_RESPONSE then Gone(localPort, remotePort)
        else if h.operation == DISCONNECT_CONFIRM && eof then Gone(localPort, remotePort)
        else Bad
  }

  function Fold(role: Role, r: Reception, ch: seq<Packet>): Reception
    decreases |ch|
  {
    if ch == [] then r else Fold(role, Absorb(role, r, ch[0]), ch[1..])
  }

  /** Some control packet of the channel will reach the receiver while its stream is open. */
  predicate Will(operation: int, role: Role, r: Reception, ch: seq<Packet>)
    decreases |ch|
  {
    ch != [] && ((r.Open? && IsControl(ch[0], operation)) || Will(operation, role, Absorb(role, r, ch[0]), ch[1..]))
  }

  /** The bytes in the sink when the open receiver next leaves the open state, or at the end of the channel. */
  function Flow(role: Role, r: Reception, ch: seq<Packet>): seq<byte>
    decreases |ch|
  {
    if !r.Open? then []
    else if ch == [] || !Absorb(role, r, ch[0]).Open? then r.bytes
    else Flow(role, Absorb(role, r, ch[0]), ch[1..])
  }

  predicate HasControl(ch: seq<Packet>, operation: int) {
    exists i :: 0 <= i < |ch| && IsControl(ch[i], operation)
  }

  predicate NoLaterAnnounce(ch: seq<Packet>) {
    forall i :: 1 <= i < |ch| ==> !ch[i].Announce?
  }

  predicate AnnounceAtHead(ch: seq<Packet>) {
    ch != [] && ch[0].Announce?
  }

  // ---------------------------------------------------------------- channel lemmas

  lemma {:induction false} FoldAppend(role: Role, r: Reception, ch: seq<Packet>, p: Packet)
    ensures Fold(role, r, ch + [p]) == Absorb(role, Fold(role, r, ch), p)
    decreases |ch|
  {
    if ch == [] {
      assert (ch + [p])[1..] == [];
    } else {
      assert (ch + [p])[1..] == ch[1..] + [p];
      FoldAppend(role, Absorb(role, r, ch[0]), ch[1..], p);
    }
  }

  lemma {:induction false} WillAppend(operation: int, role: Role, r: Reception, ch: seq<Packet>, p: Packet)
    ensures Will(operation, role, r, ch + [p])
       <==> Will(operation, role, r, ch) || (Fold(role, r, ch).Open? && IsControl(p, operation))
    decreases |ch|
  {
    if ch == [] {
      assert (ch + [p])[1..] == [];
    } else {
      assert (ch + [p])[1..] == ch[1..] + [p];
      WillAppend(operation, role, Absorb(role, r, ch[0]), ch[1..], p);
    }
  }

  lemma {:induction false} FlowAppend(role: Role, r: Reception, ch: seq<Packet>, p: Packet)
    requires r.Open? && !p.Announce?
    requires forall i :: 0 <= i < |ch| ==> !ch[i].Announce?
    ensures var f := Fold(role, r, ch);
      Flow(role, r, ch + [p]) ==
        if !f.Open? then Flow(role, r, ch)
        else if Absorb(role, f, p).Open? then Absorb(role, f, p).bytes else f.bytes
    ensures Fold(role, r, ch).Open? ==> Flow(role, r, ch) == Fold(role, r, ch).bytes
    decreases |ch|
  {
    if ch == [] {
      assert (ch + [p])[1..] == [];
    } else {
      var next := Absorb(role, r, ch[0]);
      assert (ch + [p])[1..] == ch[1..] + [p];
      if next.Open? {
        FlowAppend(role, next, ch[1..], p);
      } else {
        ShutStaysShut(role, next, ch[1..]);
      }
    }
  }

  /** Without an announcement a receiver that is not open never opens. */
  lemma {:induction false} ShutStaysShut(role: Role, r: Reception, ch: seq<Packet>)
    requires !r.Open? && forall i :: 0 <= i < |ch| ==> !ch[i].Announce?
    ensures !Fold(role, r, ch).Open?
    ensures !Will(DISCONNECT_REQUEST, role, r, ch) && !Will(DISCONNECT_RESPONSE, role, r, ch)
    decreases |ch|
  {
    if ch != [] {
      ShutStaysShut(role, Absorb(role, r, ch[0]), ch[1..]);
    }
  }

  lemma {:induction false} BadStaysBad(role: Role, ch: seq<Packet>)
    ensures Fold(role, Bad, ch) == Bad
    decreases |ch|
  {
    if ch != [] {
      BadStaysBad(role, ch[1..]);
    }
  }

  /** Nothing is added to the sink after the sender's disconnect request. */
  lemma {:induction false} FlowAfterEof(role: Role, r: Reception, ch: seq<Packet>)
    requires r.Open? && r.eof && Fold(role, r, ch) != Bad
    ensures Flow(role, r, ch) == r.bytes
    decreases |ch|
  {
    if ch != [] {
      var next := Absorb(role, r, ch[0]);
      if next == Bad {
        BadStaysBad(role, ch[1..]);
      }
      if next.Open? {
        FlowAfterEof(role, next, ch[1..]);
      }
    }
  }

  lemma {:induction false} FlowExtends(role: Role, r: Reception, ch: seq<Packet>)
    requires r.Open? && forall i :: 0 <= i < |ch| ==> !ch[i].Announce?
    ensures r.bytes <= Flow(role, r, ch)
    ensures Fold(role, r, ch).Open? ==> r.eof ==> Fold(role, r, ch).eof
    decreases |ch|
  {
    if ch != [] {
      var next := Absorb(role, r, ch[0]);
      if next.Open? {
        FlowExtends(role, next, ch[1..]);
      } else {
        ShutStaysShut(role, next, ch[1..]);
      }
    }
  }

  lemma {:induction false} WillHas(operation: int, role: Role, r: Reception, ch: seq<Packet>)
    requires Will(operation, role, r, ch)
    ensures HasControl(ch, operation)
    decreases |ch|
  {
    if !(r.Open? && IsControl(ch[0], operation)) {
      WillHas(operation, role, Absorb(role, r, ch[0]), ch[1..]);
      var i :| 0 <= i < |ch[1..]| && IsControl(ch[1..][i], operation);
      assert IsControl(ch[i + 1], operation);
    }
  }

  lemma HasControlAppend(ch: seq<Packet>, p: Packet, operation: int)
    ensures HasControl(ch + [p], operation) <==> HasControl(ch, operation) || IsControl(p, operation)
  {
    if HasControl(ch, operation) {
      var i :| 0 <= i < |ch| && IsControl(ch[i], operation);
      assert IsControl((ch + [p])[i], operation);
    }
    assert (ch + [p])[|ch|] == p;
  }

  lemma HasControlPop(ch: seq<Packet>, operation: int)
    requires ch != []
    ensures HasControl(ch, operation) <==> IsControl(ch[0], operation) || HasControl(ch[1..], operation)
  {
    if HasControl(ch[1..], operation) {
      var i :| 0 <= i < |ch[1..]| && IsControl(ch[1..][i], operation);
      assert IsControl(ch[i + 1], operation);
    }
    if HasControl(ch, operation) && !IsControl(ch[0], operation) {
      var i :| 0 <= i < |ch| && IsControl(ch[i], operation);
      assert IsControl(ch[1..][i - 1], operation);
    }
  }

  // ---------------------------------------------------------------- the invariant

  /** The announcement is on the wire. */
  predicate HasAnnounced(l: Local) {
    l.stream.Some? && l.stream.value.task != Created && l.stream.value.task != Announcing
  }

  predicate Unannounced(l: Local) {
    l.stream.Some? && !HasAnnounced(l)
  }

  /** A response or confirmation has been written. */
  predicate ClosedOut(l: Local) {
    l.stream.Some? && ((l.stream.value.remoteDisconnect && !l.receiver.Responding?)
                       || l.receiver.Stopping? || l.receiver.Awaiting?)
  }

  /** Nothing received, nothing learnt. */
  predicate Untouched(s: Stream) {
    s.receiveSequence == 0 && s.sink == [] && !s.remoteDisconnect
  }

  /** The bytes and the number of data packets the sender has put on the wire. */
  predicate Matches(s: Stream, f: Reception)
    requires f.Open?
  {
    if s.task.Sending?
    then f.next == s.task.sequence && f.bytes + s.task.data == s.read && s.sendSequence == f.next + 1
    else f.next == s.sendSequence && f.bytes == s.read
  }

  /** What the peer will have made of everything written so far. */
  predicate Carries(x: Local, f: Reception)
    requires x.stream.Some?
  {
    var s := x.stream.value;
    if ClosedOut(x) then f == Gone(s.remotePort, s.localPort)
    else
      && f.Open? && f.localPort == s.remotePort && f.remotePort == s.localPort
      && (f.eof ==> s.task == Done)
      && (s.task == Done && !s.remoteDisconnect ==> f.eof)
      && Matches(s, f)
  }

  predicate Quiet(v: View) {
    v.xy == [] && v.yx == [] && v.x.receiver == Idle && v.y.receiver == Idle
  }

  predicate Awaited(y: Local, yx: seq<Packet>) {
    Unannounced(y) || AnnounceAtHead(yx)
  }

  /** Channel x to y. */
  predicate Channel(v: View) {
    var f := Fold(v.y.role, ReceptionOf(v.y), v.xy);
    && v.y.role == Peer(v.x.role)
    && f != Bad
    && NoLaterAnnounce(v.xy)
    && (HasAnnounced(v.x) ==> Carries(v.x, f))
    && (v.x.stream.None? && !Awaited(v.y, v.yx) ==> f.Gone? || f.Fresh?)
  }

  /** Before the peer has opened the stream. */
  predicate Opening(v: View) {
    && (Unannounced(v.x) ==>
          && Quiet(v) && v.y.stream.None? && v.x.role == Listener
          && Untouched(v.x.stream.value) && v.x.stream.value.sendSequence == 0 && v.x.stream.value.read == [])
    && (AnnounceAtHead(v.xy) ==>
          && v.y.stream.None? && v.yx == [] && v.x.receiver == Idle && v.y.receiver == Idle
          && v.x.stream.Some? && Untouched(v.x.stream.value) && v.x.role == Listener
          && v.xy[0].announcement
             == MappingAnnouncement(v.x.stream.value.localPort, v.x.stream.value.remotePort, v.id))
  }

  /** Nobody waits for an answer that is not on its way. */
  predicate Answers(v: View) {
    v.x.stream.Some? ==>
      var s := v.x.stream.value;
      && (s.task == Done && !s.remoteDisconnect && v.x.receiver == Idle ==>
            || Will(DISCONNECT_REQUEST, v.y.role, ReceptionOf(v.y), v.xy)
            || v.y.receiver.Responding?
            || HasControl(v.yx, DISCONNECT_RESPONSE))
      && (s.remoteDisconnect && !v.x.receiver.Responding? && !Closing(v.x.receiver) ==>
            || Will(DISCONNECT_RESPONSE, v.y.role, ReceptionOf(v.y), v.xy)
            || v.y.receiver.Confirming?
            || HasControl(v.yx, DISCONNECT_CONFIRM))
  }

  /** A disconnect request is the last thing a forwarding task writes. */
  predicate Requests(v: View) {
    && (v.x.receiver != Idle ==> v.x.stream.Some?)
    && (v.x.stream.Some? ==>
          var s := v.x.stream.value;
          && (v.x.receiver.Confirming? || HasControl(v.yx, DISCONNECT_RESPONSE) ==> s.task == Done)
          && (v.y.stream.Some? && v.y.stream.value.remoteDisconnect ==> s.task == Done)
          && (HasControl(v.xy, DISCONNECT_REQUEST) ==> s.task == Done)
          && (v.x.receiver.Responding? ==> s.remoteDisconnect)
          && (v.x.receiver.Stopping? && !v.x.receiver.remove ==> s.remoteDisconnect)
          && (v.x.receiver.Awaiting? && !v.x.receiver.remove ==> s.remoteDisconnect))
  }

  /** The receiving socket holds a prefix of what the sender read, and all of it once the request is through. */
  predicate Bytewise(v: View) {
    v.x.stream.Some? ==>
      var s := v.x.stream.value;
      var r := ReceptionOf(v.y);
      && (v.y.stream.Some? ==> v.y.stream.value.sink <= s.read)
      && (v.y.stream.Some? && v.y.stream.value.remoteDisconnect ==> v.y.stream.value.sink == s.read)
      && (r.Open? ==> Flow(v.y.role, r, v.xy) <= s.read)
      && (r.Open? && (r.eof || Will(DISCONNECT_REQUEST, v.y.role, r, v.xy)) ==> Flow(v.y.role, r, v.xy) == s.read)
  }

  predicate Half(v: View) {
    Channel(v) && Opening(v) && Answers(v) && Requests(v) && Bytewise(v)
  }

  predicate PairInv(v: View) {
    Half(v) && Half(Swap(v))
  }

  // ---------------------------------------------------------------- consequences

  /** Open at both ends and still being read, or at neither. */
  predicate Settled(v: View) {
    || (v.x.stream.None? && v.y.stream.None?)
    || (v.x.stream.Some? && v.y.stream.Some?
        && v.x.stream.value.task == Reading && v.y.stream.value.task == Reading
        && !v.x.stream.value.remoteDisconnect && !v.y.stream.value.remoteDisconnect)
  }

  predicate AtRest(l: Local) {
    l.stream.Some? ==> l.stream.value.task == Reading || l.stream.value.task == Done
  }

  lemma QuietIsSettled(v: View)
    requires PairInv(v) && Quiet(v) && AtRest(v.x) && AtRest(v.y)
    ensures Settled(v)
  {
  }
}
