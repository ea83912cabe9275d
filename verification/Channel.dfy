/** Every packet the multiplexer writes, through every layer of the wire stack. */
module Channel {
  import opened Bytes
  import opened Framing
  import opened Tunnel
  import opened Mux
  import FullStack
  import MuxRuns
  import TwoParty

  // ---------------------------------------------------------------- one packet

  function Encoded(p: Packet, c: TunnelCipher): Result<BasePacket, TunnelError> {
    match p
    case Announce(a) => AnnouncementPacket(a)
    case Data(frame) => EncodeTunnelPacket(frame, c)
    case Keepalive(payload) => Ok(BasePacket(TUNNEL_KEEPALIVE, payload))
  }

  /** By command; what is neither a keepalive nor an announcement must be a data packet. */
  function Decoded(packet: BasePacket, c: TunnelCipher): Result<Packet, TunnelError> {
    if packet.command == TUNNEL_KEEPALIVE then Ok(Keepalive(packet.payload))
    else if packet.command == TUNNEL_ACCESS then
      match ParseAnnouncement(packet)
      case Err(error) => Err(error)
      case Ok(a) => Ok(Announce(a))
    else
      match DecodeTunnelPacket(packet, c)
      case Err(error) => Err(error)
      case Ok(frame) => Ok(Data(frame))
  }

  /** What a multiplexer writes, but for the size of its sequence numbers. */
  predicate Emittable(p: Packet) {
    match p
    case Announce(a) => ValidAnnouncement(a)
    case Data(frame) => ValidateHeader(frame.header) == None && |frame.payload| <= FullStack.STREAM_CHUNK_SIZE
    case Keepalive(payload) => payload == []
  }

  /** The sequence number fits the header field. */
  predicate Numberable(p: Packet) {
    p.Data? ==> p.frame.header.operation < 0x8000_0000
  }

  lemma DecodedOfEncoded(p: Packet, c: TunnelCipher)
    requires Inverse(c) && Emittable(p)
    ensures Encoded(p, c).Ok? <==> Numberable(p)
    ensures Encoded(p, c).Ok? ==> Encodable(Encoded(p, c).value) && Decoded(Encoded(p, c).value, c) == Ok(p)
    ensures Encoded(p, c).Ok? ==>
      Encoded(p, c).value.command == match p case Data(_) => 0x00 case Keepalive(_) => 0x01 case Announce(_) => 0x07
  {
    Ranges();
    match p
    case Announce(a) =>
      AnnouncementRoundTrip(a, Encoded(p, c).value);
    case Data(frame) =>
      HeaderRoundTrip(frame.header);
      if Numberable(p) {
        FullStack.OpenOfSeal([frame], c);
        TunnelPacketRoundTrip(frame, c, Encoded(p, c).value);
        EncryptedLength(c, frame.payload);
      }
    case Keepalive(_) =>
  }

  // ---------------------------------------------------------------- sequences

  predicate AllEmittable(packets: seq<Packet>) {
    forall i :: 0 <= i < |packets| ==> Emittable(packets[i])
  }

  predicate AllNumberable(packets: seq<Packet>) {
    forall i :: 0 <= i < |packets| ==> Numberable(packets[i])
  }

  /** The sender stops at the first packet it cannot encode. */
  function EncodeAll(packets: seq<Packet>, c: TunnelCipher): Result<seq<BasePacket>, TunnelError> {
    if packets == [] then Ok([])
    else
      match Encoded(packets[0], c)
      case Err(error) => Err(error)
      case Ok(packet) =>
        match EncodeAll(packets[1..], c)
        case Err(error) => Err(error)
        case Ok(rest) => Ok([packet] + rest)
  }

  function DecodeAll(packets: seq<BasePacket>, c: TunnelCipher): Result<seq<Packet>, TunnelError> {
    if packets == [] then Ok([])
    else
      match Decoded(packets[0], c)
      case Err(error) => Err(error)
      case Ok(packet) =>
        match DecodeAll(packets[1..], c)
        case Err(error) => Err(error)
        case Ok(rest) => Ok([packet] + rest)
  }

  /** Encoding fails exactly on a sequence number beyond the field. */
  lemma {:induction false} EncodeAllSucceeds(packets: seq<Packet>, c: TunnelCipher)
    requires Inverse(c) && AllEmittable(packets)
    ensures EncodeAll(packets, c).Ok? <==> AllNumberable(packets)
    ensures EncodeAll(packets, c).Ok? ==>
      |EncodeAll(packets, c).value| == |packets| && AllEncodable(EncodeAll(packets, c).value)
  {
    if packets != [] {
      DecodedOfEncoded(packets[0], c);
      EncodeAllSucceeds(packets[1..], c);
      assert forall i :: 1 <= i < |packets| ==> packets[i] == packets[1..][i - 1];
    }
  }

  /** Any first part of what was encoded decodes to that part. */
  lemma {:induction false} DecodeOfEncodeAll(packets: seq<Packet>, c: TunnelCipher, n: nat)
    requires Inverse(c) && AllEmittable(packets) && EncodeAll(packets, c).Ok? && n <= |packets|
    ensures |EncodeAll(packets, c).value| == |packets|
    ensures DecodeAll(EncodeAll(packets, c).value[..n], c) == Ok(packets[..n])
  {
    EncodeAllSucceeds(packets, c);
    if n > 0 {
      DecodedOfEncoded(packets[0], c);
      DecodeOfEncodeAll(packets[1..], c, n - 1);
      var first, rest := Encoded(packets[0], c).value, EncodeAll(packets[1..], c).value;
      TakeOfCons(first, rest, n);
      TakeOfCons(packets[0], packets[1..], n);
      assert packets == [packets[0]] + packets[1..];
      DecodeCons(first, rest[..n - 1], c);
    }
  }

  lemma TakeOfCons<T>(first: T, rest: seq<T>, n: nat)
    requires 0 < n <= |rest| + 1
    ensures ([first] + rest)[..n] == [first] + rest[..n - 1]
  {
  }

  lemma DecodeCons(first: BasePacket, rest: seq<BasePacket>, c: TunnelCipher)
    requires Decoded(first, c).Ok? && DecodeAll(rest, c).Ok?
    ensures DecodeAll([first] + rest, c) == Ok([Decoded(first, c).value] + DecodeAll(rest, c).value)
  {
    assert ([first] + rest)[1..] == rest;
  }

  /**
    Packets a multiplexer may write, encoded, framed and cut in any way: the receiver that has seen all of the
    bytes has exactly these packets, and one that has seen part of them a first part of the packets.
  */
  lemma ChannelRoundTrip(packets: seq<Packet>, c: TunnelCipher, cuts: seq<seq<byte>>, unseen: seq<byte>)
    requires Inverse(c) && AllEmittable(packets)
    ensures EncodeAll(packets, c).Ok? <==> AllNumberable(packets)
    ensures EncodeAll(packets, c).Ok? ==>
      var encoded := EncodeAll(packets, c).value;
      var received := FeedAll([], cuts, true);
      && AllEncodable(encoded)
      && (Concat(cuts) + unseen == Wire(encoded, true) ==>
            && received.valid && |received.packets| <= |packets|
            && DecodeAll(received.packets, c) == Ok(packets[..|received.packets|])
            && (unseen == [] ==> received.rest == [] && DecodeAll(received.packets, c) == Ok(packets)))
  {
    EncodeAllSucceeds(packets, c);
    if EncodeAll(packets, c).Ok? {
      var encoded := EncodeAll(packets, c).value;
      if Concat(cuts) + unseen == Wire(encoded, true) {
        FullStack.AnyCut(encoded, cuts, unseen);
        PrefixDecodes(packets, c, FeedAll([], cuts, true).packets);
      }
    }
  }

  lemma PrefixDecodes(packets: seq<Packet>, c: TunnelCipher, received: seq<BasePacket>)
    requires Inverse(c) && AllEmittable(packets) && EncodeAll(packets, c).Ok? && received <= EncodeAll(packets, c).value
    ensures |EncodeAll(packets, c).value| == |packets|
    ensures |received| <= |packets| && DecodeAll(received, c) == Ok(packets[..|received|])
    ensures received == EncodeAll(packets, c).value ==> DecodeAll(received, c) == Ok(packets)
  {
    var n := |received|;
    EncodeAllSucceeds(packets, c);
    DecodeOfEncodeAll(packets, c, n);
    assert received == EncodeAll(packets, c).value[..n];
    assert packets[..|packets|] == packets;
  }

  // ---------------------------------------------------------------- what is written

  /** Every stream can be put into a header, and no chunk waiting to be sent is larger than a read. */
  ghost predicate Ready(e: Endpoint) {
    forall id :: id in e.streams ==> ReadyStream(id, e.streams[id])
  }

  predicate ReadyStream(id: int, s: Stream) {
    && ValidRequestId(id) && ValidPort(s.localPort) && ValidPort(s.remotePort)
    && (s.task.Sending? ==> |s.task.data| <= FullStack.STREAM_CHUNK_SIZE)
  }

  /** Only a camera opens streams by announcement, and only valid ones decode. */
  predicate Acceptable(e: Endpoint, a: Action) {
    a.Deliver? && a.packet.Announce? && e.role == Connector ==> ValidAnnouncement(a.packet.announcement)
  }

  lemma StepStaysReady(e: Endpoint, a: Action)
    requires Ready(e) && Enabled(e, a) && Acceptable(e, a)
    ensures Ready(Step(e, a).0)
  {
    if a.Deliver? {
      assert Step(e, a).0 == Receive(e, a.packet);
    }
  }

  lemma StepEmits(e: Endpoint, a: Action)
    requires Ready(e) && Enabled(e, a)
    ensures AllEmittable(Step(e, a).1)
  {
  }

  lemma {:induction false} RunEmits(e: Endpoint, actions: seq<Action>)
    requires e.role == Listener && Ready(e) && Legal(e, actions)
    ensures AllEmittable(Output(e, actions))
    decreases |actions|
  {
    if actions != [] {
      StepEmits(e, actions[0]);
      StepStaysReady(e, actions[0]);
      MuxRuns.StepKeepsRole(e, actions[0]);
      RunEmits(Step(e, actions[0]).0, actions[1..]);
    }
  }

  /**
    Everything any run of the integration writes, whatever it receives, survives encoding, framing and every
    cut as the same sequence of packets, unless a stream has sent 2^31 frames; then the sender fails.
  */
  lemma EveryRunIsCarried(actions: seq<Action>, c: TunnelCipher, cuts: seq<seq<byte>>, unseen: seq<byte>)
    requires Inverse(c) && Legal(Initial(Listener), actions)
    ensures var packets := Output(Initial(Listener), actions);
      && (EncodeAll(packets, c).Ok? <==> AllNumberable(packets))
      && (EncodeAll(packets, c).Ok? ==>
            var received := FeedAll([], cuts, true);
            && AllEncodable(EncodeAll(packets, c).value)
            && (Concat(cuts) + unseen == Wire(EncodeAll(packets, c).value, true) ==>
                  && received.valid && |received.packets| <= |packets|
                  && DecodeAll(received.packets, c) == Ok(packets[..|received.packets|])
                  && (unseen == [] ==> DecodeAll(received.packets, c) == Ok(packets))))
  {
    RunEmits(Initial(Listener), actions);
    ChannelRoundTrip(Output(Initial(Listener), actions), c, cuts, unseen);
  }

  // ---------------------------------------------------------------- both directions

  ghost predicate BothReady(s: TwoParty.System) {
    Ready(s.a) && Ready(s.b) && AllEmittable(s.ab) && AllEmittable(s.ba)
  }

  lemma ActStaysReady(s: TwoParty.System, action: Action)
    requires BothReady(s) && TwoParty.MayAct(s, action)
    ensures BothReady(TwoParty.Act(s, action))
  {
    StepStaysReady(s.a, action);
    StepEmits(s.a, action);
  }

  lemma {:induction false} RunStaysReady(s: TwoParty.System, moves: seq<TwoParty.Move>)
    requires BothReady(s) && TwoParty.LegalRun(s, moves)
    ensures BothReady(TwoParty.After(s, moves))
    decreases |moves|
  {
    if moves != [] {
      if moves[0].integration {
        ActStaysReady(s, moves[0].action);
      } else {
        ActStaysReady(TwoParty.Mirror(s), moves[0].action);
      }
      RunStaysReady(TwoParty.Apply(s, moves[0]), moves[1..]);
    }
  }

  /** Whatever is in flight in either direction of a two-party run can be carried as bytes. */
  lemma ChannelsCanBeBytes(moves: seq<TwoParty.Move>, c: TunnelCipher)
    requires Inverse(c) && TwoParty.LegalRun(TwoParty.Start(), moves)
    ensures var s := TwoParty.After(TwoParty.Start(), moves);
      && AllEmittable(s.ab) && AllEmittable(s.ba)
      && (EncodeAll(s.ab, c).Ok? <==> AllNumberable(s.ab))
      && (EncodeAll(s.ba, c).Ok? <==> AllNumberable(s.ba))
  {
    RunStaysReady(TwoParty.Start(), moves);
    var s := TwoParty.After(TwoParty.Start(), moves);
    EncodeAllSucceeds(s.ab, c);
    EncodeAllSucceeds(s.ba, c);
  }
}
