/** One mapped stream through every layer of the wire stack. */
module FullStack {
  import opened Bytes
  import opened Framing
  import opened Tunnel

  const STREAM_CHUNK_SIZE := 16 * 1024

  /** What one `reader.read` call may return before end of file. */
  predicate ReadSized(chunks: seq<seq<byte>>) {
    forall i :: 0 <= i < |chunks| ==> 1 <= |chunks[i]| <= STREAM_CHUNK_SIZE
  }

  function Numbered(h: TunnelHeader, chunks: seq<seq<byte>>): (frames: seq<TunnelFrame>)
    ensures |frames| == |chunks|
  {
    seq(|chunks|, i requires 0 <= i < |chunks| => TunnelFrame(h.(operation := i), chunks[i]))
  }

  /** Sender side: one data packet per frame, or the first error. */
  function Seal(frames: seq<TunnelFrame>, c: TunnelCipher): Result<seq<BasePacket>, TunnelError> {
    if frames == [] then Ok([])
    else
      match EncodeTunnelPacket(frames[0], c)
      case Err(error) => Err(error)
      case Ok(packet) =>
        match Seal(frames[1..], c)
        case Err(error) => Err(error)
        case Ok(packets) => Ok([packet] + packets)
  }

  /** Receiver side: one frame per packet, or the first error. */
  function Open(packets: seq<BasePacket>, c: TunnelCipher): Result<seq<TunnelFrame>, TunnelError> {
    if packets == [] then Ok([])
    else
      match DecodeTunnelPacket(packets[0], c)
      case Err(error) => Err(error)
      case Ok(frame) =>
        match Open(packets[1..], c)
        case Err(error) => Err(error)
        case Ok(frames) => Ok([frame] + frames)
  }

  lemma {:induction false} OpenOfSeal(frames: seq<TunnelFrame>, c: TunnelCipher)
    requires Inverse(c)
    requires forall i :: 0 <= i < |frames| ==> WireHeader(frames[i].header) && |frames[i].payload| <= STREAM_CHUNK_SIZE
    ensures Seal(frames, c).Ok?
    ensures var packets := Seal(frames, c).value;
      && AllEncodable(packets)
      && (forall p :: p in packets ==> |p.payload| <= 16 + STREAM_CHUNK_SIZE + 16)
      && Open(packets, c) == Ok(frames)
  {
    if frames != [] {
      var frame := frames[0];
      OpenOfSeal(frames[1..], c);
      HeaderRoundTrip(frame.header);
      var packet := EncodeTunnelPacket(frame, c).value;
      TunnelPacketRoundTrip(frame, c, packet);
      Ranges();
      assert Encodable(packet);
      var rest := Seal(frames[1..], c).value;
      assert ([packet] + rest)[1..] == rest;
      assert frames == [frame] + frames[1..];
    }
  }

  function Payloads(frames: seq<TunnelFrame>): seq<byte> {
    if frames == [] then [] else frames[0].payload + Payloads(frames[1..])
  }

  lemma {:induction false} PayloadsOfNumbered(frames: seq<TunnelFrame>, chunks: seq<seq<byte>>)
    requires |frames| == |chunks|
    requires forall i :: 0 <= i < |chunks| ==> frames[i].payload == chunks[i]
    ensures Payloads(frames) == Concat(chunks)
  {
    if frames != [] {
      PayloadsOfNumbered(frames[1..], chunks[1..]);
    }
  }

  /** A receiver that has seen part of a wire image, cut in any way, holds a prefix of its packets. */
  lemma AnyCut(packets: seq<BasePacket>, cuts: seq<seq<byte>>, unseen: seq<byte>)
    requires AllEncodable(packets)
    requires Concat(cuts) + unseen == Wire(packets, true)
    ensures var received := FeedAll([], cuts, true);
      && received.valid
      && received.packets <= packets
      && (unseen == [] ==> received == Drained(packets, [], true))
  {
    var stream := Wire(packets, true);
    assert stream + [] == stream;
    DrainOfWire(packets, [], true);
    ChunkingInvariance([], cuts, true);
    assert [] + Concat(cuts) == Concat(cuts);
    DrainTwice(Concat(cuts), unseen, true);
    if unseen == [] {
      assert Concat(cuts) == stream;
    }
  }

  /**
    Local bytes cut into reads, numbered, headered, padded, encrypted, masked and framed; then cut again in any
    way by TCP, buffered, unmasked, parsed and decrypted: the same frames in order, hence the same bytes.
    A receiver that has so far seen only part of the stream holds a prefix of the frames' packets.
  */
  lemma StackRoundTrip(h: TunnelHeader, chunks: seq<seq<byte>>, c: TunnelCipher, cuts: seq<seq<byte>>, unseen: seq<byte>)
    requires Inverse(c) && WireHeader(h)
    requires ReadSized(chunks) && |chunks| <= 0x8000_0000
    ensures Seal(Numbered(h, chunks), c).Ok?
    ensures AllEncodable(Seal(Numbered(h, chunks), c).value)
    ensures Payloads(Numbered(h, chunks)) == Concat(chunks)
    ensures forall i :: 0 <= i < |chunks| ==> Numbered(h, chunks)[i] == TunnelFrame(h.(operation := i), chunks[i])
    ensures var packets := Seal(Numbered(h, chunks), c).value;
      var received := FeedAll([], cuts, true);
      && (forall p :: p in packets ==> HEADER_LENGTH + |p.payload| <= MAX_PAYLOAD_LENGTH)
      && (Concat(cuts) + unseen == Wire(packets, true) ==>
            && received.valid
            && received.packets <= packets
            && (unseen == [] ==>
                  && received == Drained(packets, [], true)
                  && Open(received.packets, c) == Ok(Numbered(h, chunks))))
  {
    var frames := Numbered(h, chunks);
    OpenOfSeal(frames, c);
    PayloadsOfNumbered(frames, chunks);
    var packets := Seal(frames, c).value;
    if Concat(cuts) + unseen == Wire(packets, true) {
      AnyCut(packets, cuts, unseen);
    }
  }

  /** Sequence numbers past the signed 32-bit range are refused by the sender. */
  lemma {:induction false} SealRefusesLongStreams(frames: seq<TunnelFrame>, c: TunnelCipher, i: nat)
    requires i < |frames| && !WireHeader(frames[i].header)
    ensures Seal(frames, c).Err?
  {
    HeaderRoundTrip(frames[0].header);
    if i > 0 && EncodeTunnelPacket(frames[0], c).Ok? {
      SealRefusesLongStreams(frames[1..], c, i - 1);
    }
  }
}
