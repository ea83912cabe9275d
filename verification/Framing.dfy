/** CBasePacket framing: body mask, one-frame codec, the incremental TCP buffer and the stream reader. */
module Framing {
  import opened Bytes

  const HEADER_LENGTH := 8
  const MAX_PAYLOAD_LENGTH := 4 * 1024 * 1024
  const BODY_MASK := 0x350B

  const TUNNEL_DATA := 0x00
  const TUNNEL_KEEPALIVE := 0x01
  const KEY_EXCHANGE := 0x03
  const TUNNEL_ACCESS := 0x07
  const CONN_DIR_CONN_REQ := 0xCB
  const CONN_DIR_CONN_FORWARD := 0xCC

  datatype BasePacket = BasePacket(command: int, payload: seq<byte>)

  datatype FrameError = InvalidLength | CommandRange | TruncatedHeader | LengthMismatch

  // ---------------------------------------------------------------- body mask

  function MaskByte(i: nat): byte {
    if i % 4 == 0 then 0x0B else if i % 4 == 1 then 0x35 else 0
  }

  /** Bytes touched by the mask: everything but the last one to four. */
  function MaskedLength(n: nat): nat {
    if n == 0 then 0 else (n - 1) / 4 * 4
  }

  /** The mask byte by byte. */
  function Masked(data: seq<byte>): (r: seq<byte>)
    ensures |r| == |data|
  {
    seq(|data|, i requires 0 <= i < |data| =>
      if i < MaskedLength(|data|) then XorByte(data[i], MaskByte(i)) else data[i])
  }

  lemma MaskIsItsOwnInverse(data: seq<byte>)
    ensures Masked(Masked(data)) == data
  {
    forall i | 0 <= i < |data|
      ensures Masked(Masked(data))[i] == data[i]
    {
      XorSelfInverse(data[i], MaskByte(i));
    }
  }

  lemma TwoLowBytes(w: seq<byte>)
    requires |w| == 4
    ensures LeNat(w[1..]) == w[1] + 256 * LeNat(w[2..])
    ensures LeNat(w) == w[0] + 256 * LeNat(w[1..])
  {
    assert w[1..][1..] == w[2..];
  }

  /** Exclusive or of one little-endian word with the mask constant changes its bytes separately. */
  lemma WordMask(w: seq<byte>)
    requires |w| == 4
    ensures Xor(LeNat(w), BODY_MASK) < Pow256(4)
    ensures LeBytes(Xor(LeNat(w), BODY_MASK), 4) == [XorByte(w[0], 0x0B), XorByte(w[1], 0x35), w[2], w[3]]
  {
    var high, low := LeNat(w[2..]), LeNat(w[1..]);
    var patched := [XorByte(w[0], 0x0B), XorByte(w[1], 0x35), w[2], w[3]];
    assert patched[2..] == w[2..];
    TwoLowBytes(w);
    TwoLowBytes(patched);
    ByteRange();
    XorSplit(8, w[0], low, 0x0B, 0x35);
    XorSplit(8, w[1], high, 0x35, 0);
    XorZero(high);
    assert Xor(LeNat(w), BODY_MASK) == LeNat(patched);
    LeBytesOfLeNat(patched);
  }

  /** The native word loop over a mutable copy of the body. */
  method ApplyBodyMask(data: seq<byte>) returns (masked: seq<byte>)
    ensures masked == Masked(data)
  {
    var result := new byte[|data|](i requires 0 <= i < |data| => data[i]);
    var offset := 0;
    var remaining := result.Length;
    while remaining > 4
      invariant 0 <= offset <= |data| && offset + remaining == |data|
      invariant PartlyMasked(result[..], data, offset)
    {
      var word := result[offset..offset + 4];
      WordIsMasked(result[..], data, offset);
      StoreWord(result, offset, MaskWord(word));
      offset := offset + 4;
      remaining := remaining - 4;
    }
    masked := result[..];
    WhollyMasked(masked, data, offset);
  }

  /** The words before the offset are done and the rest is untouched. */
  ghost predicate PartlyMasked(current: seq<byte>, data: seq<byte>, offset: nat) {
    && |current| == |data| && offset % 4 == 0 && offset <= MaskedLength(|data|)
    && forall k :: 0 <= k < |data| ==> current[k] == if k < offset then Masked(data)[k] else data[k]
  }

  lemma WordIsMasked(current: seq<byte>, data: seq<byte>, offset: nat)
    requires PartlyMasked(current, data, offset) && offset + 4 < |data|
    ensures PartlyMasked(current[..offset] + MaskWord(current[offset..offset + 4]) + current[offset + 4..], data, offset + 4)
  {
    assert current[offset..offset + 4] == data[offset..offset + 4];
    MaskedWord(data, offset);
  }

  lemma WhollyMasked(current: seq<byte>, data: seq<byte>, offset: nat)
    requires PartlyMasked(current, data, offset) && |data| <= offset + 4
    ensures current == Masked(data)
  {
  }

  /** One word read little-endian, combined with the mask constant and written back. */
  function MaskWord(w: seq<byte>): (r: seq<byte>)
    requires |w| == 4
    ensures r == [XorByte(w[0], 0x0B), XorByte(w[1], 0x35), w[2], w[3]]
  {
    WordMask(w);
    LeBytes(Xor(LeNat(w), BODY_MASK), 4)
  }

  method StoreWord(a: array<byte>, offset: nat, w: seq<byte>)
    requires offset + 4 <= a.Length && |w| == 4
    modifies a
    ensures a[..] == old(a[..])[..offset] + w + old(a[..])[offset + 4..]
  {
    a[offset], a[offset + 1], a[offset + 2], a[offset + 3] := w[0], w[1], w[2], w[3];
  }

  lemma MaskedWord(data: seq<byte>, offset: nat)
    requires offset % 4 == 0 && offset + 4 < |data|
    ensures offset + 4 <= MaskedLength(|data|)
    ensures forall k :: offset <= k < offset + 4 ==> Masked(data)[k] == MaskWord(data[offset..offset + 4])[k - offset]
  {
    XorZero(data[offset + 2]);
    XorZero(data[offset + 3]);
    assert (offset + 1) % 4 == 1 && (offset + 2) % 4 == 2 && (offset + 3) % 4 == 3;
  }

  // ---------------------------------------------------------------- one frame

  predicate ValidLength(n: int) {
    0 <= n <= MAX_PAYLOAD_LENGTH
  }

  function Body(payload: seq<byte>, mask: bool): (r: seq<byte>)
    ensures |r| == |payload|
  {
    if mask then Masked(payload) else payload
  }

  lemma BodyIsItsOwnInverse(payload: seq<byte>, mask: bool)
    ensures Body(Body(payload, mask), mask) == payload
  {
    MaskIsItsOwnInverse(payload);
  }

  function EncodePacket(packet: BasePacket, mask: bool): (r: Result<seq<byte>, FrameError>)
    ensures r.Ok? ==> |r.value| == HEADER_LENGTH + |packet.payload|
  {
    Ranges();
    if !ValidLength(|packet.payload|) then Err(InvalidLength)
    else if !FitsSigned(packet.command, 4) then Err(CommandRange)
    else Ok(PackSigned(packet.command, 4) + PackSigned(|packet.payload|, 4) + Body(packet.payload, mask))
  }

  function DecodePacket(frame: seq<byte>, mask: bool): Result<BasePacket, FrameError> {
    if |frame| < HEADER_LENGTH then Err(TruncatedHeader)
    else
      var command, length := UnpackSigned(frame[..4]), UnpackSigned(frame[4..8]);
      if !ValidLength(length) then Err(InvalidLength)
      else if |frame| != HEADER_LENGTH + length then Err(LengthMismatch)
      else Ok(BasePacket(command, Body(frame[8..], mask)))
  }

  predicate Encodable(packet: BasePacket) {
    ValidLength(|packet.payload|) && FitsSigned(packet.command, 4)
  }

  /** Encoding succeeds exactly on encodable packets, and decoding undoes it. */
  lemma DecodeOfEncode(packet: BasePacket, mask: bool)
    ensures EncodePacket(packet, mask).Ok? <==> Encodable(packet)
    ensures Encodable(packet) ==> DecodePacket(EncodePacket(packet, mask).value, mask) == Ok(packet)
  {
    if Encodable(packet) {
      Ranges();
      var frame := EncodePacket(packet, mask).value;
      assert frame[..4] == PackSigned(packet.command, 4);
      assert frame[4..8] == PackSigned(|packet.payload|, 4);
      assert frame[8..] == Body(packet.payload, mask);
      UnpackOfPack(packet.command, 4);
      UnpackOfPack(|packet.payload|, 4);
      BodyIsItsOwnInverse(packet.payload, mask);
    }
  }

  /** Every frame that decodes is the encoding of what it decodes to. */
  lemma EncodeOfDecode(frame: seq<byte>, mask: bool)
    requires DecodePacket(frame, mask).Ok?
    ensures EncodePacket(DecodePacket(frame, mask).value, mask) == Ok(frame)
  {
    PackOfUnpack(frame[..4]);
    PackOfUnpack(frame[4..8]);
    BodyIsItsOwnInverse(frame[8..], mask);
    Ranges();
    assert frame == frame[..4] + frame[4..8] + frame[8..];
  }

  // ---------------------------------------------------------------- streams

  /** Outcome of consuming every complete frame at the head of a buffer. */
  datatype Drained = Drained(packets: seq<BasePacket>, rest: seq<byte>, valid: bool)

  /** No complete frame and no bad length at the head. */
  predicate Incomplete(buffer: seq<byte>) {
    |buffer| < HEADER_LENGTH ||
    (var length := UnpackSigned(buffer[4..8]); ValidLength(length) && |buffer| < HEADER_LENGTH + length)
  }

  /** A complete header whose length field is out of bounds. */
  predicate BadHead(buffer: seq<byte>) {
    |buffer| >= HEADER_LENGTH && !ValidLength(UnpackSigned(buffer[4..8]))
  }

  function FrameLength(buffer: seq<byte>): (n: nat)
    requires !Incomplete(buffer) && !BadHead(buffer)
    ensures HEADER_LENGTH <= n <= |buffer|
  {
    HEADER_LENGTH + UnpackSigned(buffer[4..8])
  }

  function HeadPacket(buffer: seq<byte>, mask: bool): (p: BasePacket)
    requires !Incomplete(buffer) && !BadHead(buffer)
  {
    HeadDecodes(buffer, mask);
    DecodePacket(buffer[..FrameLength(buffer)], mask).value
  }

  lemma HeadDecodes(buffer: seq<byte>, mask: bool)
    requires !Incomplete(buffer) && !BadHead(buffer)
    ensures DecodePacket(buffer[..FrameLength(buffer)], mask).Ok?
  {
    var frame := buffer[..FrameLength(buffer)];
    assert frame[4..8] == buffer[4..8];
  }

  function Drain(buffer: seq<byte>, mask: bool): Drained
    decreases |buffer|
  {
    if Incomplete(buffer) then Drained([], buffer, true)
    else if BadHead(buffer) then Drained([], buffer, false)
    else
      var d := Drain(buffer[FrameLength(buffer)..], mask);
      Drained([HeadPacket(buffer, mask)] + d.packets, d.rest, d.valid)
  }

  lemma DrainOne(buffer: seq<byte>, frameLength: nat, mask: bool)
    requires !Incomplete(buffer) && !BadHead(buffer) && frameLength == FrameLength(buffer)
    ensures DecodePacket(buffer[..frameLength], mask).Ok?
    ensures var d := Drain(buffer[frameLength..], mask);
      Drain(buffer, mask) == Drained([DecodePacket(buffer[..frameLength], mask).value] + d.packets, d.rest, d.valid)
  {
    HeadDecodes(buffer, mask);
  }

  predicate AllEncodable(packets: seq<BasePacket>) {
    forall p :: p in packets ==> Encodable(p)
  }

  /** The wire image of a packet sequence. */
  function Wire(packets: seq<BasePacket>, mask: bool): seq<byte>
    requires AllEncodable(packets)
  {
    if packets == [] then [] else
      DecodeOfEncode(packets[0], mask);
      EncodePacket(packets[0], mask).value + Wire(packets[1..], mask)
  }

  lemma HeadOfFrame(packet: BasePacket, rest: seq<byte>, mask: bool)
    requires Encodable(packet)
    ensures EncodePacket(packet, mask).Ok?
    ensures var frame := EncodePacket(packet, mask).value;
      var buffer := frame + rest;
      && !Incomplete(buffer) && !BadHead(buffer)
      && FrameLength(buffer) == |frame|
      && HeadPacket(buffer, mask) == packet
  {
    DecodeOfEncode(packet, mask);
    var frame := EncodePacket(packet, mask).value;
    var buffer := frame + rest;
    Ranges();
    UnpackOfPack(|packet.payload|, 4);
    assert buffer[4..8] == PackSigned(|packet.payload|, 4);
    assert buffer[..|frame|] == frame;
  }

  lemma FrameOfHead(buffer: seq<byte>, mask: bool)
    requires !Incomplete(buffer) && !BadHead(buffer)
    ensures Encodable(HeadPacket(buffer, mask))
    ensures EncodePacket(HeadPacket(buffer, mask), mask) == Ok(buffer[..FrameLength(buffer)])
  {
    HeadDecodes(buffer, mask);
    EncodeOfDecode(buffer[..FrameLength(buffer)], mask);
    DecodeOfEncode(HeadPacket(buffer, mask), mask);
  }

  /** The buffer is the wire image of the packets, then an unfinished frame or a bad length. */
  ghost predicate Explains(buffer: seq<byte>, d: Drained, mask: bool) {
    && AllEncodable(d.packets)
    && buffer == Wire(d.packets, mask) + d.rest
    && (if d.valid then Incomplete(d.rest) else BadHead(d.rest))
  }

  /** Draining a wire image plus an unfinished or bad tail gives the packets and that tail back. */
  lemma {:induction false} DrainOfWire(packets: seq<BasePacket>, tail: seq<byte>, mask: bool)
    requires AllEncodable(packets)
    requires Incomplete(tail) || BadHead(tail)
    ensures Drain(Wire(packets, mask) + tail, mask) == Drained(packets, tail, Incomplete(tail))
  {
    if packets == [] {
      assert Wire(packets, mask) + tail == tail;
    } else {
      var rest := Wire(packets[1..], mask) + tail;
      HeadOfFrame(packets[0], rest, mask);
      var frame := EncodePacket(packets[0], mask).value;
      assert Wire(packets, mask) + tail == frame + rest;
      assert (frame + rest)[|frame|..] == rest;
      DrainOfWire(packets[1..], tail, mask);
    }
  }

  /** Conversely, what was drained explains the buffer. */
  lemma {:induction false} DrainExplains(buffer: seq<byte>, mask: bool)
    ensures Explains(buffer, Drain(buffer, mask), mask)
    decreases |buffer|
  {
    if Incomplete(buffer) || BadHead(buffer) {
      assert buffer == [] + buffer;
    } else {
      var n := FrameLength(buffer);
      DrainExplains(buffer[n..], mask);
      FrameOfHead(buffer, mask);
      ExplainsCons(buffer, n, HeadPacket(buffer, mask), Drain(buffer[n..], mask), mask);
    }
  }

  /** Draining is the only outcome that explains the buffer. */
  lemma DrainIsExact(buffer: seq<byte>, d: Drained, mask: bool)
    ensures Explains(buffer, d, mask) <==> d == Drain(buffer, mask)
  {
    DrainExplains(buffer, mask);
    if Explains(buffer, d, mask) {
      DrainOfWire(d.packets, d.rest, mask);
    }
  }

  lemma ExplainsCons(buffer: seq<byte>, n: nat, head: BasePacket, e: Drained, mask: bool)
    requires n <= |buffer| && Encodable(head) && EncodePacket(head, mask) == Ok(buffer[..n])
    requires Explains(buffer[n..], e, mask)
    ensures Explains(buffer, Drained([head] + e.packets, e.rest, e.valid), mask)
  {
    assert ([head] + e.packets)[1..] == e.packets;
    assert buffer == buffer[..n] + (Wire(e.packets, mask) + e.rest);
  }

  lemma BadHeadStays(buffer: seq<byte>, more: seq<byte>)
    requires BadHead(buffer)
    ensures BadHead(buffer + more) && !Incomplete(buffer + more)
  {
    assert (buffer + more)[4..8] == buffer[4..8];
  }

  lemma DrainTwice(first: seq<byte>, second: seq<byte>, mask: bool)
    ensures var d := Drain(first, mask);
      var e := Drain(d.rest + second, mask);
      Drain(first + second, mask) ==
        if d.valid then Drained(d.packets + e.packets, e.rest, e.valid)
        else Drained(d.packets, d.rest + second, false)
  {
    var d := Drain(first, mask);
    DrainExplains(first, mask);
    assert first + second == Wire(d.packets, mask) + (d.rest + second);
    if d.valid {
      DrainExplains(d.rest + second, mask);
      var e := Drain(d.rest + second, mask);
      ExplainsConcat(first + second, d.packets, d.rest + second, e, mask);
      DrainIsExact(first + second, Drained(d.packets + e.packets, e.rest, e.valid), mask);
    } else {
      BadHeadStays(d.rest, second);
      DrainOfWire(d.packets, d.rest + second, mask);
    }
  }

  lemma ExplainsConcat(buffer: seq<byte>, packets: seq<BasePacket>, more: seq<byte>, e: Drained, mask: bool)
    requires AllEncodable(packets) && buffer == Wire(packets, mask) + more
    requires Explains(more, e, mask)
    ensures Explains(buffer, Drained(packets + e.packets, e.rest, e.valid), mask)
  {
    WireOfConcat(packets, e.packets, mask);
  }

  lemma {:induction false} WireOfConcat(first: seq<BasePacket>, second: seq<BasePacket>, mask: bool)
    requires AllEncodable(first) && AllEncodable(second)
    ensures AllEncodable(first + second)
    ensures Wire(first + second, mask) == Wire(first, mask) + Wire(second, mask)
  {
    if first == [] {
      assert first + second == second;
    } else {
      assert (first + second)[1..] == first[1..] + second;
      WireOfConcat(first[1..], second, mask);
    }
  }

  /** The incremental decoder. */
  class BasePacketBuffer {
    var buffer: seq<byte>
    const unmask: bool

    constructor (unmask: bool)
      ensures buffer == [] && this.unmask == unmask
    {
      buffer := [];
      this.unmask := unmask;
    }

    function PendingBytes(): nat
      reads this
    {
      |buffer|
    }

    /** A raising call keeps the bad tail and drops the packets it had already decoded. */
    method Feed(data: seq<byte>) returns (result: Result<seq<BasePacket>, FrameError>)
      modifies this
      ensures var d := Drain(old(buffer) + data, unmask);
        && buffer == d.rest
        && result == if d.valid then Ok(d.packets) else Err(InvalidLength)
    {
      buffer := buffer + data;
      var packets: seq<BasePacket> := [];
      ghost var whole := Drain(buffer, unmask);
      while |buffer| >= HEADER_LENGTH
        invariant whole.packets == packets + Drain(buffer, unmask).packets
        invariant whole.rest == Drain(buffer, unmask).rest
        invariant whole.valid == Drain(buffer, unmask).valid
        decreases |buffer|
      {
        var length := UnpackSigned(buffer[4..8]);
        if !ValidLength(length) {
          assert BadHead(buffer);
          return Err(InvalidLength);
        }
        var frameLength := HEADER_LENGTH + length;
        if |buffer| < frameLength {
          break;
        }
        var frame := buffer[..frameLength];
        DrainOne(buffer, frameLength, unmask);
        Regroup(packets, [DecodePacket(frame, unmask).value], Drain(buffer[frameLength..], unmask).packets);
        packets := packets + [DecodePacket(frame, unmask).value];
        buffer := buffer[frameLength..];
      }
      assert Incomplete(buffer);
      assert packets + [] == packets;
      return Ok(packets);
    }
  }

  function Concat(chunks: seq<seq<byte>>): seq<byte> {
    if chunks == [] then [] else chunks[0] + Concat(chunks[1..])
  }

  /** The results of feeding chunks one call after the other, up to the first call that raises. */
  function FeedAll(pending: seq<byte>, chunks: seq<seq<byte>>, mask: bool): Drained
    decreases |chunks|
  {
    if chunks == [] then Drained([], pending, true)
    else
      var d := Drain(pending + chunks[0], mask);
      if !d.valid then Drained([], d.rest, false)
      else
        var e := FeedAll(d.rest, chunks[1..], mask);
        Drained(d.packets + e.packets, e.rest, e.valid)
  }

  /** What the raising call had decoded before it met the bad length; nothing when no call raises. */
  function Lost(pending: seq<byte>, chunks: seq<seq<byte>>, mask: bool): seq<BasePacket>
    decreases |chunks|
  {
    if chunks == [] then []
    else
      var d := Drain(pending + chunks[0], mask);
      if d.valid then Lost(d.rest, chunks[1..], mask) else d.packets
  }

  /**
    How TCP cuts a valid stream does not matter. On a stream with a bad length some call raises, and what is
    returned and what that call loses are together the packets before the bad length.
  */
  lemma {:induction false} ChunkingInvariance(pending: seq<byte>, chunks: seq<seq<byte>>, mask: bool)
    requires Incomplete(pending)
    ensures var fed, whole := FeedAll(pending, chunks, mask), Drain(pending + Concat(chunks), mask);
      && fed.valid == whole.valid
      && fed.packets + Lost(pending, chunks, mask) == whole.packets
      && (whole.valid ==> fed == whole && Lost(pending, chunks, mask) == [])
    decreases |chunks|
  {
    if chunks == [] {
      assert pending + Concat(chunks) == pending;
    } else {
      var first := pending + chunks[0];
      var d := Drain(first, mask);
      assert first + Concat(chunks[1..]) == pending + Concat(chunks);
      DrainTwice(first, Concat(chunks[1..]), mask);
      DrainExplains(first, mask);
      if d.valid {
        ChunkingInvariance(d.rest, chunks[1..], mask);
        Regroup(d.packets, FeedAll(d.rest, chunks[1..], mask).packets, Lost(d.rest, chunks[1..], mask));
      }
    }
  }

  lemma Regroup(a: seq<BasePacket>, b: seq<BasePacket>, c: seq<BasePacket>)
    ensures (a + b) + c == a + (b + c)
  {
  }

  /** A cut loses packets exactly when the call that raises has completed a frame. */
  lemma LossOfACut(chunks: seq<seq<byte>>, mask: bool)
    ensures FeedAll([], chunks, mask).packets == Drain(Concat(chunks), mask).packets <==> Lost([], chunks, mask) == []
  {
    ChunkingInvariance([], chunks, mask);
    assert [] + Concat(chunks) == Concat(chunks);
    var fed := FeedAll([], chunks, mask).packets;
    assert Lost([], chunks, mask) == [] ==> fed + [] == fed;
    assert |fed + Lost([], chunks, mask)| == |fed| + |Lost([], chunks, mask)|;
  }

  /** No cut of a stream loses anything exactly when the stream is valid or has no packet before its bad length. */
  lemma LossUnderSomeCut(stream: seq<byte>, mask: bool)
    ensures (forall chunks :: Concat(chunks) == stream ==> FeedAll([], chunks, mask).packets == Drain(stream, mask).packets)
       <==> Drain(stream, mask).valid || Drain(stream, mask).packets == []
  {
    var whole := Drain(stream, mask);
    forall chunks | Concat(chunks) == stream && (whole.valid || whole.packets == [])
      ensures FeedAll([], chunks, mask).packets == whole.packets
    {
      ChunkingInvariance([], chunks, mask);
      assert [] + Concat(chunks) == stream;
    }
    var one := [stream];
    assert one[1..] == [] && [] + stream == stream;
    assert Concat(one) == stream + Concat([]) == stream;
    if !whole.valid {
      assert FeedAll([], one, mask).packets == [];
    }
  }

  /** One bad stream, two cuts: fed whole it loses the packet before the bad length, fed frame by frame it does not. */
  lemma LossDependsOnTheCut(packet: BasePacket, bad: seq<byte>, mask: bool)
    requires Encodable(packet) && BadHead(bad)
    ensures EncodePacket(packet, mask).Ok?
    ensures var frame := EncodePacket(packet, mask).value;
      && Drain(frame + bad, mask) == Drained([packet], bad, false)
      && FeedAll([], [frame + bad], mask) == Drained([], bad, false)
      && FeedAll([], [frame, bad], mask) == Drained([packet], bad, false)
  {
    HeadOfFrame(packet, bad, mask);
    HeadOfFrame(packet, [], mask);
    var frame := EncodePacket(packet, mask).value;
    assert frame + [] == frame && frame[|frame|..] == [] && (frame + bad)[|frame|..] == bad;
    assert [] + frame == frame && [] + bad == bad && [] + (frame + bad) == frame + bad;
    assert Drain(bad, mask) == Drained([], bad, false);
    assert Drain(frame, mask) == Drained([packet], [], true);
    assert [frame, bad][1..] == [bad];
    assert FeedAll([], [bad], mask) == Drained([], bad, false);
  }

  // ---------------------------------------------------------------- stream reader

  datatype ReadOutcome = Packet(packet: BasePacket, rest: seq<byte>) | Starved | Invalid

  /** One `async_read_packet` on a reader that holds `stream` and then ends. */
  function ReadPacket(stream: seq<byte>, mask: bool): ReadOutcome {
    if |stream| < HEADER_LENGTH then Starved
    else
      var command, length := UnpackSigned(stream[..4]), UnpackSigned(stream[4..8]);
      if !ValidLength(length) then Invalid
      else if |stream| < HEADER_LENGTH + length then Starved
      else Packet(BasePacket(command, Body(stream[8..8 + length], mask)), stream[8 + length..])
  }

  function ReadAll(stream: seq<byte>, mask: bool): (seq<BasePacket>, ReadOutcome)
    decreases |stream|
  {
    match ReadPacket(stream, mask)
    case Packet(packet, rest) => var (packets, end) := ReadAll(rest, mask); ([packet] + packets, end)
    case end => ([], end)
  }

  /** Reading packet by packet gives what the buffer gives, and ends where the buffer waits or raises. */
  lemma {:induction false} ReaderAgreesWithBuffer(stream: seq<byte>, mask: bool)
    ensures var d := Drain(stream, mask);
      ReadAll(stream, mask) == (d.packets, if d.valid then Starved else Invalid)
    decreases |stream|
  {
    if !Incomplete(stream) && !BadHead(stream) {
      var n := FrameLength(stream);
      HeadDecodes(stream, mask);
      assert stream[..n][..4] == stream[..4] && stream[..n][4..8] == stream[4..8];
      assert stream[..n][8..] == stream[8..n];
      ReaderAgreesWithBuffer(stream[n..], mask);
    }
  }
}
