/** What the wire carries, byte by byte and in plain arithmetic. */
module Layout {
  import opened Bytes
  import opened Text
  import opened Framing
  import opened Crypto
  import opened Tunnel
  import opened Handshake

  // ---------------------------------------------------------------- integers

  function Le2(s: seq<byte>, at: nat): int
    requires at + 2 <= |s|
  {
    s[at] as int + 0x100 * s[at + 1] as int
  }

  function Le4(s: seq<byte>, at: nat): int
    requires at + 4 <= |s|
  {
    s[at] as int + 0x100 * s[at + 1] as int + 0x1_0000 * s[at + 2] as int + 0x100_0000 * s[at + 3] as int
  }

  function Le8(s: seq<byte>, at: nat): int
    requires at + 8 <= |s|
  {
    Le4(s, at) + 0x1_0000_0000 * Le4(s, at + 4)
  }

  /** Two's complement in 32 and in 64 bits. */
  function Wrap4(v: int): int {
    if v < 0 then v + 0x1_0000_0000 else v
  }

  function Wrap8(v: int): int {
    if v < 0 then v + 0x1_0000_0000_0000_0000 else v
  }

  lemma NatOfTwo(s: seq<byte>)
    requires |s| == 2
    ensures LeNat(s) == Le2(s, 0)
  {
    assert s[1..][1..] == [];
  }

  lemma NatOfFour(s: seq<byte>)
    requires |s| == 4
    ensures LeNat(s) == Le4(s, 0)
  {
    NatOfTwo(s[2..]);
    assert s[1..][1..] == s[2..];
  }

  lemma NatOfEight(s: seq<byte>)
    requires |s| == 8
    ensures LeNat(s) == Le8(s, 0)
  {
    NatOfFour(s[4..]);
    assert s[1..][1..] == s[2..] && s[2..][1..] == s[3..] && s[3..][1..] == s[4..];
    assert LeNat(s[3..]) == s[3] + 256 * LeNat(s[4..]);
    assert LeNat(s[2..]) == s[2] + 256 * LeNat(s[3..]);
    assert LeNat(s[1..]) == s[1] + 256 * LeNat(s[2..]);
  }

  lemma Powers()
    ensures Pow256(2) == 0x1_0000 && Pow256(4) == 0x1_0000_0000 && Pow256(8) == 0x1_0000_0000_0000_0000
  {
    Ranges();
    assert Pow256(8) == 256 * Pow256(7);
  }

  lemma PackedFour(v: int)
    requires FitsSigned(v, 4)
    ensures Le4(PackSigned(v, 4), 0) == Wrap4(v)
    ensures -0x8000_0000 <= v < 0x8000_0000
  {
    Powers();
    LeNatOfLeBytes(Wrap4(v), 4);
    NatOfFour(PackSigned(v, 4));
  }

  lemma PackedEight(v: int)
    requires FitsSigned(v, 8)
    ensures Le8(PackSigned(v, 8), 0) == Wrap8(v)
  {
    Powers();
    LeNatOfLeBytes(Wrap8(v), 8);
    NatOfEight(PackSigned(v, 8));
  }

  lemma UnpackedFour(s: seq<byte>)
    requires |s| == 4
    ensures Wrap4(UnpackSigned(s)) == Le4(s, 0) && -0x8000_0000 <= UnpackSigned(s) < 0x8000_0000
  {
    Powers();
    NatOfFour(s);
    UnpackFits(s);
  }

  lemma UnpackedEight(s: seq<byte>)
    requires |s| == 8
    ensures Wrap8(UnpackSigned(s)) == Le8(s, 0)
  {
    Powers();
    NatOfEight(s);
    UnpackFits(s);
  }

  /** Bit k of an exclusive or. */
  lemma {:induction false} XorBitwise(a: nat, b: nat, k: nat)
    ensures Xor(a, b) / Pow2(k) % 2 == (a / Pow2(k) % 2 + b / Pow2(k) % 2) % 2
    decreases k
  {
    XorBits(a, b);
    if k > 0 {
      XorBitwise(a / 2, b / 2, k - 1);
      HalfFirst(Xor(a, b), Pow2(k - 1));
      HalfFirst(a, Pow2(k - 1));
      HalfFirst(b, Pow2(k - 1));
    }
  }

  lemma HalfFirst(a: nat, p: nat)
    requires p > 0
    ensures a / (2 * p) == a / 2 / p
  {
    var q, r := a / (2 * p), a % (2 * p);
    assert a == 2 * p * q + r;
    assert a / 2 == p * q + r / 2 by {
      assert a == 2 * (p * q) + r;
    }
    Euclid(a / 2, p, q, r / 2);
  }

  // ---------------------------------------------------------------- base frames

  /** The byte at place i of a body of n bytes, as it travels. */
  function Travels(b: byte, i: nat, n: nat, mask: bool): byte {
    if !mask || i >= (n - 1) / 4 * 4 || i % 4 >= 2 then b
    else XorByte(b, if i % 4 == 0 then 0x0B else 0x35)
  }

  lemma MaskedBody(payload: seq<byte>, mask: bool)
    ensures forall i :: 0 <= i < |payload| ==> Body(payload, mask)[i] == Travels(payload[i], i, |payload|, mask)
  {
    forall i | 0 <= i < |payload|
      ensures Body(payload, mask)[i] == Travels(payload[i], i, |payload|, mask)
    {
      XorZero(payload[i]);
    }
  }

  /** An encoded frame: command and length as little-endian 32-bit integers, then the body under the mask. */
  lemma FrameBytes(packet: BasePacket, mask: bool)
    requires EncodePacket(packet, mask).Ok?
    ensures var frame, n := EncodePacket(packet, mask).value, |packet.payload|;
      && |frame| == 8 + n
      && Le4(frame, 0) == Wrap4(packet.command) && Le4(frame, 4) == n
      && (forall i :: 0 <= i < n ==> frame[8 + i] == Travels(packet.payload[i], i, n, mask))
  {
    var frame := EncodePacket(packet, mask).value;
    Ranges();
    PackedFour(packet.command);
    PackedFour(|packet.payload|);
    assert frame[..4] == PackSigned(packet.command, 4) && frame[4..8] == PackSigned(|packet.payload|, 4);
    assert Le4(frame, 0) == Le4(frame[..4], 0) && Le4(frame, 4) == Le4(frame[4..8], 0);
    MaskedBody(packet.payload, mask);
    assert frame[8..] == Body(packet.payload, mask);
  }

  /** A frame decodes exactly when its length field says how long it is, within the limit. */
  lemma DecodedBytes(frame: seq<byte>, mask: bool)
    ensures DecodePacket(frame, mask).Ok?
      <==> |frame| >= 8 && Le4(frame, 4) == |frame| - 8 && |frame| - 8 <= 4 * 1024 * 1024
    ensures DecodePacket(frame, mask).Ok? ==>
      var packet, n := DecodePacket(frame, mask).value, |frame| - 8;
      && Wrap4(packet.command) == Le4(frame, 0) && -0x8000_0000 <= packet.command < 0x8000_0000
      && |packet.payload| == n
      && (forall i :: 0 <= i < n ==> packet.payload[i] == Travels(frame[8 + i], i, n, mask))
  {
    if |frame| >= 8 {
      UnpackedFour(frame[..4]);
      UnpackedFour(frame[4..8]);
      assert Le4(frame, 0) == Le4(frame[..4], 0) && Le4(frame, 4) == Le4(frame[4..8], 0);
      MaskedBody(frame[8..], mask);
    }
  }

  /** A reader waits for the whole frame the length field announces, and refuses a length beyond the limit at once. */
  lemma ReadBytes(stream: seq<byte>, mask: bool)
    ensures ReadPacket(stream, mask) == Starved
      <==> |stream| < 8 || (Le4(stream, 4) <= 4 * 1024 * 1024 && |stream| < 8 + Le4(stream, 4))
    ensures ReadPacket(stream, mask) == Invalid <==> |stream| >= 8 && Le4(stream, 4) > 4 * 1024 * 1024
    ensures ReadPacket(stream, mask).Packet? ==>
      var packet, n := ReadPacket(stream, mask).packet, Le4(stream, 4);
      && Wrap4(packet.command) == Le4(stream, 0) && -0x8000_0000 <= packet.command < 0x8000_0000
      && |packet.payload| == n && ReadPacket(stream, mask).rest == stream[8 + n..]
      && (forall i :: 0 <= i < n ==> packet.payload[i] == Travels(stream[8 + i], i, n, mask))
  {
    if |stream| >= 8 {
      UnpackedFour(stream[..4]);
      UnpackedFour(stream[4..8]);
      assert Le4(stream, 0) == Le4(stream[..4], 0) && Le4(stream, 4) == Le4(stream[4..8], 0);
      var n := UnpackSigned(stream[4..8]);
      if 0 <= n && 8 + n <= |stream| {
        MaskedBody(stream[8..8 + n], mask);
      }
    }
  }

  // ---------------------------------------------------------------- tunnel packets

  /** The sixteen bytes of a header. */
  lemma HeaderBytes(h: TunnelHeader)
    requires EncodeHeader(h).Ok?
    ensures var raw := EncodeHeader(h).value;
      && |raw| == 16
      && Le4(raw, 0) == h.requestId && Le4(raw, 4) == Wrap4(h.operation)
      && Le2(raw, 8) == (if h.role == Listener then 1 else 2)
      && Le2(raw, 10) == h.localPort && Le2(raw, 12) == h.remotePort && Le2(raw, 14) == 0
  {
    var raw := EncodeHeader(h).value;
    Ranges();
    PackedFour(h.requestId);
    PackedFour(h.operation);
    assert raw[..4] == PackSigned(h.requestId, 4) && raw[4..8] == PackSigned(h.operation, 4);
    assert raw[8..10] == Short(RoleCode(h.role)) && raw[10..12] == Short(h.localPort);
    assert raw[12..14] == Short(h.remotePort) && raw[14..] == Short(h.reserved);
    assert Le4(raw, 0) == Le4(raw[..4], 0) && Le4(raw, 4) == Le4(raw[4..8], 0);
    ShortBytes(RoleCode(h.role));
    ShortBytes(h.localPort);
    ShortBytes(h.remotePort);
    ShortBytes(h.reserved);
    assert Le2(raw, 8) == Le2(raw[8..10], 0) && Le2(raw, 10) == Le2(raw[10..12], 0);
    assert Le2(raw, 12) == Le2(raw[12..14], 0) && Le2(raw, 14) == Le2(raw[14..], 0);
  }

  lemma ShortBytes(n: nat)
    requires n < 0x1_0000
    ensures Le2(Short(n), 0) == n
  {
    Ranges();
    LeNatOfLeBytes(n, 2);
    NatOfTwo(Short(n));
  }

  /** Which headers are valid, by value. */
  lemma HeaderIsValid(h: TunnelHeader)
    ensures EncodeHeader(h).Ok? <==>
      && 0 <= h.requestId < 0x8000_0000
      && (0 <= h.operation < 0x8000_0000 || h.operation == -2 || h.operation == -3 || h.operation == -4)
      && 1 <= h.localPort <= 65535 && 1 <= h.remotePort <= 65535 && h.reserved == 0
  {
    HeaderRoundTrip(h);
  }

  /** The eight bytes of an announcement. */
  lemma AnnouncementBytes(a: MappingAnnouncement)
    ensures AnnouncementPacket(a).Ok? <==>
      1 <= a.localPort <= 65535 && 1 <= a.remotePort <= 65535 && 0 <= a.requestId < 0x8000_0000
    ensures AnnouncementPacket(a).Ok? ==>
      var packet := AnnouncementPacket(a).value;
      && packet.command == 0x07 && |packet.payload| == 8
      && Le2(packet.payload, 0) == a.localPort && Le2(packet.payload, 2) == a.remotePort
      && Le4(packet.payload, 4) == a.requestId
  {
    if AnnouncementPacket(a).Ok? {
      var body := AnnouncementPacket(a).value.payload;
      Ranges();
      PackedFour(a.requestId);
      ShortBytes(a.localPort);
      ShortBytes(a.remotePort);
      assert body[..2] == Short(a.localPort) && body[2..4] == Short(a.remotePort);
      assert body[4..] == PackSigned(a.requestId, 4);
      assert Le2(body, 0) == Le2(body[..2], 0) && Le2(body, 2) == Le2(body[2..4], 0);
      assert Le4(body, 4) == Le4(body[4..], 0);
    }
  }

  function BlockAt(s: seq<byte>, j: nat): Block
    requires 16 * j + 16 <= |s|
  {
    s[16 * j..16 * j + 16]
  }

  /** Each ciphertext block encrypts its plaintext block combined with the ciphertext block before it. */
  lemma {:induction false} CbcBlock(c: TunnelCipher, chain: Block, plain: seq<byte>, j: nat)
    requires |plain| % 16 == 0 && 16 * j + 16 <= |plain|
    ensures var r := CbcEncrypt(c, chain, plain);
      var previous := if j == 0 then chain else BlockAt(r, j - 1);
      exists mixed: Block ::
        && BlockAt(r, j) == c.encryptBlock(mixed)
        && forall i :: 0 <= i < 16 ==> mixed[i] == XorByte(BlockAt(plain, j)[i], previous[i])
    decreases j
  {
    var r := CbcEncrypt(c, chain, plain);
    var mixed := XorBlock(plain[..16], chain);
    var block := c.encryptBlock(mixed);
    assert r == block + CbcEncrypt(c, block, plain[16..]);
    if j == 0 {
      assert BlockAt(r, 0) == block && BlockAt(plain, 0) == plain[..16];
    } else {
      CbcBlock(c, block, plain[16..], j - 1);
      var later := CbcEncrypt(c, block, plain[16..]);
      assert BlockAt(r, j) == BlockAt(later, j - 1) && BlockAt(plain, j) == BlockAt(plain[16..], j - 1);
      if j == 1 {
        assert BlockAt(r, 0) == block;
      } else {
        assert BlockAt(r, j - 1) == BlockAt(later, j - 2);
      }
    }
  }

  /** Padding fills the last block with copies of its own length. */
  lemma PaddingBytes(data: seq<byte>, blockSize: int)
    ensures Pad(data, blockSize).Ok? <==> 2 <= blockSize <= 255
    ensures Pad(data, blockSize).Ok? ==>
      var padded, n := Pad(data, blockSize).value, blockSize - |data| % blockSize;
      && |padded| == |data| + n
      && forall i :: 0 <= i < |padded| ==> padded[i] == if i < |data| then data[i] else n
  {
  }

  /**
    A data packet: command 0, the header's sixteen bytes, then the ciphertext, whose blocks encrypt the padded
    payload, each combined with the block before it and the first with the IV.
  */
  lemma DataPacketBytes(frame: TunnelFrame, c: TunnelCipher, j: nat)
    requires EncodeTunnelPacket(frame, c).Ok?
    ensures var packet, padded := EncodeTunnelPacket(frame, c).value, Pad(frame.payload, 16).value;
      && packet.command == 0 && |packet.payload| == 16 + |padded|
      && Ok(packet.payload[..16]) == EncodeHeader(frame.header)
      && (16 * j + 16 <= |padded| ==>
            var cipher := packet.payload[16..];
            var previous := if j == 0 then c.iv else BlockAt(cipher, j - 1);
            exists mixed: Block ::
              && BlockAt(cipher, j) == c.encryptBlock(mixed)
              && forall i :: 0 <= i < 16 ==> mixed[i] == XorByte(BlockAt(padded, j)[i], previous[i]))
  {
    var packet, padded := EncodeTunnelPacket(frame, c).value, Pad(frame.payload, 16).value;
    UnpadOfPad(frame.payload, 16);
    assert packet.payload[..16] == EncodeHeader(frame.header).value;
    assert packet.payload[16..] == CbcEncrypt(c, c.iv, padded);
    if 16 * j + 16 <= |padded| {
      CbcBlock(c, c.iv, padded, j);
    }
  }

  // ---------------------------------------------------------------- key exchange

  /** P, G and A, in this order. */
  lemma ExchangeBytes(exchange: KeyExchange)
    requires EncodeExchange(exchange).Ok?
    ensures var body := EncodeExchange(exchange).value;
      && |body| == 24
      && Le8(body, 0) == Wrap8(exchange.modulus)
      && Le8(body, 8) == Wrap8(exchange.generator)
      && Le8(body, 16) == Wrap8(exchange.publicValue)
  {
    var body := EncodeExchange(exchange).value;
    PackedEight(exchange.modulus);
    PackedEight(exchange.generator);
    PackedEight(exchange.publicValue);
    assert body[..8] == PackSigned(exchange.modulus, 8) && body[8..16] == PackSigned(exchange.generator, 8);
    assert body[16..] == PackSigned(exchange.publicValue, 8);
    assert Le8(body, 0) == Le8(body[..8], 0) && Le8(body, 8) == Le8(body[8..16], 0) && Le8(body, 16) == Le8(body[16..], 0);
  }

  /** A key-exchange body on the wire: command 3, its length, and the masked bytes. */
  lemma WrittenBytes(payload: seq<byte>)
    requires |payload| <= 24
    ensures var frame := Written(payload);
      && |frame| == 8 + |payload| && Le4(frame, 0) == 3 && Le4(frame, 4) == |payload|
      && forall i :: 0 <= i < |payload| ==> frame[8 + i] == Travels(payload[i], i, |payload|, true)
  {
    Ranges();
    FrameBytes(KeyPacket(payload), true);
  }

  /** A body of the given size is read exactly from a frame of that size with command 3. */
  lemma ReadBodyExactly(stream: seq<byte>, size: nat)
    requires size <= 24
    ensures ReadBody(stream, size).Ok? <==> |stream| >= 8 + size && Le4(stream, 0) == 3 && Le4(stream, 4) == size
    ensures ReadBody(stream, size).Ok? ==>
      var (body, rest) := ReadBody(stream, size).value;
      && |body| == size && rest == stream[8 + size..]
      && forall i :: 0 <= i < size ==> body[i] == Travels(stream[8 + i], i, size, true)
  {
    ReadBytes(stream, true);
  }

  predicate ValidDomain(modulus: int, generator: int, privateValue: int) {
    2 < modulus && 1 < generator < modulus && 0 < privateValue
  }

  /** Which values make an exchange, and which one. */
  lemma ExchangeIsPower(modulus: int, generator: int, privateValue: int)
    ensures FromPrivate(modulus, generator, privateValue).Ok? <==> ValidDomain(modulus, generator, privateValue)
    ensures FromPrivate(modulus, generator, privateValue).Ok? ==>
      FromPrivate(modulus, generator, privateValue).value
        == KeyExchange(modulus, generator, Pow(generator, privateValue) % modulus)
  {
  }

  function IvByte(key: Block, i: nat): int {
    if i == 2 then (key[15] as int + key[0] as int) % 256
    else if i == 5 then (key[1] as int + key[13] as int) % 256
    else if i == 8 then (key[15] as int + key[14] as int) % 256
    else if i == 12 then (key[11] as int + key[12] as int) % 256
    else if i == 14 then (key[3] as int + key[9] as int) % 256
    else 0
  }

  /** A key: the digest of the decimal text of the secret; the IV: five wrapped sums of its bytes. */
  ghost predicate Derived(material: KeyMaterial, secret: nat, digest: Digest) {
    && material.secret == secret
    && (exists text: string ::
          && AllDigits(text) && text != "" && (|text| > 1 ==> text[0] != '0') && ParseDecimal(text) == secret
          && IsAscii(text) && material.key == digest(EncodeAscii(text)))
    && forall i :: 0 <= i < 16 ==> material.iv[i] == IvByte(material.key, i)
  }

  lemma IvIsSums(key: Block)
    ensures forall i :: 0 <= i < 16 ==> IvOf(key)[i] == IvByte(key, i)
  {
  }

  /** The text's bytes are its characters. */
  lemma AsciiBytes(text: string)
    requires IsAscii(text)
    ensures |EncodeAscii(text)| == |text| && forall i :: 0 <= i < |text| ==> EncodeAscii(text)[i] == text[i] as int
  {
  }

  lemma MaterialIsDerived(secret: nat, digest: Digest)
    ensures Derived(Material(secret, digest), secret, digest)
  {
    ParseOfDecimal(secret);
    DecimalIsAscii(secret);
    var text := Decimal(secret);
    var material := Material(secret, digest);
    assert material.key == digest(EncodeAscii(text));
    IvIsSums(material.key);
  }

  /** The client finishes exactly on a reserved field of zero and a peer value inside the modulus. */
  lemma ConcludeExactly(exchange: KeyExchange, privateValue: int, body: seq<byte>, digest: Digest)
    requires |body| == 16
    ensures Conclude(exchange, privateValue, body, digest).Ok? <==>
      && Le8(body, 8) == 0
      && ValidDomain(exchange.modulus, exchange.generator, privateValue)
      && 0 < Le8(body, 0) < 0x8000_0000_0000_0000 && Le8(body, 0) < exchange.modulus
    ensures Conclude(exchange, privateValue, body, digest).Ok? ==>
      Derived(Conclude(exchange, privateValue, body, digest).value,
              Pow(Le8(body, 0), privateValue) % exchange.modulus, digest)
  {
    UnpackedEight(body[..8]);
    UnpackedEight(body[8..]);
    UnpackFits(body[..8]);
    Powers();
    assert Le8(body, 0) == Le8(body[..8], 0) && Le8(body, 8) == Le8(body[8..], 0);
    if Conclude(exchange, privateValue, body, digest).Ok? {
      MaterialIsDerived(Conclude(exchange, privateValue, body, digest).value.secret, digest);
    }
  }

  /** The server answers exactly when the request's values are in the domain, with its own public value and eight zeros. */
  lemma AnswerExactly(body: seq<byte>, privateValue: int, digest: Digest)
    requires |body| == 24
    ensures var p, g, a := UnpackSigned(body[..8]), UnpackSigned(body[8..16]), UnpackSigned(body[16..]);
      && Wrap8(p) == Le8(body, 0) && Wrap8(g) == Le8(body, 8) && Wrap8(a) == Le8(body, 16)
      && (Answer(body, privateValue, digest).Ok? <==> ValidDomain(p, g, privateValue) && 0 < a < p)
      && (Answer(body, privateValue, digest).Ok? ==>
            var (reply, material) := Answer(body, privateValue, digest).value;
            && |reply| == 16 && Le8(reply, 0) == Pow(g, privateValue) % p && Le8(reply, 8) == 0
            && Derived(material, Pow(a, privateValue) % p, digest))
  {
    UnpackedEight(body[..8]);
    UnpackedEight(body[8..16]);
    UnpackedEight(body[16..]);
    assert Le8(body, 0) == Le8(body[..8], 0) && Le8(body, 8) == Le8(body[8..16], 0) && Le8(body, 16) == Le8(body[16..], 0);
    if Answer(body, privateValue, digest).Ok? {
      var p, g := UnpackSigned(body[..8]), UnpackSigned(body[8..16]);
      var (reply, material) := Answer(body, privateValue, digest).value;
      MaterialIsDerived(material.secret, digest);
      UnpackFits(body[..8]);
      Powers();
      var public := Pow(g, privateValue) % p;
      PackedEight(public);
      PackedEight(0);
      assert reply[..8] == PackSigned(public, 8) && reply[8..] == PackSigned(0, 8);
      assert Le8(reply, 0) == Le8(reply[..8], 0) && Le8(reply, 8) == Le8(reply[8..], 0);
    }
  }
}
