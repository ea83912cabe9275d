/** Encrypted data frames: 16-byte header, mapping announcement, CBC (section 6.2 of NIST SP 800-38A). */
module Tunnel {
  import opened Bytes
  import opened Framing
  import opened Crypto

  const REQUEST_ID_LIMIT := 0x8000_0000
  const DISCONNECT_RESPONSE := -2
  const DISCONNECT_CONFIRM := -3
  const DISCONNECT_REQUEST := -4

  datatype Role = Listener | Connector

  datatype TunnelHeader = TunnelHeader(
    requestId: int, operation: int, role: Role, localPort: int, remotePort: int, reserved: int)

  datatype TunnelFrame = TunnelFrame(header: TunnelHeader, payload: seq<byte>)

  datatype TunnelError =
    | WrongCommand | HeaderLength | UnknownRole | RequestIdRange | UnknownOperation
    | PortRange | ReservedNonzero | ValueRange | BodyTooShort | Unaligned | BadPadding

  predicate ValidPort(port: int) {
    1 <= port <= 0xFFFF
  }

  predicate ValidRequestId(id: int) {
    0 <= id < REQUEST_ID_LIMIT
  }

  function ValidateHeader(h: TunnelHeader): Option<TunnelError> {
    if !ValidRequestId(h.requestId) then Some(RequestIdRange)
    else if h.operation < 0 && h.operation !in {DISCONNECT_RESPONSE, DISCONNECT_CONFIRM, DISCONNECT_REQUEST}
      then Some(UnknownOperation)
    else if !ValidPort(h.localPort) || !ValidPort(h.remotePort) then Some(PortRange)
    else if h.reserved != 0 then Some(ReservedNonzero)
    else None
  }

  function RoleCode(role: Role): nat {
    if role == Listener then 1 else 2
  }

  function Short(n: nat): (s: seq<byte>)
    requires n < 0x1_0000
    ensures |s| == 2
  {
    Ranges();
    LeBytes(n, 2)
  }

  function EncodeHeader(h: TunnelHeader): (r: Result<seq<byte>, TunnelError>)
    ensures r.Ok? ==> |r.value| == 16
  {
    match ValidateHeader(h)
    case Some(error) => Err(error)
    case None =>
      Ranges();
      if !FitsSigned(h.operation, 4) then Err(ValueRange)
      else Ok(PackSigned(h.requestId, 4) + PackSigned(h.operation, 4) + Short(RoleCode(h.role))
              + Short(h.localPort) + Short(h.remotePort) + Short(h.reserved))
  }

  function DecodeHeader(raw: seq<byte>): Result<TunnelHeader, TunnelError> {
    if |raw| != 16 then Err(HeaderLength)
    else
      var code := LeNat(raw[8..10]);
      if code != 1 && code != 2 then Err(UnknownRole)
      else
        var h := TunnelHeader(UnpackSigned(raw[..4]), UnpackSigned(raw[4..8]),
                              if code == 1 then Listener else Connector,
                              LeNat(raw[10..12]), LeNat(raw[12..14]), LeNat(raw[14..]));
        match ValidateHeader(h)
        case Some(error) => Err(error)
        case None => Ok(h)
  }

  /** Headers the wire can carry. */
  predicate WireHeader(h: TunnelHeader) {
    ValidateHeader(h) == None && h.operation < 0x8000_0000
  }

  lemma HeaderRoundTrip(h: TunnelHeader)
    ensures EncodeHeader(h).Ok? <==> WireHeader(h)
    ensures WireHeader(h) ==> DecodeHeader(EncodeHeader(h).value) == Ok(h)
  {
    Ranges();
    if WireHeader(h) {
      var raw := EncodeHeader(h).value;
      assert raw[..4] == PackSigned(h.requestId, 4) && raw[4..8] == PackSigned(h.operation, 4);
      assert raw[8..10] == Short(RoleCode(h.role)) && raw[10..12] == Short(h.localPort);
      assert raw[12..14] == Short(h.remotePort) && raw[14..] == Short(h.reserved);
      UnpackOfPack(h.requestId, 4);
      UnpackOfPack(h.operation, 4);
      LeNatOfLeBytes(RoleCode(h.role), 2);
      LeNatOfLeBytes(h.localPort, 2);
      LeNatOfLeBytes(h.remotePort, 2);
      LeNatOfLeBytes(h.reserved, 2);
    }
  }

  lemma HeaderOfRaw(raw: seq<byte>)
    requires DecodeHeader(raw).Ok?
    ensures WireHeader(DecodeHeader(raw).value)
    ensures EncodeHeader(DecodeHeader(raw).value) == Ok(raw)
  {
    Ranges();
    PackOfUnpack(raw[..4]);
    PackOfUnpack(raw[4..8]);
    LeBytesOfLeNat(raw[8..10]);
    LeBytesOfLeNat(raw[10..12]);
    LeBytesOfLeNat(raw[12..14]);
    LeBytesOfLeNat(raw[14..]);
    assert raw == raw[..4] + raw[4..8] + raw[8..10] + raw[10..12] + raw[12..14] + raw[14..];
  }

  // ---------------------------------------------------------------- announcement

  datatype MappingAnnouncement = MappingAnnouncement(localPort: int, remotePort: int, requestId: int)

  predicate ValidAnnouncement(a: MappingAnnouncement) {
    ValidPort(a.localPort) && ValidPort(a.remotePort) && ValidRequestId(a.requestId)
  }

  function AnnouncementPacket(a: MappingAnnouncement): Result<BasePacket, TunnelError> {
    if !ValidPort(a.localPort) || !ValidPort(a.remotePort) then Err(PortRange)
    else if !ValidRequestId(a.requestId) then Err(RequestIdRange)
    else
      Ranges();
      Ok(BasePacket(TUNNEL_ACCESS, Short(a.localPort) + Short(a.remotePort) + PackSigned(a.requestId, 4)))
  }

  function ParseAnnouncement(packet: BasePacket): Result<MappingAnnouncement, TunnelError> {
    if packet.command != TUNNEL_ACCESS then Err(WrongCommand)
    else if |packet.payload| != 8 then Err(HeaderLength)
    else
      var a := MappingAnnouncement(LeNat(packet.payload[..2]), LeNat(packet.payload[2..4]),
                                   UnpackSigned(packet.payload[4..]));
      if !ValidPort(a.localPort) || !ValidPort(a.remotePort) then Err(PortRange)
      else if !ValidRequestId(a.requestId) then Err(RequestIdRange)
      else Ok(a)
  }

  lemma AnnouncementRoundTrip(a: MappingAnnouncement, packet: BasePacket)
    ensures AnnouncementPacket(a).Ok? <==> ValidAnnouncement(a)
    ensures AnnouncementPacket(a) == Ok(packet) <==> ParseAnnouncement(packet) == Ok(a)
  {
    Ranges();
    if ValidAnnouncement(a) {
      var body := AnnouncementPacket(a).value.payload;
      assert body[..2] == Short(a.localPort) && body[2..4] == Short(a.remotePort);
      assert body[4..] == PackSigned(a.requestId, 4);
      LeNatOfLeBytes(a.localPort, 2);
      LeNatOfLeBytes(a.remotePort, 2);
      UnpackOfPack(a.requestId, 4);
    }
    if ParseAnnouncement(packet) == Ok(a) {
      LeBytesOfLeNat(packet.payload[..2]);
      LeBytesOfLeNat(packet.payload[2..4]);
      PackOfUnpack(packet.payload[4..]);
      assert packet.payload == packet.payload[..2] + packet.payload[2..4] + packet.payload[4..];
    }
  }

  // ---------------------------------------------------------------- cipher

  /** AES under one key is a pair of block functions; the IV is used afresh for every frame. */
  datatype TunnelCipher = TunnelCipher(encryptBlock: Block -> Block, decryptBlock: Block -> Block, iv: Block)

  ghost predicate Inverse(c: TunnelCipher) {
    && (forall b: Block :: c.decryptBlock(c.encryptBlock(b)) == b)
    && (forall b: Block :: c.encryptBlock(c.decryptBlock(b)) == b)
  }

  function XorBlock(a: Block, b: Block): Block {
    seq(16, i requires 0 <= i < 16 => XorByte(a[i], b[i]))
  }

  lemma XorBlockSelfInverse(a: Block, b: Block)
    ensures XorBlock(XorBlock(a, b), b) == a
  {
    forall i | 0 <= i < 16
      ensures XorBlock(XorBlock(a, b), b)[i] == a[i]
    {
      XorSelfInverse(a[i], b[i]);
    }
  }

  function CbcEncrypt(c: TunnelCipher, chain: Block, plain: seq<byte>): (r: seq<byte>)
    requires |plain| % 16 == 0
    ensures |r| == |plain|
    decreases |plain|
  {
    if plain == [] then [] else
      var block := c.encryptBlock(XorBlock(plain[..16], chain));
      block + CbcEncrypt(c, block, plain[16..])
  }

  function CbcDecrypt(c: TunnelCipher, chain: Block, ciphertext: seq<byte>): (r: seq<byte>)
    requires |ciphertext| % 16 == 0
    ensures |r| == |ciphertext|
    decreases |ciphertext|
  {
    if ciphertext == [] then [] else
      XorBlock(c.decryptBlock(ciphertext[..16]), chain) + CbcDecrypt(c, ciphertext[..16], ciphertext[16..])
  }

  lemma {:induction false} CbcDecryptOfEncrypt(c: TunnelCipher, chain: Block, plain: seq<byte>)
    requires Inverse(c) && |plain| % 16 == 0
    ensures CbcDecrypt(c, chain, CbcEncrypt(c, chain, plain)) == plain
    decreases |plain|
  {
    if plain != [] {
      var head: Block := plain[..16];
      var block := c.encryptBlock(XorBlock(head, chain));
      var all := CbcEncrypt(c, chain, plain);
      assert all[..16] == block && all[16..] == CbcEncrypt(c, block, plain[16..]);
      XorBlockSelfInverse(head, chain);
      CbcDecryptOfEncrypt(c, block, plain[16..]);
      assert plain == plain[..16] + plain[16..];
    }
  }

  lemma {:induction false} CbcEncryptOfDecrypt(c: TunnelCipher, chain: Block, ciphertext: seq<byte>)
    requires Inverse(c) && |ciphertext| % 16 == 0
    ensures CbcEncrypt(c, chain, CbcDecrypt(c, chain, ciphertext)) == ciphertext
    decreases |ciphertext|
  {
    if ciphertext != [] {
      var head: Block := ciphertext[..16];
      var block := XorBlock(c.decryptBlock(head), chain);
      var all := CbcDecrypt(c, chain, ciphertext);
      assert all[..16] == block && all[16..] == CbcDecrypt(c, head, ciphertext[16..]);
      XorBlockSelfInverse(c.decryptBlock(head), chain);
      CbcEncryptOfDecrypt(c, head, ciphertext[16..]);
      assert ciphertext == ciphertext[..16] + ciphertext[16..];
    }
  }

  function Encrypt(c: TunnelCipher, plain: seq<byte>): (r: seq<byte>)
    ensures |plain| < |r| <= |plain| + 16
  {
    UnpadOfPad(plain, AES_BLOCK_SIZE);
    CbcEncrypt(c, c.iv, Pad(plain, AES_BLOCK_SIZE).value)
  }

  function Decrypt(c: TunnelCipher, ciphertext: seq<byte>): Result<seq<byte>, TunnelError> {
    if |ciphertext| == 0 || |ciphertext| % AES_BLOCK_SIZE != 0 then Err(Unaligned)
    else
      match Unpad(CbcDecrypt(c, c.iv, ciphertext), AES_BLOCK_SIZE)
      case Ok(plain) => Ok(plain)
      case Err(_) => Err(BadPadding)
  }

  lemma DecryptOfEncrypt(c: TunnelCipher, plain: seq<byte>)
    requires Inverse(c)
    ensures Decrypt(c, Encrypt(c, plain)) == Ok(plain)
  {
    UnpadOfPad(plain, AES_BLOCK_SIZE);
    CbcDecryptOfEncrypt(c, c.iv, Pad(plain, AES_BLOCK_SIZE).value);
  }

  lemma EncryptOfDecrypt(c: TunnelCipher, ciphertext: seq<byte>)
    requires Inverse(c) && Decrypt(c, ciphertext).Ok?
    ensures Encrypt(c, Decrypt(c, ciphertext).value) == ciphertext
  {
    PadOfUnpad(CbcDecrypt(c, c.iv, ciphertext), AES_BLOCK_SIZE);
    CbcEncryptOfDecrypt(c, c.iv, ciphertext);
  }

  // ---------------------------------------------------------------- data packets

  function EncodeTunnelPacket(frame: TunnelFrame, c: TunnelCipher): Result<BasePacket, TunnelError> {
    match EncodeHeader(frame.header)
    case Err(error) => Err(error)
    case Ok(raw) => Ok(BasePacket(TUNNEL_DATA, raw + Encrypt(c, frame.payload)))
  }

  function DecodeTunnelPacket(packet: BasePacket, c: TunnelCipher): Result<TunnelFrame, TunnelError> {
    if packet.command != TUNNEL_DATA then Err(WrongCommand)
    else if |packet.payload| < 16 + AES_BLOCK_SIZE then Err(BodyTooShort)
    else
      match DecodeHeader(packet.payload[..16])
      case Err(error) => Err(error)
      case Ok(header) =>
        match Decrypt(c, packet.payload[16..])
        case Err(error) => Err(error)
        case Ok(plain) => Ok(TunnelFrame(header, plain))
  }

  /** Encoding and decoding of data packets are mutually inverse, and encoding fails exactly off the wire range. */
  lemma TunnelPacketRoundTrip(frame: TunnelFrame, c: TunnelCipher, packet: BasePacket)
    requires Inverse(c)
    ensures EncodeTunnelPacket(frame, c).Ok? <==> WireHeader(frame.header)
    ensures EncodeTunnelPacket(frame, c) == Ok(packet) <==> DecodeTunnelPacket(packet, c) == Ok(frame)
  {
    HeaderRoundTrip(frame.header);
    if EncodeTunnelPacket(frame, c) == Ok(packet) {
      var raw := EncodeHeader(frame.header).value;
      assert packet.payload[..16] == raw && packet.payload[16..] == Encrypt(c, frame.payload);
      DecryptOfEncrypt(c, frame.payload);
      EncryptedLength(c, frame.payload);
    }
    if DecodeTunnelPacket(packet, c) == Ok(frame) {
      HeaderOfRaw(packet.payload[..16]);
      EncryptOfDecrypt(c, packet.payload[16..]);
      assert packet.payload == packet.payload[..16] + packet.payload[16..];
    }
  }

  lemma EncryptedLength(c: TunnelCipher, plain: seq<byte>)
    ensures |Encrypt(c, plain)| >= 16 && |Encrypt(c, plain)| % 16 == 0
  {
    UnpadOfPad(plain, AES_BLOCK_SIZE);
    WholeBlocks(|Pad(plain, AES_BLOCK_SIZE).value|, 16);
  }
}
