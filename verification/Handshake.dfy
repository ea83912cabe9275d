/** The two ends of the command-0x03 key exchange, over the real framing. */
module Handshake {
  import opened Bytes
  import opened Framing
  import opened Crypto

  datatype KeyMaterial = KeyMaterial(secret: nat, key: Block, iv: Block)

  datatype HandshakeError =
    | Exchange(error: KeyError)
    | Framing(outcome: ReadOutcome)
    | WrongCommand
    | WrongLength
    | ReservedNonzero

  function Material(secret: nat, digest: Digest): KeyMaterial {
    var key := DeriveAesKey(secret, digest);
    KeyMaterial(secret, key, IvOf(key))
  }

  function KeyPacket(payload: seq<byte>): BasePacket {
    BasePacket(KEY_EXCHANGE, payload)
  }

  /** Bytes written for a packet whose body fits; key-exchange bodies always do. */
  function Written(payload: seq<byte>): seq<byte>
    requires |payload| <= 24
  {
    Ranges();
    EncodePacket(KeyPacket(payload), true).value
  }

  /** What a reader that holds `stream` yields: the body of one key-exchange packet of the given size. */
  function ReadBody(stream: seq<byte>, size: nat): Result<(seq<byte>, seq<byte>), HandshakeError> {
    match ReadPacket(stream, true)
    case Packet(packet, rest) =>
      if packet.command != KEY_EXCHANGE then Err(WrongCommand)
      else if |packet.payload| != size then Err(WrongLength)
      else Ok((packet.payload, rest))
    case other => Err(Framing(other))
  }

  lemma ReadOfWritten(payload: seq<byte>, rest: seq<byte>)
    requires |payload| <= 24
    ensures ReadBody(Written(payload) + rest, |payload|) == Ok((payload, rest))
  {
    Ranges();
    HeadOfFrame(KeyPacket(payload), rest, true);
    var stream := Written(payload) + rest;
    DecodeOfEncode(KeyPacket(payload), true);
    var frame := stream[..FrameLength(stream)];
    assert frame[..4] == stream[..4] && frame[4..8] == stream[4..8];
    assert frame[8..] == stream[8..8 + |payload|];
    assert stream[8 + |payload|..] == rest;
  }

  /** The client's conclusion from the 16-byte reply. */
  function Conclude(exchange: KeyExchange, privateValue: int, body: seq<byte>, digest: Digest)
    : Result<KeyMaterial, HandshakeError>
    requires |body| == 16
  {
    if UnpackSigned(body[8..]) != 0 then Err(ReservedNonzero)
    else
      match SharedSecret(exchange, privateValue, UnpackSigned(body[..8]))
      case Err(error) => Err(Exchange(error))
      case Ok(secret) => Ok(Material(secret, digest))
  }

  /** The server's reply body and conclusion from the 24-byte request. */
  function Answer(body: seq<byte>, privateValue: int, digest: Digest)
    : Result<(seq<byte>, KeyMaterial), HandshakeError>
    requires |body| == 24
  {
    var modulus, generator, peer := UnpackSigned(body[..8]), UnpackSigned(body[8..16]), UnpackSigned(body[16..]);
    match FromPrivate(modulus, generator, privateValue)
    case Err(error) => Err(Exchange(error))
    case Ok(own) =>
      match SharedSecret(own, privateValue, peer)
      case Err(error) => Err(Exchange(error))
      case Ok(secret) =>
        UnpackFits(body[..8]);
        Ranges();
        Ok((PackSigned(own.publicValue, 8) + PackSigned(0, 8), Material(secret, digest)))
  }

  /** One connected transport as an endpoint sees it: bytes not yet read, and bytes written so far. */
  class Transport {
    var inbound: seq<byte>
    var outbound: seq<byte>

    constructor (inbound: seq<byte>)
      ensures this.inbound == inbound && outbound == []
    {
      this.inbound := inbound;
      outbound := [];
    }

    method ReadKeyBody(size: nat) returns (r: Result<seq<byte>, HandshakeError>)
      modifies this`inbound
      ensures match ReadBody(old(inbound), size)
        case Ok((body, rest)) => r == Ok(body) && inbound == rest
        case Err(error) => r == Err(error)
    {
      match ReadPacket(inbound, true)
      case Packet(packet, rest) =>
        inbound := rest;
        if packet.command != KEY_EXCHANGE {
          return Err(WrongCommand);
        }
        if |packet.payload| != size {
          return Err(WrongLength);
        }
        return Ok(packet.payload);
      case other =>
        return Err(Framing(other));
    }
  }

  /** Client end up to its await: the exchange goes out before anything is read. */
  method SendExchange(transport: Transport, exchange: KeyExchange) returns (r: Result<(), HandshakeError>)
    modifies transport`outbound
    ensures match EncodeExchange(exchange)
      case Ok(body) => r == Ok(()) && transport.outbound == old(transport.outbound) + Written(body)
      case Err(error) => r == Err(Exchange(error)) && transport.outbound == old(transport.outbound)
  {
    match EncodeExchange(exchange)
    case Err(error) =>
      return Err(Exchange(error));
    case Ok(body) =>
      Ranges();
      transport.outbound := transport.outbound + EncodePacket(KeyPacket(body), true).value;
      return Ok(());
  }

  /** Client end after its await. */
  method ReceiveReply(transport: Transport, exchange: KeyExchange, privateValue: int, digest: Digest)
    returns (r: Result<KeyMaterial, HandshakeError>)
    modifies transport`inbound
    ensures match ReadBody(old(transport.inbound), 16)
      case Err(error) => r == Err(error)
      case Ok((body, rest)) => transport.inbound == rest && r == Conclude(exchange, privateValue, body, digest)
  {
    var body := transport.ReadKeyBody(16);
    if body.Err? {
      return Err(body.error);
    }
    if UnpackSigned(body.value[8..]) != 0 {
      return Err(ReservedNonzero);
    }
    match SharedSecret(exchange, privateValue, UnpackSigned(body.value[..8]))
    case Err(error) => return Err(Exchange(error));
    case Ok(secret) => return Ok(Material(secret, digest));
  }

  /** Server end: nothing is written unless the request is accepted. */
  method AcceptTunnelKey(transport: Transport, privateValue: int, digest: Digest)
    returns (r: Result<KeyMaterial, HandshakeError>)
    modifies transport
    ensures match ReadBody(old(transport.inbound), 24)
      case Err(error) => r == Err(error) && transport.outbound == old(transport.outbound)
      case Ok((body, rest)) =>
        && transport.inbound == rest
        && match Answer(body, privateValue, digest)
           case Err(error) => r == Err(error) && transport.outbound == old(transport.outbound)
           case Ok((reply, material)) =>
             |reply| == 16 && r == Ok(material) && transport.outbound == old(transport.outbound) + Written(reply)
  {
    var body := transport.ReadKeyBody(24);
    if body.Err? {
      return Err(body.error);
    }
    match Answer(body.value, privateValue, digest)
    case Err(error) =>
      return Err(error);
    case Ok((reply, material)) =>
      transport.outbound := transport.outbound + Written(reply);
      return Ok(material);
  }

  /**
    The whole exchange. The client built `exchange` from its private value; the server reads what the client
    wrote (with any bytes after it) and the client reads what the server wrote. Both ends finish exactly when
    the private values are positive and neither public value is zero modulo P, and then they hold the same
    secret, key and IV.
  */
  lemma KeysAgree(modulus: int, generator: int, a: int, b: int, digest: Digest, more: seq<byte>, noise: seq<byte>)
    requires FromPrivate(modulus, generator, a).Ok?
    requires FitsSigned(modulus, 8)
    ensures var exchange := FromPrivate(modulus, generator, a).value;
      && EncodeExchange(exchange).Ok?
      && ReadBody(Written(EncodeExchange(exchange).value) + more, 24) == Ok((EncodeExchange(exchange).value, more))
      && var answer := Answer(EncodeExchange(exchange).value, b, digest);
      && (answer.Ok? <==> b > 0 && exchange.publicValue > 0)
      && (answer.Ok? ==>
            && |answer.value.0| == 16
            && ReadBody(Written(answer.value.0) + noise, 16) == Ok((answer.value.0, noise))
            && var conclusion := Conclude(exchange, a, answer.value.0, digest);
            && (conclusion.Ok? <==> ModPow(generator, b, modulus) > 0)
            && (conclusion.Ok? ==> conclusion.value == answer.value.1))
  {
    Ranges();
    var exchange := FromPrivate(modulus, generator, a).value;
    var body := EncodeExchange(exchange).value;
    ReadOfWritten(body, more);
    ExchangeFields(exchange);
    var answer := Answer(body, b, digest);
    if answer.Ok? {
      var public := ModPow(generator, b, modulus);
      var reply := answer.value.0;
      ReadOfWritten(reply, noise);
      assert reply[..8] == PackSigned(public, 8) && reply[8..] == PackSigned(0, 8);
      UnpackOfPack(public, 8);
      UnpackOfPack(0, 8);
      SecretsAgree(generator, a, b, modulus);
    }
  }

  lemma ExchangeFields(exchange: KeyExchange)
    requires EncodeExchange(exchange).Ok?
    ensures var body := EncodeExchange(exchange).value;
      && UnpackSigned(body[..8]) == exchange.modulus
      && UnpackSigned(body[8..16]) == exchange.generator
      && UnpackSigned(body[16..]) == exchange.publicValue
  {
    var body := EncodeExchange(exchange).value;
    assert body[..8] == PackSigned(exchange.modulus, 8);
    assert body[8..16] == PackSigned(exchange.generator, 8);
    assert body[16..] == PackSigned(exchange.publicValue, 8);
    UnpackOfPack(exchange.modulus, 8);
    UnpackOfPack(exchange.generator, 8);
    UnpackOfPack(exchange.publicValue, 8);
  }
}
