/** Direct rendezvous messages: printer and parser. */
module Direct {
  import opened Bytes
  import opened Text
  import opened Framing

  const MAX_DIRECT_SIGNAL_PAYLOAD := 4096
  const NUL: char := 0 as char

  datatype DirectError =
    | NotAscii | InvalidSeparator | NoCandidates | TooLong
    | WrongCommand | Termination | EmbeddedNul | TooFewFields | InvalidCandidate | ClientMismatch

  // ---------------------------------------------------------------- IPv4 addresses

  predicate OctetText(s: string) {
    1 <= |s| <= 3 && AllDigits(s) && (|s| > 1 ==> s[0] != '0') && ParseDecimal(s) <= 255
  }

  /** `IPv4Address(text)`: four decimal octets without leading zeros. */
  predicate IsIpv4(s: string) {
    var octets := Split(s, '.');
    |octets| == 4 && forall i :: 0 <= i < 4 ==> OctetText(octets[i])
  }

  /** `str(IPv4Address(text))`. */
  function NormalAddress(s: string): string
    requires IsIpv4(s)
  {
    var octets := Split(s, '.');
    Join([Decimal(ParseDecimal(octets[0])), Decimal(ParseDecimal(octets[1])),
          Decimal(ParseDecimal(octets[2])), Decimal(ParseDecimal(octets[3]))], '.')
  }

  /** An accepted address is already in normal form. */
  lemma AddressIsNormal(s: string)
    requires IsIpv4(s)
    ensures NormalAddress(s) == s
    ensures DigitsAnd(s, '.')
  {
    var octets := Split(s, '.');
    forall i | 0 <= i < 4 ensures Decimal(ParseDecimal(octets[i])) == octets[i] {
      DecimalOfParse(octets[i]);
    }
    assert octets == [octets[0], octets[1], octets[2], octets[3]];
    JoinOfSplit(s, '.');
    JoinOfDigits(octets, '.');
  }

  predicate DigitsAnd(s: string, separator: char) {
    forall i :: 0 <= i < |s| ==> IsDigit(s[i]) || s[i] == separator
  }

  lemma {:induction false} JoinOfDigits(fields: seq<string>, separator: char)
    requires forall i :: 0 <= i < |fields| ==> AllDigits(fields[i])
    ensures DigitsAnd(Join(fields, separator), separator)
  {
    if |fields| > 1 {
      JoinOfDigits(fields[1..], separator);
      assert AllDigits(fields[0]);
    }
  }

  // ---------------------------------------------------------------- candidates

  datatype DirectCandidate = DirectCandidate(address: string, port: int)

  predicate ValidCandidate(c: DirectCandidate) {
    IsIpv4(c.address) && 1 <= c.port <= 0xFFFF
  }

  function MakeCandidate(address: string, port: int): Option<DirectCandidate> {
    if IsIpv4(address) && 1 <= port <= 0xFFFF then Some(DirectCandidate(NormalAddress(address), port)) else None
  }

  function WireValue(c: DirectCandidate): string
    requires ValidCandidate(c)
  {
    c.address + [':'] + Decimal(c.port)
  }

  /** `s.rpartition(separator)`; None stands for a missing separator. */
  function RPartition(s: string, separator: char): Option<(string, string)> {
    if s == [] then None
    else if s[|s| - 1] == separator then Some((s[..|s| - 1], ""))
    else
      match RPartition(s[..|s| - 1], separator)
      case None => None
      case Some((before, after)) => Some((before, after + [s[|s| - 1]]))
  }

  lemma {:induction false} RPartitionOf(before: string, separator: char, after: string)
    requires separator !in after
    ensures RPartition(before + [separator] + after, separator) == Some((before, after))
    decreases |after|
  {
    var s := before + [separator] + after;
    if after == [] {
      assert s[..|s| - 1] == before;
    } else {
      var front := after[..|after| - 1];
      assert s[..|s| - 1] == before + [separator] + front;
      RPartitionOf(before, separator, front);
      assert after == front + [after[|after| - 1]];
    }
  }

  function ParseCandidate(s: string): Option<DirectCandidate> {
    match RPartition(s, ':')
    case None => None
    case Some((address, port)) =>
      if port == "" || !AllDigits(port) then None else MakeCandidate(address, ParseDecimal(port))
  }

  lemma CandidateRoundTrip(c: DirectCandidate)
    requires ValidCandidate(c)
    ensures ParseCandidate(WireValue(c)) == Some(c)
  {
    var port := Decimal(c.port);
    assert ':' !in port by {
      assert forall i :: 0 <= i < |port| ==> IsDigit(port[i]);
    }
    RPartitionOf(c.address, ':', port);
    ParseOfDecimal(c.port);
    AddressIsNormal(c.address);
  }

  lemma WireValueIsPlain(c: DirectCandidate)
    requires ValidCandidate(c)
    ensures forall i :: 0 <= i < |WireValue(c)| ==> IsDigit(WireValue(c)[i]) || WireValue(c)[i] in ".:"
  {
    AddressIsNormal(c.address);
  }

  // ---------------------------------------------------------------- messages

  predicate ValidIdentity(id: string) {
    id != "" && IsAscii(id) && NUL !in id && ';' !in id
  }

  function ValidateIdentity(id: string): Option<DirectError> {
    if !IsAscii(id) then Some(NotAscii)
    else if id == "" || NUL in id || ';' in id then Some(InvalidSeparator)
    else None
  }

  function WireValues(candidates: seq<DirectCandidate>): seq<string>
    requires forall c :: c in candidates ==> ValidCandidate(c)
  {
    seq(|candidates|, i requires 0 <= i < |candidates| => WireValue(candidates[i]))
  }

  function Payload(fields: seq<string>): seq<byte>
    requires IsAscii(Join(fields, ';'))
  {
    EncodeAscii(Join(fields, ';')) + [0]
  }

  function RequestPacket(peerId: string, clientId: string, candidates: seq<DirectCandidate>): Result<BasePacket, DirectError>
    requires forall c :: c in candidates ==> ValidCandidate(c)
  {
    match (ValidateIdentity(peerId), ValidateIdentity(clientId))
    case (Some(error), _) => Err(error)
    case (None, Some(error)) => Err(error)
    case (None, None) =>
      if candidates == [] then Err(NoCandidates)
      else
        var payload := Printed(peerId, clientId, candidates);
        if |payload| > MAX_DIRECT_SIGNAL_PAYLOAD then Err(TooLong)
        else Ok(BasePacket(CONN_DIR_CONN_REQ, payload))
  }

  /** The printed form, of any length. */
  function Printed(peerId: string, clientId: string, candidates: seq<DirectCandidate>): seq<byte>
    requires ValidIdentity(peerId) && ValidIdentity(clientId)
    requires forall c :: c in candidates ==> ValidCandidate(c)
  {
    RequestFields(peerId, clientId, candidates);
    Payload([peerId, clientId] + WireValues(candidates))
  }

  predicate PlainField(s: string) {
    IsAscii(s) && NUL !in s && ';' !in s
  }

  lemma RequestFields(peerId: string, clientId: string, candidates: seq<DirectCandidate>)
    requires ValidIdentity(peerId) && ValidIdentity(clientId)
    requires forall c :: c in candidates ==> ValidCandidate(c)
    ensures var fields := [peerId, clientId] + WireValues(candidates);
      && (forall i :: 0 <= i < |fields| ==> PlainField(fields[i]))
      && IsAscii(Join(fields, ';')) && NUL !in Join(fields, ';')
  {
    var fields := [peerId, clientId] + WireValues(candidates);
    forall i | 0 <= i < |fields| ensures PlainField(fields[i]) {
      if i >= 2 {
        WireValueIsPlain(candidates[i - 2]);
        assert fields[i] == WireValue(candidates[i - 2]);
      }
    }
    JoinOfPlain(fields);
  }

  lemma {:induction false} JoinOfPlain(fields: seq<string>)
    requires forall i :: 0 <= i < |fields| ==> PlainField(fields[i])
    ensures IsAscii(Join(fields, ';')) && NUL !in Join(fields, ';')
  {
    if |fields| > 1 {
      JoinOfPlain(fields[1..]);
    }
  }

  function TrailingNuls(payload: seq<byte>): (n: nat)
    ensures n <= |payload|
  {
    if payload == [] || payload[|payload| - 1] != 0 then 0 else 1 + TrailingNuls(payload[..|payload| - 1])
  }

  function DecodeBody(payload: seq<byte>): Result<string, DirectError> {
    var n := TrailingNuls(payload);
    if n != 1 && n != 2 then Err(Termination)
    else
      var body := payload[..|payload| - n];
      if 0 in body then Err(EmbeddedNul)
      else
        match DecodeAscii(body)
        case None => Err(NotAscii)
        case Some(text) => Ok(text)
  }

  datatype Forward = Forward(peerId: string, clientId: string, candidates: seq<DirectCandidate>)

  function ParseCandidates(fields: seq<string>): Option<seq<DirectCandidate>> {
    if fields == [] then Some([])
    else
      match ParseCandidate(fields[0])
      case None => None
      case Some(c) =>
        match ParseCandidates(fields[1..])
        case None => None
        case Some(rest) => Some([c] + rest)
  }

  function ParseForward(packet: BasePacket, expected: Option<string>): Result<Forward, DirectError> {
    if packet.command != CONN_DIR_CONN_FORWARD then Err(WrongCommand)
    else
      match DecodeBody(packet.payload)
      case Err(error) => Err(error)
      case Ok(body) =>
        var fields := Split(body, ';');
        if |fields| < 3 then Err(TooFewFields)
        else
          match (ValidateIdentity(fields[0]), ValidateIdentity(fields[1]))
          case (Some(error), _) => Err(error)
          case (None, Some(error)) => Err(error)
          case (None, None) =>
            match ParseCandidates(fields[2..])
            case None => Err(InvalidCandidate)
            case Some(candidates) =>
              if candidates == [] then Err(NoCandidates)
              else if expected.Some? && expected.value != fields[1] then Err(ClientMismatch)
              else Ok(Forward(fields[0], fields[1], candidates))
  }

  lemma {:induction false} CandidatesRoundTrip(candidates: seq<DirectCandidate>)
    requires forall c :: c in candidates ==> ValidCandidate(c)
    ensures ParseCandidates(WireValues(candidates)) == Some(candidates)
  {
    if candidates != [] {
      CandidateRoundTrip(candidates[0]);
      assert WireValues(candidates)[1..] == WireValues(candidates[1..]);
      CandidatesRoundTrip(candidates[1..]);
      assert candidates == [candidates[0]] + candidates[1..];
    } else {
      assert WireValues(candidates) == [];
    }
  }

  lemma BodyOfPayload(text: string, nuls: nat)
    requires IsAscii(text) && NUL !in text && text != "" && 1 <= nuls <= 2
    ensures DecodeBody(EncodeAscii(text) + (if nuls == 1 then [0] else [0, 0])) == Ok(text)
  {
    var body := EncodeAscii(text);
    assert body[|body| - 1] == text[|text| - 1] as int != 0;
    assert TrailingNuls(body) == 0;
    assert (body + [0])[..|body|] == body;
    assert TrailingNuls(body + [0]) == 1;
    if nuls == 2 {
      assert (body + [0, 0])[..|body| + 1] == body + [0];
      assert (body + [0, 0])[..|body|] == body;
    }
    forall i | 0 <= i < |body| ensures body[i] != 0 {
      assert text[i] != NUL;
    }
    DecodeOfEncodeAscii(text);
  }

  /**
    A request that can be sent, ended by one NUL or two and relabelled as a forward, parses back to the same
    identities and candidates, and is refused exactly when another client was expected. A request can be sent
    exactly when its identities are usable, it has a candidate, and it fits.
  */
  lemma ForwardOfRequest(peerId: string, clientId: string, candidates: seq<DirectCandidate>, extraNul: bool,
                         expected: Option<string>)
    requires forall c :: c in candidates ==> ValidCandidate(c)
    ensures var request := RequestPacket(peerId, clientId, candidates);
      && (request.Ok? <==>
            && ValidIdentity(peerId) && ValidIdentity(clientId) && candidates != []
            && |Printed(peerId, clientId, candidates)| <= MAX_DIRECT_SIGNAL_PAYLOAD)
      && (request.Ok? ==>
            var forwarded := BasePacket(CONN_DIR_CONN_FORWARD, request.value.payload + (if extraNul then [0] else []));
               ParseForward(forwarded, expected) ==
                 if expected.Some? && expected.value != clientId then Err(ClientMismatch)
                 else Ok(Forward(peerId, clientId, candidates)))
      && (ValidIdentity(peerId) && ValidIdentity(clientId) && candidates != [] ==>
            request.Ok? || request == Err(TooLong))
  {
    if ValidIdentity(peerId) && ValidIdentity(clientId) && candidates != [] {
      PayloadParses(peerId, clientId, candidates, extraNul, expected);
    }
  }

  lemma PayloadParses(peerId: string, clientId: string, candidates: seq<DirectCandidate>, extraNul: bool,
                      expected: Option<string>)
    requires ValidIdentity(peerId) && ValidIdentity(clientId) && candidates != []
    requires forall c :: c in candidates ==> ValidCandidate(c)
    ensures var payload := Printed(peerId, clientId, candidates);
      ParseForward(BasePacket(CONN_DIR_CONN_FORWARD, payload + (if extraNul then [0] else [])), expected) ==
        if expected.Some? && expected.value != clientId then Err(ClientMismatch)
        else Ok(Forward(peerId, clientId, candidates))
  {
    var fields := [peerId, clientId] + WireValues(candidates);
    var text := Join(fields, ';');
    RequestFields(peerId, clientId, candidates);
    FieldsComeBack(fields);
    assert text[0] == peerId[0];
    BodyOfPayload(text, if extraNul then 2 else 1);
    var payload := Printed(peerId, clientId, candidates) + (if extraNul then [0] else []);
    assert payload == EncodeAscii(text) + (if extraNul then [0, 0] else [0]);
    assert fields[2..] == WireValues(candidates);
    CandidatesRoundTrip(candidates);
  }

  lemma FieldsComeBack(fields: seq<string>)
    requires fields != [] && forall i :: 0 <= i < |fields| ==> PlainField(fields[i])
    ensures Split(Join(fields, ';'), ';') == fields
  {
    forall f | f in fields ensures ';' !in f {
      var i :| 0 <= i < |fields| && fields[i] == f;
      assert PlainField(fields[i]);
    }
    SplitOfJoin(fields, ';');
  }

  /** Whatever parses is well formed: printing it and parsing again changes nothing. */
  lemma ForwardIsNormal(packet: BasePacket, expected: Option<string>)
    requires ParseForward(packet, expected).Ok?
    ensures var f := ParseForward(packet, expected).value;
      && ValidIdentity(f.peerId) && ValidIdentity(f.clientId) && f.candidates != []
      && (forall c :: c in f.candidates ==> ValidCandidate(c))
      && var printed := Printed(f.peerId, f.clientId, f.candidates);
         ParseForward(BasePacket(CONN_DIR_CONN_FORWARD, printed), expected) == Ok(f)
  {
    var f := ParseForward(packet, expected).value;
    var fields := Split(DecodeBody(packet.payload).value, ';');
    ParsedCandidatesAreValid(fields[2..]);
    PayloadParses(f.peerId, f.clientId, f.candidates, false, expected);
    var printed := Printed(f.peerId, f.clientId, f.candidates);
    assert printed + [] == printed;
  }

  lemma {:induction false} ParsedCandidatesAreValid(fields: seq<string>)
    requires ParseCandidates(fields).Some?
    ensures forall c :: c in ParseCandidates(fields).value ==> ValidCandidate(c)
  {
    if fields != [] {
      ParsedCandidatesAreValid(fields[1..]);
      var partition := RPartition(fields[0], ':').value;
      AddressIsNormal(partition.0);
    }
  }
}
