/** The language of forwarded direct requests: exactly what the parser accepts, and what it makes of it. */
module Rendezvous {
  import opened Bytes
  import opened Text
  import opened Framing
  import opened Direct

  // ---------------------------------------------------------------- addresses

  function DottedQuad(a: nat, b: nat, c: nat, d: nat): string {
    Decimal(a) + "." + Decimal(b) + "." + Decimal(c) + "." + Decimal(d)
  }

  /** An octet is the numeral of a number up to 255. */
  lemma OctetIsNumeral(s: string)
    ensures OctetText(s) <==> exists n: nat :: n <= 255 && s == Decimal(n)
  {
    if OctetText(s) {
      DecimalOfParse(s);
      assert ParseDecimal(s) <= 255 && s == Decimal(ParseDecimal(s));
    }
    if n: nat :| n <= 255 && s == Decimal(n) {
      ParseOfDecimal(n);
      ShortNumeral(n);
    }
  }

  lemma ShortNumeral(n: nat)
    requires n <= 999
    ensures |Decimal(n)| <= 3
  {
    assert n >= 10 ==> |Decimal(n)| == |Decimal(n / 10)| + 1;
    assert n >= 100 ==> |Decimal(n / 10)| == |Decimal(n / 100)| + 1;
  }

  lemma QuadIsJoin(a: nat, b: nat, c: nat, d: nat)
    ensures Join([Decimal(a), Decimal(b), Decimal(c), Decimal(d)], '.') == DottedQuad(a, b, c, d)
  {
    JoinOfFour(Decimal(a), Decimal(b), Decimal(c), Decimal(d));
  }

  lemma JoinOfFour(w: string, x: string, y: string, z: string)
    ensures Join([w, x, y, z], '.') == w + "." + x + "." + y + "." + z
  {
    assert [w, x, y, z][1..] == [x, y, z] && [x, y, z][1..] == [y, z] && [y, z][1..] == [z];
    assert Join([z], '.') == z;
    assert Join([y, z], '.') == y + ['.'] + z;
    assert Join([x, y, z], '.') == x + ['.'] + (y + ['.'] + z);
    assert Join([w, x, y, z], '.') == w + ['.'] + (x + ['.'] + (y + ['.'] + z));
  }

  /** The addresses accepted are the dotted quads. */
  lemma Ipv4IsDottedQuad(s: string)
    ensures IsIpv4(s) <==>
      exists a: nat, b: nat, c: nat, d: nat :: a <= 255 && b <= 255 && c <= 255 && d <= 255 && s == DottedQuad(a, b, c, d)
  {
    if IsIpv4(s) {
      var octets := Split(s, '.');
      JoinOfSplit(s, '.');
      assert OctetText(octets[0]) && OctetText(octets[1]) && OctetText(octets[2]) && OctetText(octets[3]);
      DecimalOfParse(octets[0]);
      DecimalOfParse(octets[1]);
      DecimalOfParse(octets[2]);
      DecimalOfParse(octets[3]);
      var a, b, c, d := ParseDecimal(octets[0]), ParseDecimal(octets[1]), ParseDecimal(octets[2]), ParseDecimal(octets[3]);
      assert octets == [Decimal(a), Decimal(b), Decimal(c), Decimal(d)];
      QuadIsJoin(a, b, c, d);
      assert s == DottedQuad(a, b, c, d);
    }
    if a: nat, b: nat, c: nat, d: nat :| a <= 255 && b <= 255 && c <= 255 && d <= 255 && s == DottedQuad(a, b, c, d) {
      QuadIsIpv4(a, b, c, d);
    }
  }

  lemma QuadIsIpv4(a: nat, b: nat, c: nat, d: nat)
    requires a <= 255 && b <= 255 && c <= 255 && d <= 255
    ensures IsIpv4(DottedQuad(a, b, c, d))
  {
    var fields := [Decimal(a), Decimal(b), Decimal(c), Decimal(d)];
    QuadIsJoin(a, b, c, d);
    forall f | f in fields ensures '.' !in f {
      assert AllDigits(f);
    }
    SplitOfJoin(fields, '.');
    OctetIsNumeral(Decimal(a));
    OctetIsNumeral(Decimal(b));
    OctetIsNumeral(Decimal(c));
    OctetIsNumeral(Decimal(d));
  }

  // ---------------------------------------------------------------- candidates

  /** An address, a colon and a decimal port, with leading zeros or without. */
  ghost predicate Spelled(text: string, c: DirectCandidate, digits: string) {
    && ValidCandidate(c) && digits != "" && AllDigits(digits) && ParseDecimal(digits) == c.port
    && text == c.address + [':'] + digits
  }

  lemma {:induction false} RPartitionMeans(s: string, separator: char)
    ensures match RPartition(s, separator)
      case None => separator !in s
      case Some((before, after)) => s == before + [separator] + after && separator !in after
  {
    if s != "" && s[|s| - 1] != separator {
      var front := s[..|s| - 1];
      RPartitionMeans(front, separator);
      assert s == front + [s[|s| - 1]];
    } else if s != "" {
      assert s == s[..|s| - 1] + [separator] + "";
    }
  }

  /** A candidate parses exactly when it is spelled so. */
  lemma CandidateIsSpelled(text: string, c: DirectCandidate)
    ensures ParseCandidate(text) == Some(c) <==> SpelledSomehow(text, c)
  {
    if ParseCandidate(text) == Some(c) {
      RPartitionMeans(text, ':');
      var (address, digits) := RPartition(text, ':').value;
      AddressIsNormal(address);
      assert Spelled(text, c, digits);
    }
    if digits :| Spelled(text, c, digits) {
      assert ':' !in digits by {
        assert forall i :: 0 <= i < |digits| ==> IsDigit(digits[i]);
      }
      RPartitionOf(c.address, ':', digits);
      AddressIsNormal(c.address);
    }
  }

  ghost predicate SpelledSomehow(text: string, c: DirectCandidate) {
    exists digits :: Spelled(text, c, digits)
  }

  ghost predicate SpelledAll(fields: seq<string>, candidates: seq<DirectCandidate>) {
    && |fields| == |candidates|
    && forall i :: 0 <= i < |fields| ==> SpelledSomehow(fields[i], candidates[i])
  }

  lemma {:induction false} CandidatesAreSpelled(fields: seq<string>, candidates: seq<DirectCandidate>)
    ensures ParseCandidates(fields) == Some(candidates) <==> SpelledAll(fields, candidates)
    decreases |fields|
  {
    if fields != [] && candidates != [] {
      CandidateIsSpelled(fields[0], candidates[0]);
      CandidatesAreSpelled(fields[1..], candidates[1..]);
      assert candidates == [candidates[0]] + candidates[1..];
      SpelledCons(fields, candidates);
    } else if fields != [] && ParseCandidates(fields).Some? {
      assert |ParseCandidates(fields).value| > 0;
    }
  }

  lemma SpelledCons(fields: seq<string>, candidates: seq<DirectCandidate>)
    requires fields != [] && candidates != []
    ensures SpelledAll(fields, candidates)
      <==> SpelledSomehow(fields[0], candidates[0]) && SpelledAll(fields[1..], candidates[1..])
  {
    if SpelledSomehow(fields[0], candidates[0]) && SpelledAll(fields[1..], candidates[1..]) {
      forall i | 0 <= i < |fields| ensures SpelledSomehow(fields[i], candidates[i]) {
        if i > 0 {
          assert fields[i] == fields[1..][i - 1] && candidates[i] == candidates[1..][i - 1];
        }
      }
    }
    if SpelledAll(fields, candidates) {
      forall i | 0 <= i < |fields[1..]| ensures SpelledSomehow(fields[1..][i], candidates[1..][i]) {
        assert fields[1..][i] == fields[i + 1] && candidates[1..][i] == candidates[i + 1];
      }
    }
  }

  // ---------------------------------------------------------------- forwards

  /** The text of a payload: the bytes of ASCII characters without NUL, ended by one NUL or two. */
  ghost predicate Carries(payload: seq<byte>, text: string) {
    && IsAscii(text) && NUL !in text
    && (payload == EncodeAscii(text) + [0] || payload == EncodeAscii(text) + [0, 0])
  }

  /** Fields separated by semicolons: the two identities and the candidates, at least one. */
  ghost predicate Reads(text: string, f: Forward, fields: seq<string>) {
    && ValidIdentity(f.peerId) && ValidIdentity(f.clientId) && f.candidates != []
    && SpelledAll(fields, f.candidates)
    && text == Join([f.peerId, f.clientId] + fields, ';')
  }

  ghost predicate Says(payload: seq<byte>, f: Forward) {
    exists text, fields :: Carries(payload, text) && Reads(text, f, fields)
  }

  lemma BodyIsCarried(payload: seq<byte>, text: string)
    requires text != ""
    ensures DecodeBody(payload) == Ok(text) <==> Carries(payload, text)
  {
    if Carries(payload, text) {
      BodyOfPayload(text, if payload == EncodeAscii(text) + [0] then 1 else 2);
    }
    if DecodeBody(payload) == Ok(text) {
      var n := TrailingNuls(payload);
      TrailingAreNul(payload);
      var body := payload[..|payload| - n];
      assert body == EncodeAscii(text);
      forall i | 0 <= i < |text| ensures text[i] != NUL {
        assert body[i] in body && body[i] != 0;
      }
      assert payload == body + payload[|payload| - n..];
      assert payload[|payload| - n..] == if n == 1 then [0] else [0, 0];
    }
  }

  lemma {:induction false} TrailingAreNul(payload: seq<byte>)
    ensures forall i :: |payload| - TrailingNuls(payload) <= i < |payload| ==> payload[i] == 0
  {
    if payload != [] && payload[|payload| - 1] == 0 {
      TrailingAreNul(payload[..|payload| - 1]);
    }
  }

  lemma SpelledIsPlain(fields: seq<string>, candidates: seq<DirectCandidate>)
    requires SpelledAll(fields, candidates)
    ensures forall i :: 0 <= i < |fields| ==> PlainField(fields[i])
  {
    forall i | 0 <= i < |fields| ensures PlainField(fields[i]) {
      assert SpelledSomehow(fields[i], candidates[i]);
      var digits :| Spelled(fields[i], candidates[i], digits);
      AddressIsNormal(candidates[i].address);
      assert forall j :: 0 <= j < |fields[i]| ==> IsDigit(fields[i][j]) || fields[i][j] == '.' || fields[i][j] == ':';
    }
  }

  /** A forward that is read parses to what it says. */
  lemma SaidIsParsed(packet: BasePacket, text: string, f: Forward, fields: seq<string>)
    requires packet.command == CONN_DIR_CONN_FORWARD && Carries(packet.payload, text) && Reads(text, f, fields)
    ensures ParseForward(packet, None) == Ok(f)
  {
    var all := [f.peerId, f.clientId] + fields;
    SpelledIsPlain(fields, f.candidates);
    forall i | 0 <= i < |all| ensures PlainField(all[i]) {
      if i >= 2 {
        assert all[i] == fields[i - 2];
      }
    }
    FieldsComeBack(all);
    assert text[0] == f.peerId[0];
    BodyIsCarried(packet.payload, text);
    assert all[2..] == fields;
    CandidatesAreSpelled(fields, f.candidates);
  }

  lemma ParsedIsSaid(packet: BasePacket)
    requires ParseForward(packet, None).Ok?
    ensures packet.command == CONN_DIR_CONN_FORWARD && Says(packet.payload, ParseForward(packet, None).value)
  {
    var f := ParseForward(packet, None).value;
    var text := DecodeBody(packet.payload).value;
    var all := Split(text, ';');
    JoinOfSplit(text, ';');
    assert text != "";
    BodyIsCarried(packet.payload, text);
    CandidatesAreSpelled(all[2..], f.candidates);
    assert all == [f.peerId, f.clientId] + all[2..];
    assert Reads(text, f, all[2..]);
  }

  lemma ExpectationOnlyRefuses(packet: BasePacket, expected: Option<string>)
    ensures ParseForward(packet, expected) ==
      var r := ParseForward(packet, None);
      if r.Ok? && expected.Some? && expected.value != r.value.clientId then Err(ClientMismatch) else r
  {
  }

  /** A packet parses as a forward exactly when it is one, says so, and is for the expected client. */
  lemma ParsesExactly(packet: BasePacket, expected: Option<string>, f: Forward)
    ensures ParseForward(packet, expected) == Ok(f)
      <==> packet.command == 0xCC && Says(packet.payload, f) && (expected.Some? ==> expected.value == f.clientId)
  {
    ExpectationOnlyRefuses(packet, expected);
    if ParseForward(packet, None).Ok? {
      ParsedIsSaid(packet);
    }
    if packet.command == 0xCC && Says(packet.payload, f) {
      var text, fields :| Carries(packet.payload, text) && Reads(text, f, fields);
      SaidIsParsed(packet, text, f, fields);
    }
  }

  // ---------------------------------------------------------------- requests

  /** What a request prints: its fields with plain ports, and one NUL. */
  lemma PrintedText(peerId: string, clientId: string, candidates: seq<DirectCandidate>)
    requires ValidIdentity(peerId) && ValidIdentity(clientId) && candidates != []
    requires forall c :: c in candidates ==> ValidCandidate(c)
    ensures exists text, fields ::
      && Reads(text, Forward(peerId, clientId, candidates), fields)
      && (forall i :: 0 <= i < |candidates| ==> ValidCandidate(candidates[i]) && Spelled(fields[i], candidates[i], Decimal(candidates[i].port)))
      && IsAscii(text) && Printed(peerId, clientId, candidates) == EncodeAscii(text) + [0]
    ensures RequestPacket(peerId, clientId, candidates).Ok? ==>
      RequestPacket(peerId, clientId, candidates).value == BasePacket(0xCB, Printed(peerId, clientId, candidates))
  {
    var fields := WireValues(candidates);
    var text := Join([peerId, clientId] + fields, ';');
    RequestFields(peerId, clientId, candidates);
    forall i | 0 <= i < |candidates|
      ensures ValidCandidate(candidates[i]) && Spelled(fields[i], candidates[i], Decimal(candidates[i].port))
      ensures SpelledSomehow(fields[i], candidates[i])
    {
      assert candidates[i] in candidates;
      ParseOfDecimal(candidates[i].port);
      assert Spelled(fields[i], candidates[i], Decimal(candidates[i].port));
    }
    assert Reads(text, Forward(peerId, clientId, candidates), fields);
  }

  /** Joining one field more puts one separator before it. */
  lemma {:induction false} JoinOneMore(fields: seq<string>, last: string, separator: char)
    requires fields != []
    ensures Join(fields + [last], separator) == Join(fields, separator) + [separator] + last
  {
    if |fields| > 1 {
      assert (fields + [last])[1..] == fields[1..] + [last];
      JoinOneMore(fields[1..], last, separator);
    } else {
      assert (fields + [last])[1..] == [last];
    }
  }
}
