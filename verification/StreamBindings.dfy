/** The partition of owned cameras into Orbweb stream routes. */
module StreamBindings {
  import opened Bytes

  datatype Camera = Camera(registrationId: string, name: string, macAddress: Option<string>,
                           sid: Option<string>, password: Option<string>)

  datatype LocalSpec = LocalSpec(host: string, name: string, cloudMac: Option<string>)

  datatype Binding = Binding(key: string, name: string, uniqueId: string, deviceIdentifier: string,
                             routeHost: Option<string>, targetId: string, authPassword: string)

  /** The arguments of the call. */
  datatype Inventory = Inventory(cameras: seq<Camera>, specs: seq<LocalSpec>,
                                 localMacs: map<string, Option<string>>, directHosts: set<string>)

  predicate Given(s: Option<string>) {
    s.Some? && s.value != ""
  }

  predicate HasCredentials(c: Camera) {
    Given(c.sid) && Given(c.password)
  }

  function Lower(c: char): char {
    if 'A' <= c <= 'Z' then c - 'A' + 'a' else c
  }

  function HexOnly(s: string): string {
    if s == "" then ""
    else (if Lower(s[0]) in "0123456789abcdef" then [Lower(s[0])] else "") + HexOnly(s[1..])
  }

  /** Twelve lowercase hexadecimal characters, or nothing. */
  function NormalizeMac(s: string): string {
    if |HexOnly(s)| == 12 then HexOnly(s) else ""
  }

  function OrEmpty(s: Option<string>): string {
    if s.Some? then s.value else ""
  }

  function CameraMac(c: Camera): string {
    NormalizeMac(OrEmpty(c.macAddress))
  }

  /** The address from the specification, else the one seen on the network. */
  function SpecMac(inv: Inventory, s: LocalSpec): string {
    NormalizeMac(if Given(s.cloudMac) then s.cloudMac.value
                 else if s.host in inv.localMacs then OrEmpty(inv.localMacs[s.host])
                 else "")
  }

  /** The last credentialed camera among the first n with the address, as in a dictionary comprehension. */
  function ByMac(cameras: seq<Camera>, n: nat, mac: string): Option<Camera>
    requires n <= |cameras|
  {
    if n == 0 || mac == "" then None
    else if HasCredentials(cameras[n - 1]) && CameraMac(cameras[n - 1]) == mac then Some(cameras[n - 1])
    else ByMac(cameras, n - 1, mac)
  }

  /** The camera a local specification stands for. */
  function Claim(inv: Inventory, i: nat): Option<Camera>
    requires i < |inv.specs|
  {
    ByMac(inv.cameras, |inv.cameras|, SpecMac(inv, inv.specs[i]))
  }

  function HostBinding(s: LocalSpec, c: Camera): Binding {
    Binding(s.host, s.name, s.host + ":camera", "camera:" + s.host, Some(s.host), OrEmpty(c.sid), OrEmpty(c.password))
  }

  function CloudKey(c: Camera): string {
    "cloud:" + c.registrationId
  }

  function CloudBinding(c: Camera): Binding {
    Binding(CloudKey(c), c.name, CloudKey(c) + ":camera", CloudKey(c), None, OrEmpty(c.sid), OrEmpty(c.password))
  }

  // ---------------------------------------------------------------- reference definition

  predicate Claims(inv: Inventory, i: nat, registrationId: string) {
    i < |inv.specs| && Claim(inv, i).Some? && Claim(inv, i).value.registrationId == registrationId
  }

  /** The first of the first n specifications that stands for the registration. */
  function FirstClaim(inv: Inventory, n: nat, registrationId: string): Option<nat>
    requires n <= |inv.specs|
  {
    if n == 0 then None
    else if FirstClaim(inv, n - 1, registrationId).Some? then FirstClaim(inv, n - 1, registrationId)
    else if Claims(inv, n - 1, registrationId) then Some(n - 1)
    else None
  }

  lemma {:induction false} FirstClaimIsFirst(inv: Inventory, n: nat, registrationId: string)
    requires n <= |inv.specs|
    ensures match FirstClaim(inv, n, registrationId)
      case Some(i) => i < n && Claims(inv, i, registrationId) && forall j: nat :: j < i ==> !Claims(inv, j, registrationId)
      case None => forall j: nat :: j < n ==> !Claims(inv, j, registrationId)
  {
    if n > 0 {
      FirstClaimIsFirst(inv, n - 1, registrationId);
    }
  }

  /** What becomes of one camera. */
  datatype Fate = Unbound | ByHost(spec: nat) | ServedDirectly(spec: nat) | ByCloud

  function FateOf(inv: Inventory, c: Camera): Fate {
    if !HasCredentials(c) then Unbound
    else
      match FirstClaim(inv, |inv.specs|, c.registrationId)
      case None => ByCloud
      case Some(i) =>
        FirstClaimIsFirst(inv, |inv.specs|, c.registrationId);
        if inv.specs[i].host in inv.directHosts then ServedDirectly(i) else ByHost(i)
  }

  /** The one binding a camera should have, if any. */
  function Expected(inv: Inventory, c: Camera): Option<Binding> {
    match FateOf(inv, c)
    case ByHost(i) =>
      FirstClaimIsFirst(inv, |inv.specs|, c.registrationId);
      Some(HostBinding(inv.specs[i], c))
    case ByCloud => Some(CloudBinding(c))
    case _ => None
  }

  /** Registrations represented by the first n specifications. */
  function Represented(inv: Inventory, n: nat): set<string>
    requires n <= |inv.specs|
  {
    if n == 0 then {}
    else Represented(inv, n - 1) + (if Claim(inv, n - 1).Some? then {Claim(inv, n - 1).value.registrationId} else {})
  }

  function HostPart(inv: Inventory, n: nat): seq<Binding>
    requires n <= |inv.specs|
  {
    if n == 0 then []
    else HostPart(inv, n - 1) + HostPiece(inv, n - 1)
  }

  function CloudPart(inv: Inventory, n: nat): seq<Binding>
    requires n <= |inv.cameras|
  {
    if n == 0 then []
    else
      CloudPart(inv, n - 1) +
      var c := inv.cameras[n - 1];
      if HasCredentials(c) && c.registrationId !in Represented(inv, |inv.specs|) then [CloudBinding(c)] else []
  }

  /** The dictionary comprehension: later cameras replace earlier ones with the same address. */
  method IndexByMac(cameras: seq<Camera>) returns (cloudByMac: map<string, Camera>)
    ensures forall mac :: ByMac(cameras, |cameras|, mac) == if mac in cloudByMac then Some(cloudByMac[mac]) else None
  {
    cloudByMac := map[];
    for n := 0 to |cameras|
      invariant forall mac :: ByMac(cameras, n, mac) == if mac in cloudByMac then Some(cloudByMac[mac]) else None
    {
      var c := cameras[n];
      if HasCredentials(c) && CameraMac(c) != "" {
        cloudByMac := cloudByMac[CameraMac(c) := c];
      }
    }
  }

  /** The two loops over the local specifications and the cloud inventory. */
  method BuildBindings(inv: Inventory) returns (bindings: seq<Binding>)
    ensures bindings == HostPart(inv, |inv.specs|) + CloudPart(inv, |inv.cameras|)
  {
    var cloudByMac := IndexByMac(inv.cameras);
    var represented: set<string> := {};
    bindings := [];
    for n := 0 to |inv.specs|
      invariant represented == Represented(inv, n)
      invariant bindings == HostPart(inv, n)
    {
      var spec := inv.specs[n];
      var mac := SpecMac(inv, spec);
      if mac !in cloudByMac || cloudByMac[mac].registrationId in represented {
        continue;
      }
      var camera := cloudByMac[mac];
      represented := represented + {camera.registrationId};
      if spec.host in inv.directHosts {
        continue;
      }
      bindings := bindings + [HostBinding(spec, camera)];
    }
    ghost var hosts := bindings;
    for n := 0 to |inv.cameras|
      invariant bindings == hosts + CloudPart(inv, n)
    {
      var c := inv.cameras[n];
      if !HasCredentials(c) || c.registrationId in represented {
        continue;
      }
      bindings := bindings + [CloudBinding(c)];
    }
  }

  // ---------------------------------------------------------------- the partition

  predicate Distinct(inv: Inventory) {
    && (forall i, j :: 0 <= i < j < |inv.cameras| ==> inv.cameras[i].registrationId != inv.cameras[j].registrationId)
    && (forall i, j :: 0 <= i < j < |inv.specs| ==> inv.specs[i].host != inv.specs[j].host)
    && (forall i :: 0 <= i < |inv.specs| ==> !("cloud:" <= inv.specs[i].host))
  }

  lemma {:induction false} ByMacFinds(cameras: seq<Camera>, n: nat, mac: string)
    requires n <= |cameras| && ByMac(cameras, n, mac).Some?
    ensures ByMac(cameras, n, mac).value in cameras && HasCredentials(ByMac(cameras, n, mac).value)
  {
    if !(HasCredentials(cameras[n - 1]) && CameraMac(cameras[n - 1]) == mac) {
      ByMacFinds(cameras, n - 1, mac);
    }
  }

  lemma {:induction false} RepresentedMeansClaimed(inv: Inventory, n: nat, registrationId: string)
    requires n <= |inv.specs|
    ensures registrationId in Represented(inv, n) <==> FirstClaim(inv, n, registrationId).Some?
  {
    if n > 0 {
      RepresentedMeansClaimed(inv, n - 1, registrationId);
    }
  }

  /** Which specification a host binding comes from. */
  ghost predicate HostSource(inv: Inventory, i: nat, b: Binding) {
    && i < |inv.specs| && Claim(inv, i).Some?
    && FirstClaim(inv, |inv.specs|, Claim(inv, i).value.registrationId) == Some(i)
    && inv.specs[i].host !in inv.directHosts
    && b == HostBinding(inv.specs[i], Claim(inv, i).value)
  }

  lemma {:induction false} FirstClaimGrows(inv: Inventory, n: nat, m: nat, registrationId: string)
    requires n <= m <= |inv.specs| && FirstClaim(inv, n, registrationId).Some?
    ensures FirstClaim(inv, m, registrationId) == FirstClaim(inv, n, registrationId)
    decreases m
  {
    if n < m {
      FirstClaimGrows(inv, n, m - 1, registrationId);
    }
  }

  /** What the n-th specification adds. */
  function HostPiece(inv: Inventory, i: nat): seq<Binding>
    requires i < |inv.specs|
  {
    match Claim(inv, i)
    case None => []
    case Some(c) =>
      if c.registrationId in Represented(inv, i) || inv.specs[i].host in inv.directHosts then []
      else [HostBinding(inv.specs[i], c)]
  }

  lemma HostPieceMember(inv: Inventory, i: nat, b: Binding)
    requires i < |inv.specs|
    ensures b in HostPiece(inv, i) <==> HostSource(inv, i, b)
  {
    var claim := Claim(inv, i);
    if claim.Some? {
      var id := claim.value.registrationId;
      RepresentedMeansClaimed(inv, i, id);
      if FirstClaim(inv, i, id).Some? {
        FirstClaimGrows(inv, i, |inv.specs|, id);
        FirstClaimIsFirst(inv, i, id);
      } else {
        FirstClaimGrows(inv, i + 1, |inv.specs|, id);
      }
    }
  }

  lemma {:induction false} HostPartMember(inv: Inventory, n: nat, b: Binding)
    requires n <= |inv.specs|
    ensures b in HostPart(inv, n) <==> HostAmong(inv, n, b)
  {
    if n > 0 {
      HostPartMember(inv, n - 1, b);
      HostPieceMember(inv, n - 1, b);
      AmongStep(inv, n, b);
    }
  }

  ghost predicate HostAmong(inv: Inventory, n: nat, b: Binding) {
    exists i: nat :: i < n && HostSource(inv, i, b)
  }

  lemma AmongStep(inv: Inventory, n: nat, b: Binding)
    requires n > 0
    ensures HostAmong(inv, n, b) <==> HostAmong(inv, n - 1, b) || HostSource(inv, n - 1, b)
  {
  }

  predicate CloudSource(inv: Inventory, i: nat, b: Binding) {
    i < |inv.cameras| && FateOf(inv, inv.cameras[i]) == ByCloud && b == CloudBinding(inv.cameras[i])
  }

  lemma {:induction false} CloudPartMember(inv: Inventory, n: nat, b: Binding)
    requires n <= |inv.cameras|
    ensures b in CloudPart(inv, n) <==> exists i: nat :: i < n && CloudSource(inv, i, b)
  {
    if n > 0 {
      CloudPartMember(inv, n - 1, b);
      RepresentedMeansClaimed(inv, |inv.specs|, inv.cameras[n - 1].registrationId);
      assert CloudSource(inv, n - 1, b) <==> b in CloudPart(inv, n)[|CloudPart(inv, n - 1)|..];
    }
  }

  predicate DistinctKeys(bindings: seq<Binding>) {
    forall k, l :: 0 <= k < l < |bindings| ==> bindings[k].key != bindings[l].key
  }

  lemma {:induction false} HostKeys(inv: Inventory, n: nat)
    requires Distinct(inv) && n <= |inv.specs|
    ensures DistinctKeys(HostPart(inv, n))
    ensures forall k :: 0 <= k < |HostPart(inv, n)| ==> !("cloud:" <= HostPart(inv, n)[k].key)
  {
    if n > 0 {
      HostKeys(inv, n - 1);
      var before := HostPart(inv, n - 1);
      forall k | 0 <= k < |before|
        ensures before[k].key != inv.specs[n - 1].host
      {
        HostPartMember(inv, n - 1, before[k]);
        var i: nat :| i < n - 1 && HostSource(inv, i, before[k]);
      }
    }
  }

  lemma {:induction false} CloudKeys(inv: Inventory, n: nat)
    requires Distinct(inv) && n <= |inv.cameras|
    ensures DistinctKeys(CloudPart(inv, n))
    ensures forall k :: 0 <= k < |CloudPart(inv, n)| ==> "cloud:" <= CloudPart(inv, n)[k].key
  {
    if n > 0 {
      CloudKeys(inv, n - 1);
      var before := CloudPart(inv, n - 1);
      forall k | 0 <= k < |before|
        ensures before[k].key != CloudKey(inv.cameras[n - 1])
      {
        CloudPartMember(inv, n - 1, before[k]);
        var i: nat :| i < n - 1 && CloudSource(inv, i, before[k]);
        CloudKeyTail(inv.cameras[i]);
        CloudKeyTail(inv.cameras[n - 1]);
      }
    }
  }

  lemma CloudKeyTail(c: Camera)
    ensures CloudKey(c)[6..] == c.registrationId
  {
  }

  /** A claimed camera is the one in the inventory. */
  lemma ClaimedCamera(inv: Inventory, i: nat)
    requires i < |inv.specs| && Claim(inv, i).Some?
    ensures Claim(inv, i).value in inv.cameras && HasCredentials(Claim(inv, i).value)
  {
    ByMacFinds(inv.cameras, |inv.cameras|, SpecMac(inv, inv.specs[i]));
  }

  lemma SameCamera(inv: Inventory, c: Camera, d: Camera)
    requires Distinct(inv) && c in inv.cameras && d in inv.cameras && c.registrationId == d.registrationId
    ensures c == d
  {
    var i :| 0 <= i < |inv.cameras| && inv.cameras[i] == c;
    var j :| 0 <= j < |inv.cameras| && inv.cameras[j] == d;
    assert i == j;
  }

  /**
    Every credentialed camera is covered exactly once: bound by the first host with its address, left to that
    host's own RTSP service, or bound by its cloud key. Nothing else is bound and no key is used twice.
  */
  lemma Partition(inv: Inventory)
    requires Distinct(inv)
    ensures var bindings := HostPart(inv, |inv.specs|) + CloudPart(inv, |inv.cameras|);
      && (forall c :: c in inv.cameras && Expected(inv, c).Some? ==> Expected(inv, c).value in bindings)
      && (forall b :: b in bindings ==> exists c :: c in inv.cameras && HasCredentials(c) && Expected(inv, c) == Some(b))
      && DistinctKeys(bindings)
  {
    var hosts, clouds := HostPart(inv, |inv.specs|), CloudPart(inv, |inv.cameras|);
    forall c | c in inv.cameras && Expected(inv, c).Some?
      ensures Expected(inv, c).value in hosts + clouds
    {
      ExpectedIsBound(inv, c);
    }
    forall b | b in hosts + clouds
      ensures exists c :: c in inv.cameras && HasCredentials(c) && Expected(inv, c) == Some(b)
    {
      BoundIsExpected(inv, b);
    }
    HostKeys(inv, |inv.specs|);
    CloudKeys(inv, |inv.cameras|);
  }

  lemma ExpectedIsBound(inv: Inventory, c: Camera)
    requires Distinct(inv) && c in inv.cameras && Expected(inv, c).Some?
    ensures var b := Expected(inv, c).value;
      b in HostPart(inv, |inv.specs|) || b in CloudPart(inv, |inv.cameras|)
  {
    var b := Expected(inv, c).value;
    var fate := FateOf(inv, c);
    if fate.ByHost? {
      FirstClaimIsFirst(inv, |inv.specs|, c.registrationId);
      ClaimedCamera(inv, fate.spec);
      SameCamera(inv, c, Claim(inv, fate.spec).value);
      assert HostSource(inv, fate.spec, b);
      HostPartMember(inv, |inv.specs|, b);
    } else {
      var i :| 0 <= i < |inv.cameras| && inv.cameras[i] == c;
      assert CloudSource(inv, i, b);
      CloudPartMember(inv, |inv.cameras|, b);
    }
  }

  lemma BoundIsExpected(inv: Inventory, b: Binding)
    requires Distinct(inv)
    requires b in HostPart(inv, |inv.specs|) || b in CloudPart(inv, |inv.cameras|)
    ensures exists c :: c in inv.cameras && HasCredentials(c) && Expected(inv, c) == Some(b)
  {
    if b in HostPart(inv, |inv.specs|) {
      HostPartMember(inv, |inv.specs|, b);
      var i: nat :| i < |inv.specs| && HostSource(inv, i, b);
      ClaimedCamera(inv, i);
      assert Expected(inv, Claim(inv, i).value) == Some(b);
    } else {
      CloudPartMember(inv, |inv.cameras|, b);
      var i: nat :| i < |inv.cameras| && CloudSource(inv, i, b);
      assert Expected(inv, inv.cameras[i]) == Some(b);
    }
  }

  /** Different cameras never share a binding. */
  lemma ExpectedIsInjective(inv: Inventory, c: Camera, d: Camera)
    requires Distinct(inv) && c in inv.cameras && d in inv.cameras
    requires Expected(inv, c).Some? && Expected(inv, c) == Expected(inv, d)
    ensures c == d
  {
    FirstClaimIsFirst(inv, |inv.specs|, c.registrationId);
    FirstClaimIsFirst(inv, |inv.specs|, d.registrationId);
    if FateOf(inv, c).ByHost? {
      assert Expected(inv, c).value.routeHost == Expected(inv, d).value.routeHost;
      assert FateOf(inv, d).ByHost?;
      assert FateOf(inv, c).spec == FateOf(inv, d).spec;
    } else {
      CloudKeyTail(c);
      CloudKeyTail(d);
    }
    SameCamera(inv, c, d);
  }
}
