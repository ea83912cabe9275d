/** The camera routes in terms of the inventory alone: which bindings there are, field by field. */
module Routes {
  import opened Bytes
  import opened StreamBindings

  // ---------------------------------------------------------------- addresses

  /** One character of an address as written: lowercase hexadecimal, or dropped. */
  lemma HexOnlyOfOne(c: char)
    ensures HexOnly([c]) ==
      if '0' <= c <= '9' || 'a' <= c <= 'f' then [c]
      else if c == 'A' then "a" else if c == 'B' then "b" else if c == 'C' then "c"
      else if c == 'D' then "d" else if c == 'E' then "e" else if c == 'F' then "f"
      else ""
  {
    var l := Lower(c);
    assert l in "0123456789abcdef" <==> '0' <= l <= '9' || 'a' <= l <= 'f' by {
      HexDigits(l);
    }
    assert [c][1..] == "";
    assert 'A' - 'A' + 'a' == 'a' && 'B' - 'A' + 'a' == 'b' && 'C' - 'A' + 'a' == 'c';
    assert 'D' - 'A' + 'a' == 'd' && 'E' - 'A' + 'a' == 'e' && 'F' - 'A' + 'a' == 'f';
  }

  lemma HexDigits(c: char)
    ensures c in "0123456789abcdef" <==> '0' <= c <= '9' || 'a' <= c <= 'f'
  {
    var digits := "0123456789abcdef";
    assert digits[..10] == "0123456789" && digits[10..] == "abcdef";
    if '0' <= c <= '9' {
      assert digits[(c - '0') as int] == c;
    }
    if 'a' <= c <= 'f' {
      assert digits[(c - 'a') as int + 10] == c;
    }
  }

  /** Characters are looked at one by one. */
  lemma {:induction false} HexOnlyConcat(first: string, second: string)
    ensures HexOnly(first + second) == HexOnly(first) + HexOnly(second)
  {
    if first == "" {
      assert first + second == second;
    } else {
      var all := first + second;
      assert all[0] == first[0] && all[1..] == first[1..] + second;
      HexOnlyConcat(first[1..], second);
      var head := if Lower(first[0]) in "0123456789abcdef" then [Lower(first[0])] else "";
      assert HexOnly(all) == head + HexOnly(all[1..]) && HexOnly(first) == head + HexOnly(first[1..]);
    }
  }

  /** An address has twelve digits or none. */
  lemma NormalHasTwelve(s: string)
    ensures NormalizeMac(s) == (if |HexOnly(s)| == 12 then HexOnly(s) else "")
    ensures |NormalizeMac(s)| == 12 || NormalizeMac(s) == ""
  {
  }

  /** The address a local specification goes by, as written: its own if it has one, else the one seen. */
  predicate GoesBy(inv: Inventory, s: LocalSpec, text: string) {
    if s.cloudMac.Some? && s.cloudMac.value != "" then text == s.cloudMac.value
    else s.host in inv.localMacs && inv.localMacs[s.host] == Some(text)
  }

  /** The camera has credentials and this address, which is not empty. */
  predicate Listed(c: Camera, mac: string) {
    && mac != "" && c.sid.Some? && c.sid.value != "" && c.password.Some? && c.password.value != ""
    && c.macAddress.Some? && NormalizeMac(c.macAddress.value) == mac
  }

  /** The last camera listed under the address. */
  ghost predicate LastListed(cameras: seq<Camera>, n: nat, k: nat, mac: string)
    requires n <= |cameras|
  {
    k < n && Listed(cameras[k], mac) && forall j :: k < j < n ==> !Listed(cameras[j], mac)
  }

  lemma ListedMeans(c: Camera, mac: string)
    ensures Listed(c, mac) <==> mac != "" && HasCredentials(c) && CameraMac(c) == mac
  {
    assert NormalizeMac("") == "";
  }

  /** The dictionary's answer is the last camera listed. */
  lemma {:induction false} ByMacIsLast(cameras: seq<Camera>, n: nat, mac: string) returns (k: nat)
    requires n <= |cameras| && ByMac(cameras, n, mac).Some?
    ensures LastListed(cameras, n, k, mac) && ByMac(cameras, n, mac) == Some(cameras[k])
  {
    ListedMeans(cameras[n - 1], mac);
    if Listed(cameras[n - 1], mac) {
      k := n - 1;
    } else {
      k := ByMacIsLast(cameras, n - 1, mac);
      StaysLast(cameras, n, k, mac);
    }
  }

  lemma StaysLast(cameras: seq<Camera>, n: nat, k: nat, mac: string)
    requires 0 < n <= |cameras| && LastListed(cameras, n - 1, k, mac) && !Listed(cameras[n - 1], mac)
    ensures LastListed(cameras, n, k, mac)
  {
    forall j | k < j < n ensures !Listed(cameras[j], mac) {
      assert j == n - 1 || j < n - 1;
    }
  }

  lemma {:induction false} LastIsByMac(cameras: seq<Camera>, n: nat, k: nat, mac: string)
    requires n <= |cameras| && LastListed(cameras, n, k, mac)
    ensures ByMac(cameras, n, mac) == Some(cameras[k])
  {
    ListedMeans(cameras[n - 1], mac);
    if k < n - 1 {
      LastIsByMac(cameras, n - 1, k, mac);
    }
  }

  /** The specification stands for the camera: the last one listed under the specification's address. */
  ghost predicate StandsFor(inv: Inventory, i: nat, k: nat) {
    && i < |inv.specs|
    && exists text :: GoesBy(inv, inv.specs[i], text) && LastListed(inv.cameras, |inv.cameras|, k, NormalizeMac(text))
  }

  lemma StandsIsClaim(inv: Inventory, i: nat, k: nat)
    requires StandsFor(inv, i, k)
    ensures Claim(inv, i) == Some(inv.cameras[k])
  {
    var text :| GoesBy(inv, inv.specs[i], text) && LastListed(inv.cameras, |inv.cameras|, k, NormalizeMac(text));
    assert NormalizeMac(text) == SpecMac(inv, inv.specs[i]);
    LastIsByMac(inv.cameras, |inv.cameras|, k, NormalizeMac(text));
  }

  lemma ClaimStandsFor(inv: Inventory, i: nat) returns (k: nat)
    requires i < |inv.specs| && Claim(inv, i).Some?
    ensures StandsFor(inv, i, k) && Claim(inv, i) == Some(inv.cameras[k])
  {
    var s := inv.specs[i];
    k := ByMacIsLast(inv.cameras, |inv.cameras|, SpecMac(inv, s));
    assert NormalizeMac("") == "";
    var text := if Given(s.cloudMac) then s.cloudMac.value else inv.localMacs[s.host].value;
    assert GoesBy(inv, s, text) && NormalizeMac(text) == SpecMac(inv, s);
  }

  ghost predicate FirstFor(inv: Inventory, i: nat, k: nat) {
    StandsFor(inv, i, k) && forall j: nat :: j < i ==> !StandsFor(inv, j, k)
  }

  /** Bound to its host: the first specification that stands for the camera, unless the host serves RTSP itself. */
  ghost predicate HostRoute(inv: Inventory, i: nat, k: nat, b: Binding) {
    && k < |inv.cameras| && FirstFor(inv, i, k)
    && var s, c := inv.specs[i], inv.cameras[k];
       && s.host !in inv.directHosts && c.sid.Some? && c.password.Some?
       && b == Binding(s.host, s.name, s.host + ":camera", "camera:" + s.host, Some(s.host), c.sid.value, c.password.value)
  }

  /** Bound by its cloud key: credentials, and no specification stands for the camera. */
  ghost predicate CloudRoute(inv: Inventory, k: nat, b: Binding) {
    && k < |inv.cameras|
    && (forall i: nat :: !StandsFor(inv, i, k))
    && var c := inv.cameras[k];
       && c.sid.Some? && c.sid.value != "" && c.password.Some? && c.password.value != ""
       && var key := "cloud:" + c.registrationId;
          b == Binding(key, c.name, key + ":camera", key, None, c.sid.value, c.password.value)
  }

  lemma ClaimsIsStands(inv: Inventory, i: nat, k: nat)
    requires Distinct(inv) && k < |inv.cameras|
    ensures Claims(inv, i, inv.cameras[k].registrationId) <==> StandsFor(inv, i, k)
  {
    if StandsFor(inv, i, k) {
      StandsIsClaim(inv, i, k);
    }
    if Claims(inv, i, inv.cameras[k].registrationId) {
      var j := ClaimStandsFor(inv, i);
      assert inv.cameras[j].registrationId == inv.cameras[k].registrationId;
      assert j == k;
    }
  }

  lemma FirstClaimIsFirstFor(inv: Inventory, i: nat, k: nat)
    requires Distinct(inv) && k < |inv.cameras|
    ensures FirstClaim(inv, |inv.specs|, inv.cameras[k].registrationId) == Some(i) <==> FirstFor(inv, i, k)
  {
    var id := inv.cameras[k].registrationId;
    var first := FirstClaim(inv, |inv.specs|, id);
    FirstClaimIsFirst(inv, |inv.specs|, id);
    ClaimsIsStands(inv, i, k);
    if first == Some(i) {
      forall j: nat | j < i ensures !StandsFor(inv, j, k) {
        ClaimsIsStands(inv, j, k);
      }
    }
    if FirstFor(inv, i, k) {
      assert Claims(inv, i, id);
      assert first.Some?;
      ClaimsIsStands(inv, first.value, k);
      assert StandsFor(inv, first.value, k);
      assert !(i < first.value) && !(first.value < i);
    }
  }

  lemma NoClaimMeansNoneStands(inv: Inventory, k: nat)
    requires Distinct(inv) && k < |inv.cameras|
    ensures FirstClaim(inv, |inv.specs|, inv.cameras[k].registrationId) == None <==> forall i: nat :: !StandsFor(inv, i, k)
  {
    var id := inv.cameras[k].registrationId;
    FirstClaimIsFirst(inv, |inv.specs|, id);
    forall j: nat ensures Claims(inv, j, id) <==> StandsFor(inv, j, k) {
      ClaimsIsStands(inv, j, k);
    }
  }

  ghost predicate HostRouted(inv: Inventory, b: Binding) {
    exists i: nat, k: nat :: HostRoute(inv, i, k, b)
  }

  ghost predicate CloudRouted(inv: Inventory, b: Binding) {
    exists k: nat :: CloudRoute(inv, k, b)
  }

  lemma HostSourceIsRouted(inv: Inventory, i: nat, b: Binding)
    requires Distinct(inv) && HostSource(inv, i, b)
    ensures HostRouted(inv, b)
  {
    var k := ClaimStandsFor(inv, i);
    FirstClaimIsFirstFor(inv, i, k);
    ClaimedCamera(inv, i);
    assert HostRoute(inv, i, k, b);
  }

  lemma HostRouteIsSource(inv: Inventory, i: nat, k: nat, b: Binding)
    requires Distinct(inv) && HostRoute(inv, i, k, b)
    ensures HostSource(inv, i, b)
  {
    StandsIsClaim(inv, i, k);
    FirstClaimIsFirstFor(inv, i, k);
  }

  lemma CloudSourceIsRoute(inv: Inventory, k: nat, b: Binding)
    requires Distinct(inv)
    ensures CloudSource(inv, k, b) <==> CloudRoute(inv, k, b)
  {
    if k < |inv.cameras| {
      NoClaimMeansNoneStands(inv, k);
      FirstClaimIsFirst(inv, |inv.specs|, inv.cameras[k].registrationId);
    }
  }

  /**
    Exactly these bindings are built: for every camera with credentials one by its first host, unless that host
    serves the camera itself, or one by its cloud key when no host stands for it.
  */
  lemma ExactlyTheRoutes(inv: Inventory, b: Binding)
    requires Distinct(inv)
    ensures b in HostPart(inv, |inv.specs|) <==> HostRouted(inv, b)
    ensures b in CloudPart(inv, |inv.cameras|) <==> CloudRouted(inv, b)
  {
    HostPartMember(inv, |inv.specs|, b);
    CloudPartMember(inv, |inv.cameras|, b);
    if HostAmong(inv, |inv.specs|, b) {
      var i: nat :| i < |inv.specs| && HostSource(inv, i, b);
      HostSourceIsRouted(inv, i, b);
    }
    if HostRouted(inv, b) {
      var i: nat, k: nat :| HostRoute(inv, i, k, b);
      HostRouteIsSource(inv, i, k, b);
    }
    forall k: nat ensures CloudSource(inv, k, b) <==> CloudRoute(inv, k, b) {
      CloudSourceIsRoute(inv, k, b);
    }
  }
}
