/** The local listener pool: one shared port or nothing, and an owner for every accepted socket. */
module DirectListeners {
  import opened Bytes
  import opened Text
  import Direct

  const MIN_DIRECT_LISTENER_PORT := 0x2000
  const MAX_DIRECT_LISTENER_PORT := 0xFFFF

  class Server {
    const address: string
    const port: int
    var open: bool

    constructor (address: string, port: int)
      ensures this.address == address && this.port == port && open
    {
      this.address, this.port, open := address, port, true;
    }
  }

  /** The writer of an accepted socket. */
  class Writer {
    var open: bool

    constructor ()
      ensures open
    {
      open := true;
    }
  }

  // ---------------------------------------------------------------- ownership of accepted sockets

  class DirectListenerPool {
    var servers: seq<Server>
    const port: int
    var queue: seq<Writer>
    var pending: set<Writer>
    var closed: bool
    var drained: bool
    ghost var accepted: set<Writer>
    ghost var handed: seq<Writer>

    /**
      Every socket ever accepted is waiting in the queue, was handed to exactly one caller, or is closed. Until
      the pool is drained the pending writers are those in the queue.
    */
    ghost predicate Valid()
      reads this, accepted, servers
    {
      && (forall i, j :: 0 <= i < j < |queue| ==> queue[i] != queue[j])
      && (forall i, j :: 0 <= i < j < |handed| ==> handed[i] != handed[j])
      && (forall w :: w in queue ==> w !in handed)
      && (forall w :: w in queue ==> w in accepted)
      && (forall w :: w in handed ==> w in accepted)
      && (forall w :: w in accepted ==> w in queue || w in handed || !w.open)
      && (forall w :: w in queue ==> if drained then !w.open else w.open)
      && (forall w :: w in pending ==> !drained && w in queue)
      && (!drained ==> forall w :: w in queue ==> w in pending)
      && (drained ==> closed)
      && (closed ==> forall s :: s in servers ==> !s.open)
    }

    constructor (port: int)
      ensures Valid() && !closed && queue == [] && pending == {} && servers == [] && this.port == port
      ensures accepted == {} && handed == []
    {
      servers, queue, pending, closed, drained := [], [], {}, false, false;
      accepted, handed := {}, [];
      this.port := port;
    }

    /** A server accepts a socket; once the pool is closing the socket is closed on the spot. */
    method OnClient(w: Writer)
      requires Valid() && w !in accepted && w.open
      modifies this`pending, this`queue, this`accepted, w
      ensures Valid() && accepted == old(accepted) + {w} && handed == old(handed)
      ensures closed ==> !w.open && queue == old(queue)
      ensures !closed ==> w.open && queue == old(queue) + [w]
      ensures forall other :: other in old(accepted) ==> other.open == old(other.open)
    {
      accepted := accepted + {w};
      if closed {
        w.open := false;
        return;
      }
      pending := pending + {w};
      queue := queue + [w];
    }

    /** A waiting `async_accept` resumes; it checked the closed flag before it began to wait. */
    method CompleteAccept() returns (w: Writer)
      requires Valid() && queue != []
      modifies this`pending, this`queue, this`handed
      ensures Valid() && w == old(queue)[0] && w !in old(handed)
      ensures queue == old(queue)[1..] && handed == old(handed) + [w] && accepted == old(accepted)
    {
      w := queue[0];
      queue := queue[1..];
      assert old(queue) == [w] + queue;
      assert forall k :: 0 <= k < |queue| ==> queue[k] == old(queue)[k + 1] && queue[k] != w;
      assert w in old(queue) && w !in handed && w !in queue;
      assert forall k :: 0 <= k < |handed| ==> handed[k] in handed;
      pending := pending - {w};
      handed := handed + [w];
      assert forall v :: v in handed <==> v in old(handed) || v == w;
    }

    /** Closing up to its first await: no server is left open and no later client is queued. */
    method BeginClose() returns (first: bool)
      requires Valid()
      modifies this`closed, servers
      ensures Valid() && closed && first == !old(closed)
      ensures accepted == old(accepted) && queue == old(queue) && handed == old(handed)
    {
      if closed {
        return false;
      }
      closed := true;
      for i := 0 to |servers|
        invariant forall j :: 0 <= j < i ==> !servers[j].open
        invariant closed && servers == old(servers)
      {
        servers[i].open := false;
      }
      return true;
    }

    /** After the servers are gone: sockets nobody has taken are closed. */
    method FinishClose()
      requires Valid() && closed
      modifies this`pending, this`drained, pending
      ensures Valid() && drained && pending == {}
      ensures queue == old(queue) && handed == old(handed) && accepted == old(accepted)
      ensures forall w :: w in accepted && w !in handed ==> !w.open
      ensures forall w :: w in handed ==> w.open == old(w.open)
    {
      if drained {
        return;
      }
      ghost var taken := pending;
      forall w | w in pending {
        w.open := false;
      }
      pending := {};
      drained := true;
    }
  }

  // ---------------------------------------------------------------- shared-port bind

  datatype Bind = Bound | OsFailure | Fatal

  datatype BindError = NoAddress | NotIpv4 | NotAdvertisable | Duplicate | NoAttempts | PortRange | LastOsError | Aborted

  function Octet(address: string, i: nat): nat
    requires Direct.IsIpv4(address) && i < 4
  {
    ParseDecimal(Split(address, '.')[i])
  }

  /** Neither unspecified (0.0.0.0), nor loopback (127.0.0.0/8), nor multicast (224.0.0.0/4). */
  predicate Advertisable(address: string)
    requires Direct.IsIpv4(address)
  {
    && !(Octet(address, 0) == 0 && Octet(address, 1) == 0 && Octet(address, 2) == 0 && Octet(address, 3) == 0)
    && Octet(address, 0) != 127
    && !(224 <= Octet(address, 0) <= 239)
  }

  /** The address as one 32-bit number. */
  function AddressNumber(address: string): nat
    requires Direct.IsIpv4(address)
  {
    0x100_0000 * Octet(address, 0) + 0x1_0000 * Octet(address, 1) + 0x100 * Octet(address, 2) + Octet(address, 3)
  }

  /** Everything outside the three reserved ranges can be advertised. */
  lemma AdvertisableRanges(address: string)
    requires Direct.IsIpv4(address)
    ensures 0 <= AddressNumber(address) < 0x1_0000_0000
    ensures Advertisable(address) <==>
      && AddressNumber(address) != 0
      && !(0x7F00_0000 <= AddressNumber(address) <= 0x7FFF_FFFF)
      && !(0xE000_0000 <= AddressNumber(address) <= 0xEFFF_FFFF)
  {
    var octets := Split(address, '.');
    assert forall i :: 0 <= i < 4 ==> Direct.OctetText(octets[i]);
  }

  predicate GoodAddresses(addresses: seq<string>) {
    && addresses != []
    && (forall i :: 0 <= i < |addresses| ==> Direct.IsIpv4(addresses[i]) && Advertisable(addresses[i]))
    && (forall i, j :: 0 <= i < j < |addresses| ==> addresses[i] != addresses[j])
  }

  method ValidateAddresses(addresses: seq<string>) returns (r: Result<seq<string>, BindError>)
    ensures r.Ok? <==> GoodAddresses(addresses)
    ensures r.Ok? ==> r.value == addresses
  {
    if addresses == [] {
      return Err(NoAddress);
    }
    var validated: seq<string> := [];
    for i := 0 to |addresses|
      invariant validated == addresses[..i]
      invariant i > 0 ==> GoodAddresses(addresses[..i])
    {
      var value := addresses[i];
      if !Direct.IsIpv4(value) {
        return Err(NotIpv4);
      }
      if !Advertisable(value) {
        return Err(NotAdvertisable);
      }
      var normalized := Direct.NormalAddress(value);
      Direct.AddressIsNormal(value);
      if normalized in validated {
        ghost var j :| 0 <= j < i && addresses[j] == normalized;
        return Err(Duplicate);
      }
      validated := validated + [normalized];
      assert addresses[..i + 1] == addresses[..i] + [value];
    }
    assert addresses[..|addresses|] == addresses;
    return Ok(validated);
  }

  predicate PortInRange(port: int) {
    MIN_DIRECT_LISTENER_PORT <= port <= MAX_DIRECT_LISTENER_PORT
  }

  /** What binding addresses i, i + 1, ... in one attempt comes to. */
  function AttemptFrom(binds: nat -> Bind, i: nat, n: nat): Bind
    decreases n - i
  {
    if i >= n then Bound
    else if binds(i) != Bound then binds(i)
    else AttemptFrom(binds, i + 1, n)
  }

  /** The result of attempts k, k + 1, ...: the port bound, or the error. */
  function BindFrom(ports: nat -> int, binds: nat -> nat -> Bind, k: nat, attempts: nat, n: nat): Result<int, BindError>
    decreases attempts - k
  {
    if k >= attempts then Err(LastOsError)
    else if !PortInRange(ports(k)) then Err(PortRange)
    else
      match AttemptFrom(binds(k), 0, n)
      case Bound => Ok(ports(k))
      case Fatal => Err(Aborted)
      case OsFailure => BindFrom(ports, binds, k + 1, attempts, n)
  }

  // What these come to, in terms of the drawn ports and the bind results alone.

  predicate Native(port: int) {
    8192 <= port <= 65535
  }

  ghost predicate AllBound(bind: nat -> Bind, i: nat, n: nat) {
    forall j :: i <= j < n ==> bind(j) == Bound
  }

  /** Some address refuses in this way, and those before it are bound. */
  ghost predicate FirstRefuses(bind: nat -> Bind, i: nat, n: nat, how: Bind) {
    how != Bound && exists j :: i <= j < n && bind(j) == how && AllBound(bind, i, j)
  }

  lemma {:induction false} AttemptMeans(bind: nat -> Bind, i: nat, n: nat)
    ensures AttemptFrom(bind, i, n) == Bound <==> AllBound(bind, i, n)
    ensures forall how :: how != Bound ==> (AttemptFrom(bind, i, n) == how <==> FirstRefuses(bind, i, n, how))
    decreases n - i
  {
    if i < n {
      AttemptMeans(bind, i + 1, n);
      if bind(i) != Bound {
        assert AllBound(bind, i, i) && FirstRefuses(bind, i, n, bind(i));
      } else {
        forall how | how != Bound ensures FirstRefuses(bind, i, n, how) <==> FirstRefuses(bind, i + 1, n, how) {
          if j :| i <= j < n && bind(j) == how && AllBound(bind, i, j) {
            assert AllBound(bind, i + 1, j);
          }
          if j :| i + 1 <= j < n && bind(j) == how && AllBound(bind, i + 1, j) {
            assert AllBound(bind, i, j);
          }
        }
      }
    }
  }

  /** Every attempt from k up to m drew a native port on which some address was in use. */
  ghost predicate InUse(ports: nat -> int, binds: nat -> nat -> Bind, k: nat, m: nat, n: nat) {
    forall j :: k <= j < m ==> Native(ports(j)) && FirstRefuses(binds(j), 0, n, OsFailure)
  }

  /** Some attempt m from k on has the property, and every one before it met a port in use. */
  ghost predicate Reaches(ports: nat -> int, binds: nat -> nat -> Bind, k: nat, attempts: nat, n: nat, what: nat -> bool) {
    exists m :: k <= m < attempts && InUse(ports, binds, k, m, n) && what(m)
  }

  lemma ReachesUnrolls(ports: nat -> int, binds: nat -> nat -> Bind, k: nat, attempts: nat, n: nat, what: nat -> bool)
    requires k < attempts
    ensures Reaches(ports, binds, k, attempts, n, what)
      <==> what(k) || (InUse(ports, binds, k, k + 1, n) && Reaches(ports, binds, k + 1, attempts, n, what))
  {
    assert InUse(ports, binds, k, k, n);
    forall m | k < m
      ensures InUse(ports, binds, k, m, n) <==> InUse(ports, binds, k, k + 1, n) && InUse(ports, binds, k + 1, m, n)
    {
      UseUnrolls(ports, binds, k, m, n);
    }
  }

  /** What an attempt can come to, other than a port in use. */
  ghost function Opens(ports: nat -> int, binds: nat -> nat -> Bind, n: nat, port: int): nat -> bool {
    (m: nat) => ports(m) == port && Native(port) && AllBound(binds(m), 0, n)
  }

  ghost function LeavesRange(ports: nat -> int): nat -> bool {
    (m: nat) => !Native(ports(m))
  }

  ghost function Aborts(ports: nat -> int, binds: nat -> nat -> Bind, n: nat): nat -> bool {
    (m: nat) => Native(ports(m)) && FirstRefuses(binds(m), 0, n, Fatal)
  }

  /**
    The first attempt that is not turned away by a port in use decides: it opens the pool, draws a port out of
    range, or is aborted; when there is none, all attempts are used up.
  */
  lemma {:induction false} BindMeans(ports: nat -> int, binds: nat -> nat -> Bind, k: nat, attempts: nat, n: nat, port: int)
    requires k <= attempts
    ensures var r := BindFrom(ports, binds, k, attempts, n);
      && (r == Ok(port) <==> Reaches(ports, binds, k, attempts, n, Opens(ports, binds, n, port)))
      && (r == Err(PortRange) <==> Reaches(ports, binds, k, attempts, n, LeavesRange(ports)))
      && (r == Err(Aborted) <==> Reaches(ports, binds, k, attempts, n, Aborts(ports, binds, n)))
      && (r == Err(LastOsError) <==> InUse(ports, binds, k, attempts, n))
    decreases attempts - k
  {
    if k < attempts {
      AttemptMeans(binds(k), 0, n);
      BindMeans(ports, binds, k + 1, attempts, n, port);
      ReachesUnrolls(ports, binds, k, attempts, n, Opens(ports, binds, n, port));
      ReachesUnrolls(ports, binds, k, attempts, n, LeavesRange(ports));
      ReachesUnrolls(ports, binds, k, attempts, n, Aborts(ports, binds, n));
      assert InUse(ports, binds, k, k + 1, n) <==> Native(ports(k)) && FirstRefuses(binds(k), 0, n, OsFailure);
      assert InUse(ports, binds, k, attempts, n)
        <==> InUse(ports, binds, k, k + 1, n) && InUse(ports, binds, k + 1, attempts, n) by {
        UseUnrolls(ports, binds, k, attempts, n);
      }
    }
  }

  lemma UseUnrolls(ports: nat -> int, binds: nat -> nat -> Bind, k: nat, m: nat, n: nat)
    requires k < m
    ensures InUse(ports, binds, k, m, n) <==> InUse(ports, binds, k, k + 1, n) && InUse(ports, binds, k + 1, m, n)
  {
    if InUse(ports, binds, k, k + 1, n) && InUse(ports, binds, k + 1, m, n) {
      forall j | k <= j < m ensures Native(ports(j)) && FirstRefuses(binds(j), 0, n, OsFailure) {
        assert j == k || k + 1 <= j;
      }
    }
  }

  /**
    Opening a pool. `ports(k)` is the port drawn in attempt k and `binds(k)(i)` what binding address i does
    then; `created` collects every server bound in any attempt. Either every address has exactly one open
    server, all on one port of the native range, or no server is left open.
  */
  method OpenListenerPool(addresses: seq<string>, attempts: int, ports: nat -> int, binds: nat -> nat -> Bind)
    returns (r: Result<DirectListenerPool, BindError>, ghost created: set<Server>)
    ensures r.Ok? ==> GoodAddresses(addresses) && attempts >= 1 && fresh(r.value) && r.value.Valid() && !r.value.closed
    ensures GoodAddresses(addresses) && attempts >= 1 ==>
      match BindFrom(ports, binds, 0, attempts, |addresses|)
      case Ok(port) => r.Ok? && r.value.port == port && PortInRange(port)
      case Err(error) => r == Err(error)
    ensures r.Ok? ==>
      && |r.value.servers| == |addresses|
      && (forall i :: 0 <= i < |addresses| ==>
            var s := r.value.servers[i]; s.address == addresses[i] && s.port == r.value.port && s.open && s in created)
      && (forall i, j :: 0 <= i < j < |addresses| ==> r.value.servers[i] != r.value.servers[j])
    ensures fresh(created)
    ensures forall s :: s in created && s.open ==> r.Ok? && s in r.value.servers
  {
    created := {};
    var validated := ValidateAddresses(addresses);
    if validated.Err? {
      return Err(validated.error), created;
    }
    if attempts < 1 {
      return Err(NoAttempts), created;
    }
    var n := |addresses|;
    for k := 0 to attempts
      invariant fresh(created)
      invariant forall s :: s in created ==> !s.open
      invariant BindFrom(ports, binds, 0, attempts, n) == BindFrom(ports, binds, k, attempts, n)
    {
      var port := ports(k);
      if !PortInRange(port) {
        return Err(PortRange), created;
      }
      var pool := new DirectListenerPool(port);
      var servers, failure := BindAddresses(addresses, port, binds(k));
      pool.servers := servers;
      ghost var bound := Elements(servers);
      if failure == Bound {
        created := created + bound;
        return Ok(pool), created;
      }
      var first := pool.BeginClose();
      assert forall s :: s in bound ==> s in pool.servers;
      pool.FinishClose();
      created := created + bound;
      if failure == Fatal {
        return Err(Aborted), created;
      }
    }
    return Err(LastOsError), created;
  }

  ghost function Elements(servers: seq<Server>): set<Server> {
    set s | s in servers
  }

  /** One attempt: servers are bound in order until one refuses. */
  method BindAddresses(addresses: seq<string>, port: int, bind: nat -> Bind)
    returns (servers: seq<Server>, failure: Bind)
    ensures failure == AttemptFrom(bind, 0, |addresses|)
    ensures failure == Bound ==> |servers| == |addresses|
    ensures |servers| <= |addresses| && fresh(servers)
    ensures forall j :: 0 <= j < |servers| ==>
      servers[j].address == addresses[j] && servers[j].port == port && servers[j].open
    ensures forall j, l :: 0 <= j < l < |servers| ==> servers[j] != servers[l]
  {
    servers := [];
    for i := 0 to |addresses|
      invariant |servers| == i && fresh(servers)
      invariant AttemptFrom(bind, 0, |addresses|) == AttemptFrom(bind, i, |addresses|)
      invariant forall j :: 0 <= j < i ==>
        servers[j].address == addresses[j] && servers[j].port == port && servers[j].open
      invariant forall j, l :: 0 <= j < l < i ==> servers[j] != servers[l]
    {
      if bind(i) != Bound {
        return servers, bind(i);
      }
      var server := new Server(addresses[i], port);
      servers := servers + [server];
    }
    return servers, Bound;
  }
}
