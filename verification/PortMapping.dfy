/** `OrbwebPortMapping`: the fields it updates in place, one method for each stretch of code between two awaits. */
module PortMapping {
  import opened Bytes
  import opened Tunnel
  import opened Mux
  import MuxRuns

  datatype AcceptError = IdsExhausted | PortNotMapped

  /** The socket of a local client, or a loopback listener: `open` is what closing it changes. */
  class Closable {
    var open: bool

    constructor ()
      ensures open
    {
      open := true;
    }
  }

  /** The run of the calls made so far leads to this state, and this is what it wrote. */
  ghost predicate RunsTo(history: seq<Action>, e: Endpoint, written: seq<Packet>) {
    && Legal(Initial(Listener), history)
    && e == Final(Initial(Listener), history)
    && written == Output(Initial(Listener), history)
    && WellFormed(e)
  }

  /** A client's socket is open only while its stream is in the table. */
  ghost predicate Owns(writers: map<int, Closable>, clients: set<Closable>)
    reads clients
  {
    && (forall id :: id in writers ==> writers[id] in clients)
    && (forall w :: w in clients && w.open ==> Holds(writers, w))
  }

  predicate Holds(writers: map<int, Closable>, w: Closable) {
    exists id :: id in writers && writers[id] == w
  }

  lemma HoldsAfterInsert(writers: map<int, Closable>, id: int, client: Closable)
    requires id !in writers
    ensures Holds(writers[id := client], client)
    ensures forall w :: Holds(writers, w) ==> Holds(writers[id := client], w)
  {
    var more := writers[id := client];
    assert more[id] == client;
    forall w | Holds(writers, w) ensures Holds(more, w) {
      var k :| k in writers && writers[k] == w;
      assert more[k] == w;
    }
  }

  function Without(writers: map<int, Closable>, id: int): map<int, Closable> {
    map k | k in writers && k != id :: writers[k]
  }

  lemma HoldsAfterRemove(writers: map<int, Closable>, id: int)
    requires id in writers
    ensures forall w :: Holds(writers, w) ==> w == writers[id] || Holds(Without(writers, id), w)
  {
    forall w | Holds(writers, w) ensures w == writers[id] || Holds(Without(writers, id), w) {
      var k :| k in writers && writers[k] == w;
      if k != id {
        assert Without(writers, id)[k] == w;
      }
    }
  }

  /** State and history after one step. */
  ghost predicate Moved(before: Endpoint, past: seq<Action>, a: Action, after: Endpoint, history: seq<Action>) {
    Enabled(before, a) && after == Step(before, a).0 && history == past + [a]
  }

  ghost predicate Spent(before: Endpoint, past: seq<Action>, after: Endpoint, history: seq<Action>) {
    exists id :: Moved(before, past, Spend(id), after, history)
  }

  predicate ValidPorts(localPorts: map<int, int>) {
    forall p :: p in localPorts ==> ValidPort(p) && ValidPort(localPorts[p])
  }

  class OrbwebPortMapping {
    const localPorts: map<int, int>
    var servers: set<Closable>
    var streams: map<int, Stream>
    var writers: map<int, Closable>
    var retired: seq<Retired>
    var nextRequestId: int
    var missedKeepalives: nat
    var beat: Beat
    var receiver: Receiver
    var failure: Option<Failure>
    var closed: bool
    var written: seq<Packet>
    ghost var history: seq<Action>
    ghost var clients: set<Closable>

    /** The value the step functions work on. */
    ghost function State(): Endpoint
      reads this
    {
      Endpoint(Listener, streams, retired, nextRequestId, missedKeepalives, beat, receiver, failure, closed)
    }

    ghost predicate Recorded()
      reads this
    {
      RunsTo(history, State(), written)
    }

    ghost predicate Owned()
      reads this, clients
    {
      && writers.Keys == streams.Keys
      && (closed ==> servers == {} && writers == map[])
      && Owns(writers, clients) && servers !! clients
    }

    ghost predicate Valid()
      reads this, clients
    {
      Recorded() && Owned() && ValidPorts(localPorts)
    }

    constructor (localPorts: map<int, int>, servers: set<Closable>)
      requires ValidPorts(localPorts)
      ensures Valid() && State() == Initial(Listener) && written == [] && history == []
      ensures this.localPorts == localPorts && this.servers == servers && clients == {}
    {
      this.localPorts, this.servers, writers := localPorts, servers, map[];
      streams, retired, nextRequestId := map[], [], 0;
      missedKeepalives, beat, receiver, failure, closed, written := 0, Sleeping, Idle, None, false, [];
      history, clients := [], {};
    }

    /** The call that just ran was one step of the machine. */
    ghost method Record(before: Endpoint, a: Action)
      requires Legal(Initial(Listener), history) && before == Final(Initial(Listener), history)
      requires WellFormed(before) && Enabled(before, a)
      requires State() == Step(before, a).0
      requires written == Output(Initial(Listener), history) + Step(before, a).1
      modifies this`history
      ensures Recorded() && history == old(history) + [a]
    {
      MuxRuns.RunSnoc(Initial(Listener), history, a);
      MuxRuns.RunKeepsRole(Initial(Listener), history);
      MuxRuns.StepKeepsListenerTables(before, a);
      history := history + [a];
    }

    /** The scan over all 2^31 ids; nothing is changed by a scan that finds none free. */
    method AllocateRequestId() returns (id: Option<int>)
      requires 0 <= nextRequestId < REQUEST_ID_LIMIT
      modifies this`nextRequestId, this`retired
      ensures id.None? <==> forall i :: 0 <= i < REQUEST_ID_LIMIT ==> i in streams
      ensures id.None? ==> State() == old(State())
      ensures id.Some? ==> FirstFree(streams, old(nextRequestId), id.value) && State() == Taken(old(State()), id.value)
    {
      ghost var next := nextRequestId;
      for attempt := 0 to REQUEST_ID_LIMIT
        invariant nextRequestId == CyclicId(next, attempt)
        invariant retired == old(retired)
        invariant MuxRuns.AllActive(streams, next, attempt)
      {
        var candidate := nextRequestId;
        nextRequestId := (candidate + 1) % REQUEST_ID_LIMIT;
        if candidate !in streams {
          retired := DropRetired(retired, candidate);
          MuxRuns.FirstFreeAt(streams, next, attempt);
          return Some(candidate);
        }
      }
      MuxRuns.FullCircle(streams, next);
      return None;
    }

    /** Allocation, port lookup and the new table entry; an id allocated for an unmapped port is spent. */
    method AddStream(remotePort: int) returns (r: Result<int, AcceptError>)
      requires Recorded() && !closed
      requires remotePort in localPorts ==> ValidPort(remotePort) && ValidPort(localPorts[remotePort])
      modifies this`streams, this`nextRequestId, this`retired, this`history
      ensures Recorded()
      ensures r.Ok? ==>
        && remotePort in localPorts
        && Moved(old(State()), old(history), Accept(r.value, localPorts[remotePort], remotePort), State(), history)
        && r.value !in old(streams) && streams.Keys == old(streams.Keys) + {r.value}
      ensures r.Err? ==> streams == old(streams)
      ensures r.Err? ==> Refused(r.error, remotePort, old(State()), old(history), old(clients))
    {
      ghost var before := State();
      var id := AllocateRequestId();
      if id.None? {
        MuxRuns.ExhaustionNeedsAllIds(streams, nextRequestId);
        return Err(IdsExhausted);
      }
      if remotePort !in localPorts {
        Record(before, Spend(id.value));
        assert Moved(before, old(history), Spend(id.value), State(), history);
        return Err(PortNotMapped);
      }
      streams := streams[id.value := NewStream(localPorts[remotePort], remotePort, Created)];
      Record(before, Accept(id.value, localPorts[remotePort], remotePort));
      return Ok(id.value);
    }

    /** The new stream's socket. */
    method Adopt(id: int, client: Closable)
      requires Recorded() && ValidPorts(localPorts) && !closed
      requires id !in writers && streams.Keys == writers.Keys + {id}
      requires Owns(writers, clients) && servers !! clients && client !in servers
      modifies this`writers, this`clients
      ensures Valid() && State() == old(State()) && history == old(history)
      ensures writers == old(writers)[id := client] && clients == old(clients) + {client}
    {
      HoldsAfterInsert(writers, id, client);
      writers := writers[id := client];
      clients := clients + {client};
      assert writers.Keys == streams.Keys;
    }

    /** A local client connects. A closed mapping closes the client's socket and does nothing else. */
    method OnLocalClient(remotePort: int, client: Closable) returns (r: Result<Option<int>, AcceptError>)
      requires Valid() && client !in clients && client !in servers
      modifies this`streams, this`nextRequestId, this`retired, this`history, this`writers, this`clients, client
      ensures Valid() && client.open == (old(client.open) && !closed)
      ensures if closed then r == Ok(None) && Untouched(old(State()), old(history), old(clients))
              else match r
                case Ok(id) =>
                  && id.Some?
                  && Accepted(id.value, remotePort, client, old(State()), old(history), old(writers), old(clients))
                case Err(error) => Refused(error, remotePort, old(State()), old(history), old(clients))
    {
      if closed {
        client.open := false;
        r := Ok(None);
      } else {
        var id := AcceptClient(remotePort, client);
        r := if id.Ok? then Ok(Some(id.value)) else Err(id.error);
      }
    }

    method AcceptClient(remotePort: int, client: Closable) returns (r: Result<int, AcceptError>)
      requires Valid() && !closed && client !in clients && client !in servers
      modifies this`streams, this`nextRequestId, this`retired, this`history, this`writers, this`clients
      ensures Valid()
      ensures match r
        case Ok(id) => Accepted(id, remotePort, client, old(State()), old(history), old(writers), old(clients))
        case Err(error) => Refused(error, remotePort, old(State()), old(history), old(clients))
    {
      r := AddStream(remotePort);
      if r.Ok? {
        Adopt(r.value, client);
      }
    }

    ghost predicate Untouched(before: Endpoint, past: seq<Action>, owned: set<Closable>)
      reads this
    {
      State() == before && history == past && clients == owned
    }

    /** The accept step of the machine, with the client's socket in the table. */
    ghost predicate Accepted(id: int, remotePort: int, client: Closable, before: Endpoint, past: seq<Action>,
                          table: map<int, Closable>, owned: set<Closable>)
      reads this
    {
      && remotePort in localPorts && clients == owned + {client} && writers == table[id := client]
      && Moved(before, past, Accept(id, localPorts[remotePort], remotePort), State(), history)
    }

    /** Nothing has changed, or an id has been spent on a port that is not mapped. */
    ghost predicate Refused(error: AcceptError, remotePort: int, before: Endpoint, past: seq<Action>, owned: set<Closable>)
      reads this
    {
      match error
      case IdsExhausted => Untouched(before, past, owned) && |streams| >= REQUEST_ID_LIMIT
      case PortNotMapped => remotePort !in localPorts && clients == owned && Spent(before, past, State(), history)
    }

    /** The forwarding task runs for the first time and asks for the write lock. */
    method StartForwarding(id: int)
      requires Valid() && Enabled(State(), Start(id))
      modifies this`streams, this`history
      ensures Valid() && history == old(history) + [Start(id)]
      ensures State() == Step(old(State()), Start(id)).0
    {
      ghost var before := State();
      streams := streams[id := streams[id].(task := Announcing)];
      Record(before, Start(id));
    }

    method SendAnnouncement(id: int)
      requires Valid() && Enabled(State(), WriteAnnouncement(id))
      modifies this`streams, this`written, this`history
      ensures Valid() && history == old(history) + [WriteAnnouncement(id)]
      ensures State() == Step(old(State()), WriteAnnouncement(id)).0
      ensures written == old(written) + Step(old(State()), WriteAnnouncement(id)).1
    {
      ghost var before := State();
      var s := streams[id];
      written := written + [Announce(MappingAnnouncement(s.localPort, s.remotePort, id))];
      streams := streams[id := s.(task := Reading)];
      Record(before, WriteAnnouncement(id));
    }

    /** A read returns data: the header takes the current number, and the counter moves before the write. */
    method ChunkRead(id: int, data: seq<byte>)
      requires Valid() && Enabled(State(), ReadChunk(id, data))
      modifies this`streams, this`history
      ensures Valid() && history == old(history) + [ReadChunk(id, data)]
      ensures State() == Step(old(State()), ReadChunk(id, data)).0
    {
      ghost var before := State();
      var s := streams[id];
      var sequence := s.sendSequence;
      streams := streams[id := s.(read := s.read + data, sendSequence := sequence + 1,
                                  task := Sending(sequence, data))];
      Record(before, ReadChunk(id, data));
    }

    method SendChunk(id: int)
      requires Valid() && Enabled(State(), WriteChunk(id))
      modifies this`streams, this`written, this`history
      ensures Valid() && history == old(history) + [WriteChunk(id)]
      ensures State() == Step(old(State()), WriteChunk(id)).0
      ensures written == old(written) + Step(old(State()), WriteChunk(id)).1
    {
      ghost var before := State();
      var s := streams[id];
      written := written + [Data(TunnelFrame(Header(Listener, id, s, s.task.sequence), s.task.data))];
      streams := streams[id := s.(task := Reading)];
      Record(before, WriteChunk(id));
    }

    /** A read returns no data: the guard of the `finally` block is evaluated once. */
    method EndOfInput(id: int)
      requires Valid() && Enabled(State(), LocalEof(id))
      modifies this`streams, this`history, writers[id]
      ensures Valid() && history == old(history) + [LocalEof(id)]
      ensures State() == Step(old(State()), LocalEof(id)).0
      ensures writers[id].open == (old(writers[id].open) && !old(streams[id].remoteDisconnect))
    {
      ghost var before := State();
      var s := streams[id];
      if s.remoteDisconnect {
        streams := streams[id := s.(task := Done)];
        writers[id].open := false;
      } else {
        streams := streams[id := s.(task := Requesting)];
      }
      Record(before, LocalEof(id));
    }

    /** The task's last act is to close its socket. */
    method SendRequest(id: int)
      requires Valid() && Enabled(State(), WriteRequest(id))
      modifies this`streams, this`written, this`history, writers[id]
      ensures Valid() && history == old(history) + [WriteRequest(id)] && !writers[id].open
      ensures State() == Step(old(State()), WriteRequest(id)).0
      ensures written == old(written) + Step(old(State()), WriteRequest(id)).1
    {
      ghost var before := State();
      var s := streams[id];
      written := written + [Control(Listener, id, s, DISCONNECT_REQUEST)];
      streams := streams[id := s.(task := Done)];
      Record(before, WriteRequest(id));
      writers[id].open := false;
    }

    method Stop(error: Failure)
      modifies this`receiver, this`failure
      ensures State() == Fail(old(State()), error)
    {
      receiver := Halted;
      if failure == None {
        failure := Some(error);
      }
    }

    /** One turn of the receive loop up to its next await. */
    method ReceivePacket(packet: Packet)
      requires Valid() && Enabled(State(), Deliver(packet))
      modifies this`streams, this`receiver, this`failure, this`missedKeepalives, this`history
      ensures Valid() && history == old(history) + [Deliver(packet)]
      ensures State() == Step(old(State()), Deliver(packet)).0
    {
      ghost var before := State();
      match packet {
        case Keepalive(payload) =>
          if payload != [] {
            Stop(KeepalivePayload);
          } else {
            missedKeepalives := 0;
          }
        case Announce(_) =>
          Stop(UnexpectedCommand);
        case Data(frame) =>
          DispatchFrame(frame);
      }
      MuxRuns.OtherSocketsUntouched(before, packet);
      Record(before, Deliver(packet));
    }

    method DispatchFrame(frame: TunnelFrame)
      modifies this`streams, this`receiver, this`failure
      ensures State() == Dispatch(old(State()), frame)
    {
      var h := frame.header;
      var id := h.requestId;
      if id !in streams {
        var entry := FindRetired(retired, id);
        if entry.Some? && Routed(Listener, entry.value.localPort, entry.value.remotePort, h)
           && (h.operation >= 0 || frame.payload == []) {
          return;
        }
        Stop(UnknownRequest);
        return;
      }
      var s := streams[id];
      if !Routed(Listener, s.localPort, s.remotePort, h) {
        Stop(MappingMismatch);
        return;
      }
      if h.operation >= 0 {
        if h.operation != s.receiveSequence {
          Stop(SequenceGap);
          return;
        }
        streams := streams[id := s.(receiveSequence := s.receiveSequence + 1, sink := s.sink + frame.payload)];
        return;
      }
      if frame.payload != [] {
        Stop(PayloadInControl);
        return;
      }
      if h.operation == DISCONNECT_REQUEST {
        streams := streams[id := s.(remoteDisconnect := true)];
        receiver := Responding(id);
      } else if h.operation == DISCONNECT_RESPONSE {
        receiver := Confirming(id);
      } else if h.operation != DISCONNECT_CONFIRM {
        Stop(BadControl);
      } else {
        streams := streams[id := Cancelled(s)];
        receiver := Awaiting(id, true);
      }
    }

    method SendResponse()
      requires Valid() && Enabled(State(), WriteResponse)
      modifies this`receiver, this`written, this`history
      ensures Valid() && history == old(history) + [WriteResponse]
      ensures State() == Step(old(State()), WriteResponse).0
      ensures written == old(written) + Step(old(State()), WriteResponse).1
    {
      ghost var before := State();
      var id := receiver.id;
      written := written + [Control(Listener, id, streams[id], DISCONNECT_RESPONSE)];
      receiver := Stopping(id, false);
      Record(before, WriteResponse);
    }

    method SendConfirm()
      requires Valid() && Enabled(State(), WriteConfirm)
      modifies this`receiver, this`written, this`history
      ensures Valid() && history == old(history) + [WriteConfirm]
      ensures State() == Step(old(State()), WriteConfirm).0
      ensures written == old(written) + Step(old(State()), WriteConfirm).1
    {
      ghost var before := State();
      var id := receiver.id;
      written := written + [Control(Listener, id, streams[id], DISCONNECT_CONFIRM)];
      receiver := Stopping(id, true);
      Record(before, WriteConfirm);
    }

    /** Stopping a local stream, up to the wait for its task. */
    method StopLocalStream()
      requires Valid() && Enabled(State(), CancelTask)
      modifies this`receiver, this`streams, this`history
      ensures Valid() && history == old(history) + [CancelTask]
      ensures State() == Step(old(State()), CancelTask).0
    {
      ghost var before := State();
      var id, remove := receiver.id, receiver.remove;
      streams := streams[id := Cancelled(streams[id])];
      receiver := Awaiting(id, remove);
      Record(before, CancelTask);
    }

    /** The task is over: its socket is closed and the stream may leave for the bounded retired table. */
    method FinishStopping()
      requires Valid() && Enabled(State(), FinishStop)
      modifies this`receiver, this`streams, this`retired, this`writers, this`history, writers[receiver.id]
      ensures Valid() && history == old(history) + [FinishStop]
      ensures State() == Step(old(State()), FinishStop).0
      ensures !old(writers[receiver.id]).open && writers == map id | id in streams :: old(writers)[id]
    {
      var id, remove := receiver.id, receiver.remove;
      var client := writers[id];
      RetireStream();
      client.open := false;
      if remove {
        HoldsAfterRemove(writers, id);
        writers := Without(writers, id);
      }
    }

    method RetireStream()
      requires Recorded() && Enabled(State(), FinishStop)
      modifies this`receiver, this`streams, this`retired, this`history
      ensures Recorded() && history == old(history) + [FinishStop]
      ensures streams.Keys == if old(receiver.remove) then old(streams.Keys) - {old(receiver.id)} else old(streams.Keys)
      ensures State() == Step(old(State()), FinishStop).0
    {
      ghost var before := State();
      var id, remove := receiver.id, receiver.remove;
      if remove {
        var s := streams[id];
        streams := map k | k in streams && k != id :: streams[k];
        if |retired| >= MAX_RETIRED_STREAMS {
          retired := retired[1..];
        }
        retired := retired + [Retired(id, s.localPort, s.remotePort)];
      }
      receiver := Idle;
      Record(before, FinishStop);
    }

    /** One turn of the keepalive loop: the packet is written first and counted when the write has drained. */
    method SendKeepalive()
      requires Valid() && Enabled(State(), WriteKeepalive)
      modifies this`beat, this`written, this`history
      ensures Valid() && history == old(history) + [WriteKeepalive]
      ensures State() == Step(old(State()), WriteKeepalive).0
      ensures written == old(written) + Step(old(State()), WriteKeepalive).1
    {
      ghost var before := State();
      written := written + [Keepalive([])];
      beat := Writing;
      Record(before, WriteKeepalive);
    }

    method CountMissed()
      requires Valid() && Enabled(State(), CountKeepalive)
      modifies this`missedKeepalives, this`beat, this`failure, this`history
      ensures Valid() && history == old(history) + [CountKeepalive]
      ensures State() == Step(old(State()), CountKeepalive).0
    {
      ghost var before := State();
      missedKeepalives := missedKeepalives + 1;
      if missedKeepalives > MAX_MISSED_KEEPALIVES {
        beat := Stopped;
        if failure == None {
          failure := Some(KeepaliveTimeout);
        }
      } else {
        beat := Sleeping;
      }
      Record(before, CountKeepalive);
    }

    /** Every listener and client socket is closed, and no task takes another step. Closing twice is harmless. */
    method CloseMapping()
      requires Valid()
      modifies this`closed, this`streams, this`retired, this`servers, this`writers, this`history, servers, clients
      ensures Valid() && closed && forall a :: !Enabled(State(), a)
      ensures !old(closed) ==> streams == map[] && retired == []
      ensures State() == if old(closed) then old(State()) else Step(old(State()), Close).0
      ensures history == if old(closed) then old(history) else old(history) + [Close]
      ensures (forall s :: s in old(servers) ==> !s.open) && (forall w :: w in clients ==> !w.open)
    {
      if closed {
        return;
      }
      CloseSockets();
      ghost var before := State();
      closed := true;
      streams := map[];
      retired := [];
      Record(before, Close);
    }

    method CloseSockets()
      requires Owns(writers, clients)
      modifies this`servers, this`writers, servers, clients
      ensures servers == {} && writers == map[] && Owns(writers, clients)
      ensures (forall s :: s in old(servers) ==> !s.open) && (forall w :: w in clients ==> !w.open)
    {
      forall id | id in writers {
        writers[id].open := false;
      }
      forall s | s in servers {
        s.open := false;
      }
      servers := {};
      writers := map[];
    }
  }
}
