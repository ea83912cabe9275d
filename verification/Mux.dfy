/**
  The stream multiplexer as a machine over its atomic steps. A step is what runs between two awaits: the
  receive loop and each local forwarding task interleave freely. The same machine with the other role is the
  camera; that the camera follows it is an assumption of the two-party results only.
*/
module Mux {
  import opened Bytes
  import opened Tunnel
  import FullStack

  const MAX_MISSED_KEEPALIVES := 5
  const MAX_RETIRED_STREAMS := 256

  /** Where a local forwarding task is suspended. `Requesting` is past the guard of its `finally` block. */
  datatype Task =
    | Created
    | Announcing
    | Reading
    | Sending(sequence: nat, data: seq<byte>)
    | Requesting
    | Done

  /** `read` is everything read from the local socket so far, `sink` everything written to it. */
  datatype Stream = Stream(
    localPort: int, remotePort: int, sendSequence: nat, receiveSequence: nat, remoteDisconnect: bool,
    task: Task, read: seq<byte>, sink: seq<byte>)

  /** Where the receive loop is suspended; `Awaiting` has cancelled the task and waits for it to end. */
  datatype Receiver =
    | Idle
    | Responding(id: int)
    | Confirming(id: int)
    | Stopping(id: int, remove: bool)
    | Awaiting(id: int, remove: bool)
    | Halted

  /** Where the keepalive loop is suspended: before a keepalive, or in the write that precedes its count. */
  datatype Beat = Sleeping | Writing | Stopped

  datatype Packet =
    | Announce(announcement: MappingAnnouncement)
    | Data(frame: TunnelFrame)
    | Keepalive(payload: seq<byte>)

  datatype Retired = Retired(id: int, localPort: int, remotePort: int)

  datatype Failure =
    | UnknownRequest | MappingMismatch | SequenceGap | PayloadInControl | BadControl
    | UnexpectedCommand | KeepalivePayload | KeepaliveTimeout

  datatype Endpoint = Endpoint(
    role: Role, streams: map<int, Stream>, retired: seq<Retired>, nextRequestId: int,
    missedKeepalives: nat, beat: Beat, receiver: Receiver, failure: Option<Failure>, closed: bool)

  /** `Spend` is a client on a port that is not mapped: its id is allocated before the port is looked up. */
  datatype Action =
    | Accept(id: int, localPort: int, remotePort: int)
    | Spend(id: int)
    | Start(id: int)
    | WriteAnnouncement(id: int)
    | ReadChunk(id: int, data: seq<byte>)
    | WriteChunk(id: int)
    | LocalEof(id: int)
    | WriteRequest(id: int)
    | Deliver(packet: Packet)
    | WriteResponse
    | WriteConfirm
    | CancelTask
    | FinishStop
    | WriteKeepalive
    | CountKeepalive
    | Close

  // ---------------------------------------------------------------- tables

  function Initial(role: Role): Endpoint {
    Endpoint(role, map[], [], 0, 0, Sleeping, Idle, None, false)
  }

  function Peer(role: Role): Role {
    if role == Listener then Connector else Listener
  }

  function RetiredIds(retired: seq<Retired>): set<int> {
    set i | 0 <= i < |retired| :: retired[i].id
  }

  /** The entry of an id; ids are distinct in every reachable table. */
  function FindRetired(retired: seq<Retired>, id: int): (r: Option<Retired>)
    ensures r.Some? ==> r.value in retired && r.value.id == id
    ensures r.None? ==> id !in RetiredIds(retired)
  {
    if retired == [] then None
    else if retired[0].id == id then Some(retired[0])
    else FindRetired(retired[1..], id)
  }

  function DropRetired(retired: seq<Retired>, id: int): (r: seq<Retired>)
    ensures |r| <= |retired|
    ensures forall x :: x in r <==> x in retired && x.id != id
  {
    if retired == [] then []
    else if retired[0].id == id then DropRetired(retired[1..], id)
    else [retired[0]] + DropRetired(retired[1..], id)
  }

  /** Insertion evicts the oldest entry from a full table. */
  function Retire(retired: seq<Retired>, entry: Retired): seq<Retired> {
    (if |retired| >= MAX_RETIRED_STREAMS then retired[1..] else retired) + [entry]
  }

  function CyclicId(next: int, j: nat): int {
    (next + j) % REQUEST_ID_LIMIT
  }

  /** First inactive id in cyclic order from the counter. */
  predicate FirstFree(streams: map<int, Stream>, next: int, id: int) {
    && ValidRequestId(id) && id !in streams
    && forall j :: 0 <= j < (id - next) % REQUEST_ID_LIMIT ==> CyclicId(next, j) in streams
  }

  // ---------------------------------------------------------------- steps

  function NewStream(localPort: int, remotePort: int, task: Task): Stream {
    Stream(localPort, remotePort, 0, 0, false, task, [], [])
  }

  function Insert(e: Endpoint, id: int, s: Stream): Endpoint {
    e.(streams := e.streams[id := s])
  }

  function Remove(e: Endpoint, id: int): Endpoint {
    e.(streams := map k | k in e.streams && k != id :: e.streams[k])
  }

  function Fail(e: Endpoint, failure: Failure): Endpoint {
    e.(receiver := Halted, failure := if e.failure == None then Some(failure) else e.failure)
  }

  /** Role, ports and request id as a stream's own packets carry them. */
  function Header(role: Role, id: int, s: Stream, operation: int): TunnelHeader {
    TunnelHeader(id, operation, role, s.localPort, s.remotePort, 0)
  }

  function Control(role: Role, id: int, s: Stream, operation: int): Packet {
    Data(TunnelFrame(Header(role, id, s, operation), []))
  }

  /** A header sent by the other side of the mapping localPort -> remotePort. */
  predicate Routed(role: Role, localPort: int, remotePort: int, h: TunnelHeader) {
    h.role == Peer(role) && h.localPort == remotePort && h.remotePort == localPort
  }

  /** Effect of cancelling a task: the `finally` guard decides whether a disconnect request follows. */
  function Cancelled(s: Stream): Stream {
    match s.task
    case Created => s.(task := Done)
    case Requesting => s.(task := Done)
    case Done => s
    case _ => s.(task := if s.remoteDisconnect then Done else Requesting)
  }

  function Dispatch(e: Endpoint, frame: TunnelFrame): Endpoint {
    var h := frame.header;
    var id := h.requestId;
    if id !in e.streams then
      match FindRetired(e.retired, id)
      case None => Fail(e, UnknownRequest)
      case Some(r) =>
        if Routed(e.role, r.localPort, r.remotePort, h) && (h.operation >= 0 || frame.payload == [])
        then e else Fail(e, UnknownRequest)
    else
      var s := e.streams[id];
      if !Routed(e.role, s.localPort, s.remotePort, h) then Fail(e, MappingMismatch)
      else if h.operation >= 0 then
        if h.operation != s.receiveSequence then Fail(e, SequenceGap)
        else Insert(e, id, s.(receiveSequence := s.receiveSequence + 1, sink := s.sink + frame.payload))
      else if frame.payload != [] then Fail(e, PayloadInControl)
      else if h.operation == DISCONNECT_REQUEST then
        Insert(e, id, s.(remoteDisconnect := true)).(receiver := Responding(id))
      else if h.operation == DISCONNECT_RESPONSE then e.(receiver := Confirming(id))
      else if h.operation == DISCONNECT_CONFIRM then
        Insert(e, id, Cancelled(s)).(receiver := Awaiting(id, true))
      else Fail(e, BadControl)
  }

  /** The camera opens its end of an announced mapping; the integration never accepts an announcement. */
  function Announced(e: Endpoint, a: MappingAnnouncement): Endpoint {
    if e.role == Listener || a.requestId in e.streams then Fail(e, UnexpectedCommand)
    else Insert(e.(retired := DropRetired(e.retired, a.requestId)), a.requestId,
                NewStream(a.remotePort, a.localPort, Reading))
  }

  function Receive(e: Endpoint, packet: Packet): Endpoint {
    match packet
    case Keepalive(payload) => if payload != [] then Fail(e, KeepalivePayload) else e.(missedKeepalives := 0)
    case Announce(a) => Announced(e, a)
    case Data(frame) => Dispatch(e, frame)
  }

  predicate TaskAt(e: Endpoint, id: int, task: Task) {
    id in e.streams && e.streams[id].task == task
  }

  /** When an atomic step may be the next to run. */
  predicate Enabled(e: Endpoint, a: Action) {
    && !e.closed
    && match a
       case Accept(id, localPort, remotePort) =>
         && e.role == Listener && FirstFree(e.streams, e.nextRequestId, id)
         && ValidPort(localPort) && ValidPort(remotePort)
       case Spend(id) => e.role == Listener && FirstFree(e.streams, e.nextRequestId, id)
       case Start(id) => TaskAt(e, id, Created)
       case WriteAnnouncement(id) => TaskAt(e, id, Announcing)
       case ReadChunk(id, data) => TaskAt(e, id, Reading) && 1 <= |data| <= FullStack.STREAM_CHUNK_SIZE
       case WriteChunk(id) => id in e.streams && e.streams[id].task.Sending?
       case LocalEof(id) => TaskAt(e, id, Reading)
       case WriteRequest(id) => TaskAt(e, id, Requesting)
       case Deliver(_) => e.receiver == Idle
       case WriteResponse => e.receiver.Responding? && e.receiver.id in e.streams
       case WriteConfirm => e.receiver.Confirming? && e.receiver.id in e.streams
       case CancelTask => e.receiver.Stopping? && e.receiver.id in e.streams
       case FinishStop => e.receiver.Awaiting? && TaskAt(e, e.receiver.id, Done)
       case WriteKeepalive => e.beat == Sleeping
       case CountKeepalive => e.beat == Writing
       case Close => true
  }

  /** An id is taken: the counter moves past it, and that it was retired is forgotten. */
  function Taken(e: Endpoint, id: int): Endpoint {
    e.(nextRequestId := (id + 1) % REQUEST_ID_LIMIT, retired := DropRetired(e.retired, id))
  }

  /** The state after a step and the packets it put on the tunnel. */
  function Step(e: Endpoint, a: Action): (Endpoint, seq<Packet>)
    requires Enabled(e, a)
  {
    match a
    case Accept(id, localPort, remotePort) =>
      (Insert(Taken(e, id), id, NewStream(localPort, remotePort, Created)), [])
    case Spend(id) => (Taken(e, id), [])
    case Start(id) => (Insert(e, id, e.streams[id].(task := Announcing)), [])
    case WriteAnnouncement(id) =>
      var s := e.streams[id];
      (Insert(e, id, s.(task := Reading)), [Announce(MappingAnnouncement(s.localPort, s.remotePort, id))])
    case ReadChunk(id, data) =>
      var s := e.streams[id];
      (Insert(e, id, s.(read := s.read + data, sendSequence := s.sendSequence + 1,
                        task := Sending(s.sendSequence, data))), [])
    case WriteChunk(id) =>
      var s := e.streams[id];
      (Insert(e, id, s.(task := Reading)),
       [Data(TunnelFrame(Header(e.role, id, s, s.task.sequence), s.task.data))])
    case LocalEof(id) =>
      var s := e.streams[id];
      (Insert(e, id, s.(task := if s.remoteDisconnect then Done else Requesting)), [])
    case WriteRequest(id) =>
      var s := e.streams[id];
      (Insert(e, id, s.(task := Done)), [Control(e.role, id, s, DISCONNECT_REQUEST)])
    case Deliver(packet) => (Receive(e, packet), [])
    case WriteResponse =>
      var id := e.receiver.id;
      (e.(receiver := Stopping(id, false)), [Control(e.role, id, e.streams[id], DISCONNECT_RESPONSE)])
    case WriteConfirm =>
      var id := e.receiver.id;
      (e.(receiver := Stopping(id, true)), [Control(e.role, id, e.streams[id], DISCONNECT_CONFIRM)])
    case CancelTask =>
      var id := e.receiver.id;
      (Insert(e, id, Cancelled(e.streams[id])).(receiver := Awaiting(id, e.receiver.remove)), [])
    case FinishStop =>
      var id := e.receiver.id;
      var s := e.streams[id];
      (if e.receiver.remove
       then Remove(e, id).(retired := Retire(e.retired, Retired(id, s.localPort, s.remotePort)), receiver := Idle)
       else e.(receiver := Idle), [])
    case WriteKeepalive => (e.(beat := Writing), [Keepalive([])])
    case CountKeepalive =>
      var missed := e.missedKeepalives + 1;
      (e.(missedKeepalives := missed, beat := if missed <= MAX_MISSED_KEEPALIVES then Sleeping else Stopped,
          failure := if missed > MAX_MISSED_KEEPALIVES && e.failure == None then Some(KeepaliveTimeout) else e.failure),
       [])
    case Close => (e.(streams := map[], retired := [], closed := true), [])
  }

  // ---------------------------------------------------------------- runs

  predicate Legal(e: Endpoint, actions: seq<Action>)
    decreases |actions|
  {
    actions == [] || (Enabled(e, actions[0]) && Legal(Step(e, actions[0]).0, actions[1..]))
  }

  function Final(e: Endpoint, actions: seq<Action>): Endpoint
    requires Legal(e, actions)
    decreases |actions|
  {
    if actions == [] then e else Final(Step(e, actions[0]).0, actions[1..])
  }

  /** Everything the run put on the tunnel. */
  function Output(e: Endpoint, actions: seq<Action>): seq<Packet>
    requires Legal(e, actions)
    decreases |actions|
  {
    if actions == [] then [] else Step(e, actions[0]).1 + Output(Step(e, actions[0]).0, actions[1..])
  }

  // ---------------------------------------------------------------- what every step keeps

  /** Tables in order: active and retired ids disjoint, retired ids distinct and at most 256, ids in range. */
  ghost predicate WellFormed(e: Endpoint) {
    && 0 <= e.nextRequestId < REQUEST_ID_LIMIT
    && (forall id :: id in e.streams ==> ValidRequestId(id) && id !in RetiredIds(e.retired))
    && DistinctIds(e.retired)
    && |e.retired| <= MAX_RETIRED_STREAMS
    && (match e.receiver
        case Idle => true
        case Halted => true
        case Responding(id) => !e.closed ==> id in e.streams
        case Confirming(id) => !e.closed ==> id in e.streams
        case Stopping(id, _) => !e.closed ==> id in e.streams
        case Awaiting(id, _) => !e.closed ==> TaskAt(e, id, Requesting) || TaskAt(e, id, Done))
  }

  ghost predicate DistinctIds(retired: seq<Retired>) {
    forall i, j :: 0 <= i < j < |retired| ==> retired[i].id != retired[j].id
  }

  lemma RetiredIdsCons(head: Retired, rest: seq<Retired>)
    ensures RetiredIds([head] + rest) == {head.id} + RetiredIds(rest)
  {
    var all := [head] + rest;
    forall id | id in {head.id} + RetiredIds(rest)
      ensures id in RetiredIds(all)
    {
      if id == head.id {
        assert all[0].id == id;
      } else {
        var i :| 0 <= i < |rest| && rest[i].id == id;
        assert all[i + 1].id == id;
      }
    }
  }

  lemma DistinctCons(head: Retired, rest: seq<Retired>)
    requires DistinctIds(rest) && head.id !in RetiredIds(rest)
    ensures DistinctIds([head] + rest)
  {
    forall j | 0 <= j < |rest| ensures rest[j].id != head.id {
      assert rest[j].id in RetiredIds(rest);
    }
  }

  lemma {:induction false} DropKeepsDistinct(retired: seq<Retired>, id: int)
    requires DistinctIds(retired)
    ensures DistinctIds(DropRetired(retired, id))
    ensures RetiredIds(DropRetired(retired, id)) == RetiredIds(retired) - {id}
  {
    if retired != [] {
      var rest := retired[1..];
      DropKeepsDistinct(rest, id);
      assert retired == [retired[0]] + rest;
      RetiredIdsCons(retired[0], rest);
      assert retired[0].id !in RetiredIds(rest);
      RetiredIdsCons(retired[0], DropRetired(rest, id));
      if retired[0].id != id {
        DistinctCons(retired[0], DropRetired(rest, id));
      }
    }
  }

  lemma RetireKeepsDistinct(retired: seq<Retired>, entry: Retired)
    requires DistinctIds(retired) && |retired| <= MAX_RETIRED_STREAMS
    requires entry.id !in RetiredIds(retired)
    ensures var r := Retire(retired, entry);
      DistinctIds(r) && |r| <= MAX_RETIRED_STREAMS && RetiredIds(r) <= RetiredIds(retired) + {entry.id}
  {
    var r := Retire(retired, entry);
    forall i | 0 <= i < |r| - 1
      ensures r[i].id in RetiredIds(retired)
    {
      assert r[i] == if |retired| >= MAX_RETIRED_STREAMS then retired[i + 1] else retired[i];
    }
  }

  /** Dropping an entry and moving the counter keeps the tables. */
  lemma TakenKeepsTables(e: Endpoint, id: int)
    requires WellFormed(e) && ValidRequestId(id)
    ensures WellFormed(Taken(e, id)) && id !in RetiredIds(Taken(e, id).retired)
  {
    DropKeepsDistinct(e.retired, id);
  }

  /** A new entry, or a new value for one, keeps the tables. */
  lemma InsertKeepsTables(e: Endpoint, id: int, s: Stream)
    requires WellFormed(e) && ValidRequestId(id) && id !in RetiredIds(e.retired)
    requires e.receiver.Awaiting? && e.receiver.id == id ==> s.task == Requesting || s.task == Done
    ensures WellFormed(Insert(e, id, s))
  {
  }

  lemma TaskStepKeepsTables(e: Endpoint, a: Action)
    requires WellFormed(e) && Enabled(e, a)
    requires a.Start? || a.WriteAnnouncement? || a.ReadChunk? || a.WriteChunk? || a.LocalEof? || a.WriteRequest?
    ensures WellFormed(Step(e, a).0)
  {
    InsertKeepsTables(e, a.id, Step(e, a).0.streams[a.id]);
    assert Step(e, a).0 == Insert(e, a.id, Step(e, a).0.streams[a.id]);
  }

  lemma DispatchKeepsTables(e: Endpoint, frame: TunnelFrame)
    requires WellFormed(e) && !e.closed && e.receiver == Idle
    ensures WellFormed(Dispatch(e, frame))
  {
    var id := frame.header.requestId;
    if id in e.streams {
      InsertKeepsTables(e, id, e.streams[id].(remoteDisconnect := true));
      InsertKeepsTables(e, id, Cancelled(e.streams[id]));
    }
  }

  lemma AnnouncedKeepsTables(e: Endpoint, a: MappingAnnouncement)
    requires WellFormed(e) && !e.closed && e.receiver == Idle && ValidAnnouncement(a)
    ensures WellFormed(Announced(e, a))
  {
    DropKeepsDistinct(e.retired, a.requestId);
  }

  lemma ReceiverStepKeepsTables(e: Endpoint, a: Action)
    requires WellFormed(e) && Enabled(e, a) && (a.WriteResponse? || a.WriteConfirm? || a.CancelTask?)
    ensures WellFormed(Step(e, a).0)
  {
    if a.CancelTask? {
      InsertKeepsTables(e, e.receiver.id, Cancelled(e.streams[e.receiver.id]));
    }
  }

  lemma FinishKeepsTables(e: Endpoint)
    requires WellFormed(e) && Enabled(e, FinishStop)
    ensures WellFormed(Step(e, FinishStop).0)
  {
    if e.receiver.remove {
      var s := e.streams[e.receiver.id];
      RetireKeepsDistinct(e.retired, Retired(e.receiver.id, s.localPort, s.remotePort));
    }
  }

  lemma StepKeepsTables(e: Endpoint, a: Action)
    requires WellFormed(e) && Enabled(e, a)
    requires a.Deliver? && a.packet.Announce? ==> ValidAnnouncement(a.packet.announcement)
    ensures WellFormed(Step(e, a).0)
  {
    match a
    case Accept(id, localPort, remotePort) =>
      TakenKeepsTables(e, id);
      InsertKeepsTables(Taken(e, id), id, NewStream(localPort, remotePort, Created));
    case Spend(id) => TakenKeepsTables(e, id);
    case Deliver(packet) =>
      if packet.Announce? {
        AnnouncedKeepsTables(e, packet.announcement);
      } else if packet.Data? {
        DispatchKeepsTables(e, packet.frame);
      }
    case WriteResponse => ReceiverStepKeepsTables(e, a);
    case WriteConfirm => ReceiverStepKeepsTables(e, a);
    case CancelTask => ReceiverStepKeepsTables(e, a);
    case FinishStop => FinishKeepsTables(e);
    case WriteKeepalive =>
    case CountKeepalive =>
    case Close =>
    case _ => TaskStepKeepsTables(e, a);
  }
}
