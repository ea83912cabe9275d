/**
  The integration (a) and a camera that follows the same rules in the other role (b), joined by two FIFO
  channels. Runs interleave the atomic steps of both ends in any way.
*/
module TwoParty {
  import opened Bytes
  import opened Tunnel
  import opened Mux
  import opened PairInvariant
  import opened PairSteps

  datatype System = System(a: Endpoint, b: Endpoint, ab: seq<Packet>, ba: seq<Packet>)

  datatype Move = Move(integration: bool, action: Action)

  function Start(): System {
    System(Initial(Listener), Initial(Connector), [], [])
  }

  function Mirror(s: System): System {
    System(s.b, s.a, s.ba, s.ab)
  }

  function PacketId(p: Packet): Option<int> {
    match p
    case Announce(a) => Some(a.requestId)
    case Data(frame) => Some(frame.header.requestId)
    case Keepalive(_) => None
  }

  /** The packets of one request id, in order. */
  function Of(ch: seq<Packet>, id: int): (r: seq<Packet>) {
    if ch == [] then []
    else (if PacketId(ch[0]) == Some(id) then [ch[0]] else []) + Of(ch[1..], id)
  }

  predicate On(r: Receiver, id: int) {
    match r
    case Idle => false
    case Halted => false
    case Responding(i) => i == id
    case Confirming(i) => i == id
    case Stopping(i, _) => i == id
    case Awaiting(i, _) => i == id
  }

  /** A packet of the id is in flight, or a receive loop is still dealing with one. */
  predicate Busy(s: System, id: int) {
    Of(s.ab, id) != [] || Of(s.ba, id) != [] || On(s.a.receiver, id) || On(s.b.receiver, id)
  }

  /**
    A step of the first end that may happen next. The receive loop takes the oldest packet in flight. The only
    assumption about ids: none that is busy is reallocated, or evicted from the retired table.
  */
  predicate MayAct(s: System, action: Action) {
    && Enabled(s.a, action)
    && match action
       case Deliver(p) => s.ba != [] && p == s.ba[0]
       case Accept(id, _, _) => !Busy(s, id)
       case Spend(id) => !Busy(s, id)
       case FinishStop =>
         s.a.receiver.remove && |s.a.retired| >= MAX_RETIRED_STREAMS ==> !Busy(s, s.a.retired[0].id)
       case Close => false
       case _ => true
  }

  function Act(s: System, action: Action): System
    requires MayAct(s, action)
  {
    var (e, out) := Step(s.a, action);
    System(e, s.b, s.ab + out, if action.Deliver? then s.ba[1..] else s.ba)
  }

  predicate May(s: System, m: Move) {
    if m.integration then MayAct(s, m.action) else MayAct(Mirror(s), m.action)
  }

  function Apply(s: System, m: Move): System
    requires May(s, m)
  {
    if m.integration then Act(s, m.action) else Mirror(Act(Mirror(s), m.action))
  }

  predicate LegalRun(s: System, moves: seq<Move>)
    decreases |moves|
  {
    moves == [] || (May(s, moves[0]) && LegalRun(Apply(s, moves[0]), moves[1..]))
  }

  function After(s: System, moves: seq<Move>): System
    requires LegalRun(s, moves)
    decreases |moves|
  {
    if moves == [] then s else After(Apply(s, moves[0]), moves[1..])
  }

  // ---------------------------------------------------------------- views

  function LocalOf(e: Endpoint, id: int): Local {
    Local(e.role, if id in e.streams then Some(e.streams[id]) else None, FindRetired(e.retired, id),
          if On(e.receiver, id) then e.receiver else Idle)
  }

  function ViewOf(s: System, id: int): View {
    View(id, LocalOf(s.a, id), LocalOf(s.b, id), Of(s.ab, id), Of(s.ba, id))
  }

  lemma {:induction false} OfConcat(first: seq<Packet>, second: seq<Packet>, id: int)
    ensures Of(first + second, id) == Of(first, id) + Of(second, id)
    decreases |first|
  {
    if first == [] {
      assert first + second == second;
    } else {
      OfConcat(first[1..], second, id);
      assert (first + second)[1..] == first[1..] + second;
    }
  }

  lemma OfOne(ch: seq<Packet>, p: Packet, id: int)
    ensures Of(ch + [p], id) == if PacketId(p) == Some(id) then Of(ch, id) + [p] else Of(ch, id)
  {
    OfConcat(ch, [p], id);
  }

  lemma {:induction false} FindAfterDrop(retired: seq<Retired>, dropped: int, id: int)
    ensures FindRetired(DropRetired(retired, dropped), id) == if id == dropped then None else FindRetired(retired, id)
  {
    if retired != [] {
      FindAfterDrop(retired[1..], dropped, id);
    }
  }

  lemma {:induction false} FindAfterAppend(retired: seq<Retired>, entry: Retired, id: int)
    ensures FindRetired(retired + [entry], id)
         == if FindRetired(retired, id) != None then FindRetired(retired, id)
            else if entry.id == id then Some(entry) else None
  {
    if retired == [] {
      assert (retired + [entry])[1..] == [];
    } else {
      assert (retired + [entry])[1..] == retired[1..] + [entry];
      FindAfterAppend(retired[1..], entry, id);
    }
  }

  /** Retiring an id adds its entry and takes away at most the oldest one. */
  lemma FindAfterRetire(retired: seq<Retired>, entry: Retired, id: int)
    requires DistinctIds(retired) && entry.id !in RetiredIds(retired)
    ensures var found := FindRetired(Retire(retired, entry), id);
      if id == entry.id then found == Some(entry)
      else if |retired| >= MAX_RETIRED_STREAMS && id == retired[0].id then found == None
      else found == FindRetired(retired, id)
  {
    var kept := if |retired| >= MAX_RETIRED_STREAMS then retired[1..] else retired;
    FindAfterAppend(kept, entry, id);
    InTable(kept, id);
    InTable(retired, id);
    assert forall x :: x in kept ==> x in retired;
    assert forall x :: x in retired ==> x.id in RetiredIds(retired);
  }

  lemma InTable(retired: seq<Retired>, id: int)
    ensures FindRetired(retired, id) != None ==> exists i :: 0 <= i < |retired| && retired[i].id == id
  {
  }

  // ---------------------------------------------------------------- the invariant of the whole system

  ghost predicate Sound(e: Endpoint) {
    && WellFormed(e) && !e.closed && e.receiver != Halted
    && (e.failure == None || e.failure == Some(KeepaliveTimeout))
  }

  predicate KnownOperation(op: int) {
    op >= 0 || op == DISCONNECT_REQUEST || op == DISCONNECT_RESPONSE || op == DISCONNECT_CONFIRM
  }

  predicate Clean(ch: seq<Packet>) {
    forall i :: 0 <= i < |ch| ==>
      match ch[i]
      case Keepalive(payload) => payload == []
      case Data(frame) => KnownOperation(frame.header.operation)
      case Announce(_) => true
  }

  ghost predicate SystemInv(s: System) {
    && Sound(s.a) && Sound(s.b) && Clean(s.ab) && Clean(s.ba)
    && s.b.role == Peer(s.a.role)
    && forall id :: PairInv(ViewOf(s, id))
  }

  lemma StartInv()
    ensures SystemInv(Start())
  {
    forall id ensures PairInv(ViewOf(Start(), id)) {
    }
  }

  lemma MirrorInv(s: System)
    requires SystemInv(s)
    ensures SystemInv(Mirror(s))
  {
    forall id ensures PairInv(ViewOf(Mirror(s), id)) {
      assert ViewOf(Mirror(s), id) == Swap(ViewOf(s, id));
      assert PairInv(ViewOf(s, id));
    }
  }

  /** The id a step works on. */
  function Target(e: Endpoint, action: Action): Option<int> {
    match action
    case Accept(id, _, _) => Some(id)
    case Start(id) => Some(id)
    case WriteAnnouncement(id) => Some(id)
    case ReadChunk(id, _) => Some(id)
    case WriteChunk(id) => Some(id)
    case LocalEof(id) => Some(id)
    case WriteRequest(id) => Some(id)
    case Deliver(p) => PacketId(p)
    case Spend(_) => None
    case WriteKeepalive => None
    case CountKeepalive => None
    case Close => None
    case _ =>
      match e.receiver
      case Responding(id) => Some(id)
      case Confirming(id) => Some(id)
      case Stopping(id, _) => Some(id)
      case Awaiting(id, _) => Some(id)
      case _ => None
  }

  /** The retired id a step makes the end forget: the oldest, pushed out of a full table, or one spent. */
  function Evicts(e: Endpoint, action: Action): Option<int> {
    if action.Spend? then Some(action.id)
    else if action.FinishStop? && e.receiver.Awaiting? && e.receiver.remove && |e.retired| >= MAX_RETIRED_STREAMS
    then Some(e.retired[0].id) else None
  }

  function Evicted(v: View): View {
    v.(x := v.x.(retired := None))
  }

  /** Delivery raises no error and does what the abstract receiver foresees. */
  lemma DeliveryIsGood(s: System)
    requires SystemInv(s) && s.ba != [] && s.a.receiver == Idle && PacketId(s.ba[0]) != None
    ensures var id, p, e := PacketId(s.ba[0]).value, s.ba[0], Receive(s.a, s.ba[0]);
      && Of(s.ba, id) != [] && Of(s.ba, id)[0] == p && Of(s.ba, id)[1..] == Of(s.ba[1..], id)
      && e.receiver != Halted && e.failure == s.a.failure
      && LocalOf(e, id) == Received(id, LocalOf(s.a, id), p)
  {
    var id, p := PacketId(s.ba[0]).value, s.ba[0];
    var v := ViewOf(s, id);
    assert PairInv(v);
    HeadIsGood(v);
    GoodIsReceived(s.a, id, p);
  }

  /** A packet the abstract receiver accepts is dispatched without an error. */
  lemma GoodIsReceived(e: Endpoint, id: int, p: Packet)
    requires PacketId(p) == Some(id) && e.receiver == Idle
    requires Absorb(e.role, ReceptionOf(LocalOf(e, id)), p) != Bad
    ensures Receive(e, p).receiver != Halted && Receive(e, p).failure == e.failure
    ensures LocalOf(Receive(e, p), id) == Received(id, LocalOf(e, id), p)
  {
    if p.Announce? {
      FindAfterDrop(e.retired, id, id);
    } else {
      assert Receive(e, p) == Dispatch(e, p.frame);
    }
  }

  lemma DeliveryFrame(s: System, other: int)
    requires SystemInv(s) && s.ba != [] && s.a.receiver == Idle && PacketId(s.ba[0]) != None
    requires PacketId(s.ba[0]) != Some(other)
    ensures LocalOf(Receive(s.a, s.ba[0]), other) == LocalOf(s.a, other)
    ensures Of(s.ba[1..], other) == Of(s.ba, other)
  {
    DeliveryIsGood(s);
    OthersStay(s.a, s.ba[0], other);
  }

  lemma OthersStay(e: Endpoint, p: Packet, other: int)
    requires e.receiver == Idle && PacketId(p) != None && PacketId(p) != Some(other)
    requires Receive(e, p).receiver != Halted
    ensures LocalOf(Receive(e, p), other) == LocalOf(e, other)
  {
    var after := Receive(e, p);
    if p.Announce? {
      FindAfterDrop(e.retired, p.announcement.requestId, other);
    } else {
      assert after == Dispatch(e, p.frame);
      assert after.retired == e.retired;
    }
    assert other in after.streams <==> other in e.streams;
    assert other in e.streams ==> after.streams[other] == e.streams[other];
    assert !On(after.receiver, other);
  }

  /** What a step adds to the outgoing channel, as one id sees it. */
  lemma Sends(s: System, action: Action, id: int)
    requires MayAct(s, action)
    ensures var out := Step(s.a, action).1;
      Of(Act(s, action).ab, id) ==
        if out != [] && Target(s.a, action) == Some(id) then Of(s.ab, id) + out else Of(s.ab, id)
  {
    var out := Step(s.a, action).1;
    if out == [] {
      assert s.ab + out == s.ab;
    } else {
      assert out == [out[0]];
      OfOne(s.ab, out[0], id);
    }
  }

  lemma AcceptKeeps(s: System, action: Action)
    requires SystemInv(s) && action.Accept? && MayAct(s, action)
    ensures PairInv(ViewOf(Act(s, action), action.id))
  {
    var id := action.id;
    var v, after := ViewOf(s, id), ViewOf(Act(s, action), id);
    assert PairInv(v);
    Sends(s, action, id);
    FindAfterDrop(s.a.retired, id, id);
    KeepsAccept(v, action.localPort, action.remotePort);
    assert after == v.(x := v.x.(stream := Some(NewStream(action.localPort, action.remotePort, Created)), retired := None));
  }

  /** A step that replaces one stream's entry, as its id sees it. */
  lemma EntryChanges(s: System, action: Action, id: int, st: Stream)
    requires MayAct(s, action) && Target(s.a, action) == Some(id) && !action.Deliver? && id in s.a.streams
    requires Step(s.a, action).0 == Insert(s.a, id, st)
    ensures var out, v := Step(s.a, action).1, ViewOf(s, id);
      ViewOf(Act(s, action), id)
        == if out == [] then WithLocal(v, st, v.x.receiver) else WithWrite(v, st, v.x.receiver, out[0])
  {
    Sends(s, action, id);
    assert Step(s.a, action).1 != [] ==> Step(s.a, action).1 == [Step(s.a, action).1[0]];
  }

  lemma ReadKeeps(s: System, action: Action)
    requires SystemInv(s) && MayAct(s, action) && action.ReadChunk?
    ensures PairInv(ViewOf(Act(s, action), action.id))
  {
    var id, data := action.id, action.data;
    var v, st := ViewOf(s, id), s.a.streams[id];
    assert PairInv(v);
    EntryChanges(s, action, id, st.(read := st.read + data, sendSequence := st.sendSequence + 1,
                                    task := Sending(st.sendSequence, data)));
    KeepsReadChunk(v, data);
  }

  lemma SilentKeeps(s: System, action: Action)
    requires SystemInv(s) && MayAct(s, action)
    requires action.Start? || action.ReadChunk? || action.LocalEof?
    ensures PairInv(ViewOf(Act(s, action), action.id))
  {
    var id := action.id;
    var v, st := ViewOf(s, id), s.a.streams[id];
    assert PairInv(v);
    match action
    case Start(_) =>
      EntryChanges(s, action, id, st.(task := Announcing));
      KeepsStart(v);
    case ReadChunk(_, _) =>
      ReadKeeps(s, action);
    case LocalEof(_) =>
      EntryChanges(s, action, id, st.(task := if st.remoteDisconnect then Done else Requesting));
      KeepsLocalEof(v);
  }

  lemma WritingKeeps(s: System, action: Action)
    requires SystemInv(s) && MayAct(s, action)
    requires action.WriteAnnouncement? || action.WriteChunk? || action.WriteRequest?
    ensures PairInv(ViewOf(Act(s, action), action.id))
  {
    var id := action.id;
    var v, st := ViewOf(s, id), s.a.streams[id];
    assert PairInv(v);
    match action
    case WriteAnnouncement(_) =>
      EntryChanges(s, action, id, st.(task := Reading));
      KeepsWriteAnnouncement(v);
    case WriteChunk(_) =>
      EntryChanges(s, action, id, st.(task := Reading));
      KeepsWriteChunk(v);
    case WriteRequest(_) =>
      EntryChanges(s, action, id, st.(task := Done));
      KeepsWriteRequest(v);
  }

  /** A forwarding step keeps the invariant of its stream. */
  lemma ForwardKeeps(s: System, action: Action, id: int)
    requires SystemInv(s) && MayAct(s, action) && Target(s.a, action) == Some(id)
    requires action.Accept? || action.Start? || action.WriteAnnouncement? || action.ReadChunk?
          || action.WriteChunk? || action.LocalEof? || action.WriteRequest?
    ensures PairInv(ViewOf(Act(s, action), id))
  {
    if action.Accept? {
      AcceptKeeps(s, action);
    } else if action.Start? || action.ReadChunk? || action.LocalEof? {
      SilentKeeps(s, action);
    } else {
      WritingKeeps(s, action);
    }
  }

  /** A step of the receive loop keeps the invariant of the stream it deals with. */
  lemma ReceiverKeeps(s: System, action: Action, id: int)
    requires SystemInv(s) && MayAct(s, action) && Target(s.a, action) == Some(id)
    requires action.WriteResponse? || action.WriteConfirm? || action.CancelTask? || action.FinishStop?
    ensures PairInv(ViewOf(Act(s, action), id))
  {
    var v, after := ViewOf(s, id), ViewOf(Act(s, action), id);
    assert PairInv(v);
    Sends(s, action, id);
    var st := v.x.stream.value;
    match action
    case WriteResponse =>
      KeepsWriteResponse(v);
    case WriteConfirm =>
      KeepsWriteConfirm(v);
    case CancelTask =>
      KeepsCancel(v);
      assert after == WithLocal(v, Cancelled(st), Awaiting(id, v.x.receiver.remove));
    case FinishStop =>
      KeepsFinish(v);
      if v.x.receiver.remove {
        FindAfterRetire(s.a.retired, Retired(id, st.localPort, st.remotePort), id);
        assert after == v.(x := Local(v.x.role, None, Some(Retired(id, st.localPort, st.remotePort)), Idle));
      } else {
        assert after == WithLocal(v, st, Idle);
      }
  }

  lemma DeliverKeeps(s: System, p: Packet, id: int)
    requires SystemInv(s) && MayAct(s, Deliver(p)) && PacketId(p) == Some(id)
    ensures PairInv(ViewOf(Act(s, Deliver(p)), id))
  {
    var v, after := ViewOf(s, id), ViewOf(Act(s, Deliver(p)), id);
    assert PairInv(v);
    DeliveryIsGood(s);
    Sends(s, Deliver(p), id);
    assert after == AfterReceive(v);
    if p.Announce? {
      KeepsReceiveAnnounce(v);
    } else if p.frame.header.operation >= 0 {
      KeepsReceiveData(v);
    } else if p.frame.header.operation == DISCONNECT_REQUEST {
      KeepsReceiveRequest(v);
    } else if p.frame.header.operation == DISCONNECT_RESPONSE {
      KeepsReceiveResponse(v);
    } else {
      KeepsReceiveConfirm(v);
    }
  }

  /** The other ids see nothing of a step, except the one evicted. */
  lemma OtherIds(s: System, action: Action, id: int)
    requires SystemInv(s) && MayAct(s, action) && Target(s.a, action) != Some(id)
    ensures ViewOf(Act(s, action), id) == if Evicts(s.a, action) == Some(id) then Evicted(ViewOf(s, id)) else ViewOf(s, id)
  {
    Sends(s, action, id);
    OtherLocals(s, action, id);
  }

  /** The acting end, as another id sees it. */
  lemma OtherLocals(s: System, action: Action, id: int)
    requires SystemInv(s) && MayAct(s, action) && Target(s.a, action) != Some(id)
    ensures var l, after := LocalOf(s.a, id), LocalOf(Step(s.a, action).0, id);
      after == if Evicts(s.a, action) == Some(id) then l.(retired := None) else l
    ensures Of(Act(s, action).ba, id) == Of(s.ba, id)
  {
    match action
    case Accept(target, _, _) => FindAfterDrop(s.a.retired, target, id);
    case Spend(target) => FindAfterDrop(s.a.retired, target, id);
    case Deliver(p) =>
      if PacketId(p) != None {
        DeliveryFrame(s, id);
      }
    case FinishStop => OthersAfterFinish(s.a, id);
    case _ =>
      if !action.WriteKeepalive? && !action.CountKeepalive? {
        OthersAfterStep(s.a, action, id);
      }
  }

  lemma OthersAfterFinish(e: Endpoint, id: int)
    requires WellFormed(e) && Enabled(e, FinishStop) && e.receiver.id != id
    ensures LocalOf(Step(e, FinishStop).0, id)
         == if Evicts(e, FinishStop) == Some(id) then LocalOf(e, id).(retired := None) else LocalOf(e, id)
  {
    if e.receiver.remove {
      var st := e.streams[e.receiver.id];
      FindAfterRetire(e.retired, Retired(e.receiver.id, st.localPort, st.remotePort), id);
    }
  }

  /** A step that touches one entry, and perhaps the receive loop while it deals with that entry. */
  lemma OthersAfterStep(e: Endpoint, action: Action, id: int)
    requires Enabled(e, action) && Target(e, action) != None && Target(e, action) != Some(id)
    requires !action.Accept? && !action.Deliver? && !action.FinishStop?
    ensures LocalOf(Step(e, action).0, id) == LocalOf(e, id)
  {
    var after := Step(e, action).0;
    assert after.retired == e.retired;
    assert id in after.streams <==> id in e.streams;
    assert id in e.streams ==> after.streams[id] == e.streams[id];
  }

  lemma SoundStep(e: Endpoint, action: Action)
    requires Sound(e) && Enabled(e, action) && !action.Deliver? && !action.Close?
    ensures Sound(Step(e, action).0) && Clean(Step(e, action).1)
  {
    StepKeepsTables(e, action);
  }

  lemma SoundReceive(e: Endpoint, p: Packet)
    requires Sound(e) && e.receiver == Idle && Receive(e, p).receiver != Halted
    requires p.Announce? ==> ValidRequestId(p.announcement.requestId)
    requires p.Keepalive? ==> p.payload == []
    ensures Sound(Receive(e, p))
  {
    if p.Announce? {
      DropKeepsDistinct(e.retired, p.announcement.requestId);
    }
  }

  /** The acting end stays free of errors. */
  lemma EndKeeps(s: System, action: Action)
    requires SystemInv(s) && MayAct(s, action)
    ensures Sound(Act(s, action).a) && Clean(Act(s, action).ab) && Clean(Act(s, action).ba)
  {
    if action.Deliver? {
      var p := action.packet;
      if p.Announce? {
        assert PairInv(ViewOf(s, p.announcement.requestId));
        assert Of(s.ba, p.announcement.requestId)[0] == p;
      }
      if PacketId(p) != None {
        DeliveryIsGood(s);
      }
      SoundReceive(s.a, p);
    } else {
      SoundStep(s.a, action);
    }
  }

  lemma ActKeeps(s: System, action: Action)
    requires SystemInv(s) && MayAct(s, action)
    ensures SystemInv(Act(s, action))
  {
    EndKeeps(s, action);
    forall id ensures PairInv(ViewOf(Act(s, action), id)) {
      assert PairInv(ViewOf(s, id));
      if Target(s.a, action) == Some(id) {
        if action.Deliver? {
          DeliverKeeps(s, action.packet, id);
        } else if action.WriteResponse? || action.WriteConfirm? || action.CancelTask? || action.FinishStop? {
          ReceiverKeeps(s, action, id);
        } else {
          ForwardKeeps(s, action, id);
        }
      } else {
        OtherIds(s, action, id);
        if Evicts(s.a, action) == Some(id) {
          KeepsEviction(ViewOf(s, id));
        }
      }
    }
  }

  lemma {:induction false} RunKeeps(s: System, moves: seq<Move>)
    requires SystemInv(s) && LegalRun(s, moves)
    ensures SystemInv(After(s, moves))
    decreases |moves|
  {
    if moves != [] {
      if moves[0].integration {
        ActKeeps(s, moves[0].action);
      } else {
        MirrorInv(s);
        ActKeeps(Mirror(s), moves[0].action);
        MirrorInv(Act(Mirror(s), moves[0].action));
      }
      RunKeeps(Apply(s, moves[0]), moves[1..]);
    }
  }

  // ---------------------------------------------------------------- results over every run

  /** No run ends either receive loop with a protocol error; only a keepalive timeout can be recorded. */
  lemma NoProtocolError(moves: seq<Move>)
    requires LegalRun(Start(), moves)
    ensures var s := After(Start(), moves);
      && s.a.receiver != Halted && s.b.receiver != Halted
      && (s.a.failure == None || s.a.failure == Some(KeepaliveTimeout))
      && (s.b.failure == None || s.b.failure == Some(KeepaliveTimeout))
  {
    StartInv();
    RunKeeps(Start(), moves);
  }

  /** The forwarding task is not about to write: it waits for its socket, or is over. */
  predicate Resting(e: Endpoint, id: int) {
    id in e.streams ==> e.streams[id].task == Reading || e.streams[id].task == Done
  }

  /**
    When nothing of an id is in flight or being handled, either both ends hold it and both still read their
    sockets, or neither holds it: a close that has drained leaves no half-open stream behind.
  */
  lemma DrainedCloseIsMutual(moves: seq<Move>, id: int)
    requires LegalRun(Start(), moves)
    requires var s := After(Start(), moves);
      !Busy(s, id) && Resting(s.a, id) && Resting(s.b, id)
    ensures var s := After(Start(), moves);
      && (id in s.a.streams <==> id in s.b.streams)
      && (id in s.a.streams ==>
            && s.a.streams[id].task == Reading && !s.a.streams[id].remoteDisconnect
            && s.b.streams[id].task == Reading && !s.b.streams[id].remoteDisconnect)
  {
    StartInv();
    RunKeeps(Start(), moves);
    QuietIsSettled(ViewOf(After(Start(), moves), id));
  }

  /**
    Each socket always holds a prefix of the bytes read at the other end, and all of them from the moment the
    other end's disconnect request has been seen.
  */
  lemma BytesArriveInOrder(moves: seq<Move>, id: int)
    requires LegalRun(Start(), moves)
    requires id in After(Start(), moves).a.streams && id in After(Start(), moves).b.streams
    ensures var s := After(Start(), moves);
      var x, y := s.a.streams[id], s.b.streams[id];
      && y.sink <= x.read && x.sink <= y.read
      && (y.remoteDisconnect ==> y.sink == x.read)
      && (x.remoteDisconnect ==> x.sink == y.read)
      && x.localPort == y.remotePort && x.remotePort == y.localPort
  {
    StartInv();
    RunKeeps(Start(), moves);
    var v := ViewOf(After(Start(), moves), id);
    assert PairInv(v);
    PortsMirror(v);
  }

  lemma PortsMirror(v: View)
    requires PairInv(v) && v.x.stream.Some? && v.y.stream.Some?
    ensures v.x.stream.value.localPort == v.y.stream.value.remotePort
    ensures v.x.stream.value.remotePort == v.y.stream.value.localPort
  {
    FoldKeepsPorts(v.y.role, ReceptionOf(v.y), v.xy);
  }

  lemma {:induction false} FoldKeepsPorts(role: Role, r: Reception, ch: seq<Packet>)
    requires r.Open? || r.Gone?
    requires forall i :: 0 <= i < |ch| ==> !ch[i].Announce?
    ensures var f := Fold(role, r, ch);
      f == Bad || ((f.Open? || f.Gone?) && f.localPort == r.localPort && f.remotePort == r.remotePort)
    decreases |ch|
  {
    if ch != [] {
      var next := Absorb(role, r, ch[0]);
      if next == Bad {
        BadStaysBad(role, ch[1..]);
      } else {
        FoldKeepsPorts(role, next, ch[1..]);
      }
    }
  }
}
