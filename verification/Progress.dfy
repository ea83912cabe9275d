/** Closing comes to an end: bounded work for every request id, and no state in which both ends wait. */
module Progress {
  import opened Bytes
  import opened Tunnel
  import opened Mux
  import opened PairInvariant
  import opened PairSteps
  import opened TwoParty

  // ---------------------------------------------------------------- what is left to do for one id

  function TaskWork(t: Task): nat {
    match t
    case Created => 27
    case Announcing => 26
    case Sending(_, _) => 14
    case Reading => 12
    case Requesting => 11
    case Done => 0
  }

  function ReceiverWork(r: Receiver): nat {
    match r
    case Responding(_) => 9
    case Confirming(_) => 5
    case Stopping(_, _) => 2
    case Awaiting(_, _) => 1
    case _ => 0
  }

  function PacketWork(p: Packet): nat {
    if p.Announce? then 13
    else if IsControl(p, DISCONNECT_REQUEST) then 10
    else if IsControl(p, DISCONNECT_RESPONSE) then 6
    else if IsControl(p, DISCONNECT_CONFIRM) then 2
    else 1
  }

  function LocalWork(l: Local): nat {
    (if l.stream.Some? then TaskWork(l.stream.value.task) else 0) + ReceiverWork(l.receiver)
  }

  function ChannelWork(ch: seq<Packet>): nat {
    if ch == [] then 0 else PacketWork(ch[0]) + ChannelWork(ch[1..])
  }

  /** A bound on the steps still to come for an id whose sockets deliver nothing more. */
  function Work(v: View): nat {
    LocalWork(v.x) + LocalWork(v.y) + ChannelWork(v.xy) + ChannelWork(v.yx)
  }

  lemma {:induction false} ChannelWorkAppend(ch: seq<Packet>, p: Packet)
    ensures ChannelWork(ch + [p]) == ChannelWork(ch) + PacketWork(p)
  {
    if ch == [] {
      assert (ch + [p])[1..] == [];
    } else {
      assert (ch + [p])[1..] == ch[1..] + [p];
      ChannelWorkAppend(ch[1..], p);
    }
  }

  /** A new local connection, or more bytes from a local socket: the only ways to make more work for an id. */
  predicate Feeds(action: Action, id: int) {
    (action.Accept? && action.id == id) || (action.ReadChunk? && action.id == id)
  }

  /** A task moves to a later suspension point; a packet it writes outweighs no more than the difference. */
  lemma EntryWorks(s: System, action: Action, id: int, st: Stream)
    requires MayAct(s, action) && Target(s.a, action) == Some(id) && !action.Deliver? && id in s.a.streams
    requires Step(s.a, action).0 == Insert(s.a, id, st)
    requires var out := Step(s.a, action).1;
      TaskWork(st.task) + (if out == [] then 0 else PacketWork(out[0])) < TaskWork(s.a.streams[id].task)
    ensures Work(ViewOf(Act(s, action), id)) < Work(ViewOf(s, id))
  {
    EntryChanges(s, action, id, st);
    if Step(s.a, action).1 != [] {
      ChannelWorkAppend(Of(s.ab, id), Step(s.a, action).1[0]);
    }
  }

  lemma TaskStepWorks(s: System, action: Action)
    requires MayAct(s, action)
    requires action.Start? || action.WriteAnnouncement? || action.WriteChunk? || action.LocalEof? || action.WriteRequest?
    ensures Work(ViewOf(Act(s, action), action.id)) < Work(ViewOf(s, action.id))
  {
    var id := action.id;
    var st := s.a.streams[id];
    var task :=
      match action
      case Start(_) => Announcing
      case LocalEof(_) => if st.remoteDisconnect then Done else Requesting
      case WriteRequest(_) => Done
      case _ => Reading;
    EntryWorks(s, action, id, st.(task := task));
  }

  lemma ReceiverStepLocally(e: Endpoint, action: Action, id: int)
    requires WellFormed(e) && Enabled(e, action) && Target(e, action) == Some(id)
    requires action.WriteResponse? || action.WriteConfirm? || action.CancelTask? || action.FinishStop?
    ensures var (after, out) := Step(e, action);
      && |out| <= 1
      && LocalWork(LocalOf(after, id)) + (if out == [] then 0 else PacketWork(out[0])) < LocalWork(LocalOf(e, id))
  {
  }

  lemma ReceiverStepWorks(s: System, action: Action, id: int)
    requires SystemInv(s) && MayAct(s, action) && Target(s.a, action) == Some(id)
    requires action.WriteResponse? || action.WriteConfirm? || action.CancelTask? || action.FinishStop?
    ensures Work(ViewOf(Act(s, action), id)) < Work(ViewOf(s, id))
  {
    Sends(s, action, id);
    ReceiverStepLocally(s.a, action, id);
    var out := Step(s.a, action).1;
    if out != [] {
      assert out == [out[0]];
      ChannelWorkAppend(Of(s.ab, id), out[0]);
    }
  }

  lemma DeliveryWorks(s: System, p: Packet, id: int)
    requires SystemInv(s) && MayAct(s, Deliver(p)) && PacketId(p) == Some(id)
    ensures Work(ViewOf(Act(s, Deliver(p)), id)) < Work(ViewOf(s, id))
  {
    DeliveryIsGood(s);
    Sends(s, Deliver(p), id);
    assert ViewOf(Act(s, Deliver(p)), id) == AfterReceive(ViewOf(s, id));
    ReceivedWorks(ViewOf(s, id));
  }

  lemma ReceivedWorks(v: View)
    requires v.yx != [] && v.x.receiver == Idle && !v.yx[0].Keepalive?
    requires v.yx[0].Announce? ==> v.x.stream.None?
    requires v.yx[0].Data? ==> KnownOperation(v.yx[0].frame.header.operation)
    ensures Work(AfterReceive(v)) < Work(v)
  {
  }

  /** Every step for an id lowers its work unless it feeds the id; steps for other ids leave it alone. */
  lemma ActWorks(s: System, action: Action, id: int)
    requires SystemInv(s) && MayAct(s, action) && !Feeds(action, id)
    ensures if Target(s.a, action) == Some(id) then Work(ViewOf(Act(s, action), id)) < Work(ViewOf(s, id))
            else Work(ViewOf(Act(s, action), id)) == Work(ViewOf(s, id))
  {
    if Target(s.a, action) != Some(id) {
      OtherIds(s, action, id);
    } else if action.Deliver? {
      DeliveryWorks(s, action.packet, id);
    } else if action.WriteResponse? || action.WriteConfirm? || action.CancelTask? || action.FinishStop? {
      ReceiverStepWorks(s, action, id);
    } else {
      TaskStepWorks(s, action);
    }
  }

  // ---------------------------------------------------------------- bounded work

  predicate For(s: System, m: Move, id: int) {
    Target(if m.integration then s.a else s.b, m.action) == Some(id)
  }

  /** How many moves of a run deal with an id. */
  function Count(s: System, moves: seq<Move>, id: int): nat
    requires LegalRun(s, moves)
    decreases |moves|
  {
    if moves == [] then 0 else (if For(s, moves[0], id) then 1 else 0) + Count(Apply(s, moves[0]), moves[1..], id)
  }

  predicate NeverFed(moves: seq<Move>, id: int) {
    forall m :: m in moves ==> !Feeds(m.action, id)
  }

  lemma {:induction false} WorkRunsOut(s: System, moves: seq<Move>, id: int)
    requires SystemInv(s) && LegalRun(s, moves) && NeverFed(moves, id)
    ensures Count(s, moves, id) + Work(ViewOf(After(s, moves), id)) <= Work(ViewOf(s, id))
    decreases |moves|
  {
    if moves != [] {
      var next := Apply(s, moves[0]);
      if moves[0].integration {
        ActKeeps(s, moves[0].action);
        ActWorks(s, moves[0].action, id);
      } else {
        MirrorInv(s);
        ActKeeps(Mirror(s), moves[0].action);
        ActWorks(Mirror(s), moves[0].action, id);
        MirrorInv(Act(Mirror(s), moves[0].action));
        assert ViewOf(Mirror(s), id) == Swap(ViewOf(s, id));
        assert ViewOf(next, id) == Swap(ViewOf(Act(Mirror(s), moves[0].action), id));
      }
      WorkRunsOut(next, moves[1..], id);
    }
  }

  /** However a run goes on, an id that is not fed takes part in a bounded number of further steps. */
  lemma ClosingIsBounded(moves: seq<Move>, more: seq<Move>, id: int)
    requires LegalRun(TwoParty.Start(), moves) && LegalRun(After(TwoParty.Start(), moves), more) && NeverFed(more, id)
    ensures Count(After(TwoParty.Start(), moves), more, id) <= Work(ViewOf(After(TwoParty.Start(), moves), id))
  {
    StartInv();
    RunKeeps(TwoParty.Start(), moves);
    WorkRunsOut(After(TwoParty.Start(), moves), more, id);
  }

  // ---------------------------------------------------------------- no deadlock

  predicate Draining(action: Action) {
    && !action.Accept? && !action.Spend? && !action.ReadChunk? && !action.LocalEof?
    && !action.WriteKeepalive? && !action.CountKeepalive? && !action.Close?
  }

  /** An end with nothing to read and nothing to write. */
  predicate Quiescent(e: Endpoint, incoming: seq<Packet>) {
    && e.receiver == Idle && incoming == []
    && forall id :: id in e.streams ==> e.streams[id].task == Reading || e.streams[id].task == Done
  }

  /** A step the code can take: the assumption about ids in use, which runs obey, is left out. */
  predicate Runnable(s: System, action: Action) {
    Enabled(s.a, action) && (action.Deliver? ==> s.ba != [] && action.packet == s.ba[0])
  }

  /** Retiring the stream at hand would push an id that is still in use out of a full table. */
  predicate EvictsBusy(s: System, action: Action) {
    && action.FinishStop? && s.a.receiver.Awaiting? && s.a.receiver.remove
    && |s.a.retired| >= MAX_RETIRED_STREAMS && Busy(s, s.a.retired[0].id)
  }

  function TaskAction(s: Stream, id: int): Option<Action> {
    match s.task
    case Created => Some(Action.Start(id))
    case Announcing => Some(WriteAnnouncement(id))
    case Sending(_, _) => Some(WriteChunk(id))
    case Requesting => Some(WriteRequest(id))
    case _ => None
  }

  /** An end that is not quiescent can always take a step by itself. */
  lemma EndCanMove(s: System) returns (action: Action)
    requires SystemInv(s) && !Quiescent(s.a, s.ba)
    ensures Runnable(s, action) && Draining(action)
    ensures MayAct(s, action) <==> !EvictsBusy(s, action)
  {
    var r := s.a.receiver;
    if r.Responding? {
      action := WriteResponse;
    } else if r.Confirming? {
      action := WriteConfirm;
    } else if r.Stopping? {
      action := CancelTask;
    } else if r.Awaiting? {
      action := if s.a.streams[r.id].task == Done then FinishStop else WriteRequest(r.id);
    } else if s.ba != [] {
      action := Deliver(s.ba[0]);
    } else {
      var id :| id in s.a.streams && TaskAction(s.a.streams[id], id).Some?;
      action := TaskAction(s.a.streams[id], id).value;
    }
  }

  predicate AllQuiescent(s: System) {
    Quiescent(s.a, s.ba) && Quiescent(s.b, s.ab)
  }

  function Side(s: System, m: Move): System {
    if m.integration then s else Mirror(s)
  }

  lemma CanMove(s: System) returns (m: Move)
    requires SystemInv(s) && !AllQuiescent(s)
    ensures Runnable(Side(s, m), m.action) && Draining(m.action)
    ensures May(s, m) <==> !EvictsBusy(Side(s, m), m.action)
  {
    if !Quiescent(s.a, s.ba) {
      var action := EndCanMove(s);
      m := Move(true, action);
    } else {
      MirrorInv(s);
      var action := EndCanMove(Mirror(s));
      m := Move(false, action);
    }
  }

  /**
    No reachable state is stuck: unless both ends are quiescent, the code of one of them can take a draining
    step. The step stays within the runs considered unless it pushes an id still in use out of a full table.
  */
  lemma NoDeadlock(moves: seq<Move>) returns (m: Move)
    requires LegalRun(TwoParty.Start(), moves) && !AllQuiescent(After(TwoParty.Start(), moves))
    ensures var s := After(TwoParty.Start(), moves);
      && Runnable(Side(s, m), m.action) && Draining(m.action)
      && (May(s, m) <==> !EvictsBusy(Side(s, m), m.action))
  {
    StartInv();
    RunKeeps(TwoParty.Start(), moves);
    m := CanMove(After(TwoParty.Start(), moves));
  }

  // ---------------------------------------------------------------- draining ends

  /** Work of all the ids listed, and the keepalives in flight. */
  function TotalWork(s: System, ids: seq<int>): nat {
    if ids == [] then Keepalives(s.ab) + Keepalives(s.ba)
    else Work(ViewOf(s, ids[0])) + TotalWork(s, ids[1..])
  }

  function Keepalives(ch: seq<Packet>): nat {
    if ch == [] then 0 else (if ch[0].Keepalive? then 1 else 0) + Keepalives(ch[1..])
  }

  lemma {:induction false} KeepalivesAppend(ch: seq<Packet>, out: seq<Packet>)
    requires forall p :: p in out ==> !p.Keepalive?
    ensures Keepalives(ch + out) == Keepalives(ch)
    decreases |ch|
  {
    if ch == [] {
      assert ch + out == out;
      NoKeepalives(out);
    } else {
      assert (ch + out)[1..] == ch[1..] + out;
      KeepalivesAppend(ch[1..], out);
    }
  }

  lemma {:induction false} NoKeepalives(out: seq<Packet>)
    requires forall p :: p in out ==> !p.Keepalive?
    ensures Keepalives(out) == 0
  {
    if out != [] {
      NoKeepalives(out[1..]);
    }
  }

  /** The ids that can take a step, or be the subject of one. */
  ghost predicate Lists(s: System, ids: seq<int>) {
    forall id :: id !in ids ==> Work(ViewOf(s, id)) == 0
  }

  /** No id has more left to do in the second state. */
  ghost predicate NoMoreWork(s: System, t: System) {
    forall id :: Work(ViewOf(t, id)) <= Work(ViewOf(s, id))
  }

  lemma ListsLess(s: System, t: System, ids: seq<int>)
    requires NoMoreWork(s, t) && Lists(s, ids)
    ensures Lists(t, ids)
  {
    forall id | id !in ids ensures Work(ViewOf(t, id)) == 0 {
      assert Work(ViewOf(s, id)) == 0;
    }
  }

  /** The total drops with the work of one listed id, or with the keepalives. */
  lemma {:induction false} TotalDrops(s: System, t: System, ids: seq<int>, target: Option<int>)
    requires NoMoreWork(s, t) && Keepalives(t.ab) + Keepalives(t.ba) <= Keepalives(s.ab) + Keepalives(s.ba)
    ensures TotalWork(t, ids) <= TotalWork(s, ids)
    ensures target.None? && Keepalives(t.ab) + Keepalives(t.ba) < Keepalives(s.ab) + Keepalives(s.ba) ==>
      TotalWork(t, ids) < TotalWork(s, ids)
    ensures target.Some? && target.value in ids && Work(ViewOf(t, target.value)) < Work(ViewOf(s, target.value)) ==>
      TotalWork(t, ids) < TotalWork(s, ids)
  {
    if ids != [] {
      assert Work(ViewOf(t, ids[0])) <= Work(ViewOf(s, ids[0]));
      TotalDrops(s, t, ids[1..], target);
    }
  }

  /** A draining step writes no keepalive, and delivers one when it is for no id. */
  lemma ActKeepalives(s: System, action: Action)
    requires MayAct(s, action) && Draining(action)
    ensures var t := Act(s, action);
      && Keepalives(t.ab) == Keepalives(s.ab) && Keepalives(t.ba) <= Keepalives(s.ba)
      && (Target(s.a, action) == None ==> Keepalives(t.ba) < Keepalives(s.ba))
  {
    KeepalivesAppend(s.ab, Step(s.a, action).1);
  }

  lemma ActDrains(s: System, action: Action, ids: seq<int>)
    requires SystemInv(s) && MayAct(s, action) && Draining(action) && Lists(s, ids)
    ensures TotalWork(Act(s, action), ids) < TotalWork(s, ids) && Lists(Act(s, action), ids)
  {
    var t, target := Act(s, action), Target(s.a, action);
    ActAddsNoWork(s, action);
    ListsLess(s, t, ids);
    ActKeepalives(s, action);
    if target.Some? {
      ActWorks(s, action, target.value);
      assert target.value in ids;
    }
    TotalDrops(s, t, ids, target);
  }

  lemma ActAddsNoWork(s: System, action: Action)
    requires SystemInv(s) && MayAct(s, action) && Draining(action)
    ensures NoMoreWork(s, Act(s, action))
  {
    forall id ensures Work(ViewOf(Act(s, action), id)) <= Work(ViewOf(s, id)) {
      ActWorks(s, action, id);
    }
  }

  lemma {:induction false} TotalMirror(s: System, ids: seq<int>)
    ensures TotalWork(Mirror(s), ids) == TotalWork(s, ids)
    ensures Lists(Mirror(s), ids) <==> Lists(s, ids)
  {
    forall id ensures Work(ViewOf(Mirror(s), id)) == Work(ViewOf(s, id)) {
      assert ViewOf(Mirror(s), id) == Swap(ViewOf(s, id));
    }
    if ids != [] {
      TotalMirror(s, ids[1..]);
    }
  }

  predicate AllDraining(moves: seq<Move>) {
    forall m :: m in moves ==> Draining(m.action)
  }

  lemma {:induction false} DrainingIsBounded(s: System, moves: seq<Move>, ids: seq<int>)
    requires SystemInv(s) && LegalRun(s, moves) && AllDraining(moves) && Lists(s, ids)
    ensures |moves| <= TotalWork(s, ids)
    decreases |moves|
  {
    if moves != [] {
      var action := moves[0].action;
      if moves[0].integration {
        ActKeeps(s, action);
        ActDrains(s, action, ids);
      } else {
        MirrorInv(s);
        ActKeeps(Mirror(s), action);
        TotalMirror(s, ids);
        ActDrains(Mirror(s), action, ids);
        MirrorInv(Act(Mirror(s), action));
        TotalMirror(Act(Mirror(s), action), ids);
      }
      DrainingIsBounded(Apply(s, moves[0]), moves[1..], ids);
    }
  }

  lemma {:induction false} Listing(ids: set<int>) returns (list: seq<int>)
    ensures forall id :: id in list <==> id in ids
  {
    if id :| id in ids {
      var rest := Listing(ids - {id});
      list := [id] + rest;
    } else {
      list := [];
    }
  }

  function IdsIn(ch: seq<Packet>): set<int> {
    set i | 0 <= i < |ch| && PacketId(ch[i]).Some? :: PacketId(ch[i]).value
  }

  lemma {:induction false} NotIn(ch: seq<Packet>, id: int)
    requires id !in IdsIn(ch)
    ensures Of(ch, id) == []
  {
    if ch != [] {
      assert PacketId(ch[0]) != Some(id);
      forall i | 0 <= i < |ch[1..]| ensures PacketId(ch[1..][i]) != Some(id) {
        assert ch[1..][i] == ch[i + 1];
      }
      NotIn(ch[1..], id);
    }
  }

  ghost predicate Bounded(s: System, bound: nat) {
    forall more :: LegalRun(s, more) && AllDraining(more) ==> |more| <= bound
  }

  lemma UnlistedIsIdle(s: System, id: int)
    requires SystemInv(s) && id !in s.a.streams && id !in s.b.streams && id !in IdsIn(s.ab) && id !in IdsIn(s.ba)
    ensures Work(ViewOf(s, id)) == 0
  {
    NotIn(s.ab, id);
    NotIn(s.ba, id);
  }

  /** From every reachable state there is a bound on the length of all draining runs. */
  lemma DrainingEnds(moves: seq<Move>)
    requires LegalRun(TwoParty.Start(), moves)
    ensures exists bound :: Bounded(After(TwoParty.Start(), moves), bound)
  {
    var s := After(TwoParty.Start(), moves);
    StartInv();
    RunKeeps(TwoParty.Start(), moves);
    var all := s.a.streams.Keys + s.b.streams.Keys + IdsIn(s.ab) + IdsIn(s.ba);
    var ids := Listing(all);
    forall id | id !in ids ensures Work(ViewOf(s, id)) == 0 {
      assert id !in all;
      UnlistedIsIdle(s, id);
    }
    forall more | LegalRun(s, more) && AllDraining(more)
      ensures |more| <= TotalWork(s, ids)
    {
      DrainingIsBounded(s, more, ids);
    }
    assert Bounded(s, TotalWork(s, ids));
  }

  // ---------------------------------------------------------------- closing completes

  /** The stream's local socket has ended, its task was cancelled, or the other end has asked to disconnect. */
  predicate Ended(s: Stream) {
    s.remoteDisconnect || s.task == Requesting || s.task == Done
  }

  /** An ended stream, or none any more, and no way for the id to be opened again at this end. */
  predicate EndedAt(v: View) {
    && (v.x.stream.Some? ==> Ended(v.x.stream.value))
    && !AnnounceAtHead(v.yx) && !Unannounced(v.y)
  }

  predicate EndedSomewhere(v: View) {
    EndedAt(v) || EndedAt(Swap(v))
  }

  /** A stream that has ended was announced: nothing can open its id again but a new allocation. */
  lemma EndedIsFinal(v: View)
    requires PairInv(v) && v.x.stream.Some? && Ended(v.x.stream.value)
    ensures EndedAt(v)
  {
  }

  /** The steps of the ended end itself. */
  lemma OwnStepKeepsEnd(s: System, action: Action, id: int)
    requires SystemInv(s) && MayAct(s, action) && EndedAt(ViewOf(s, id))
    requires Target(s.a, action) == Some(id) && !action.Accept?
    ensures EndedAt(ViewOf(Act(s, action), id))
  {
    if action.Deliver? {
      DeliveryIsGood(s);
      Sends(s, action, id);
      assert PairInv(ViewOf(s, id));
      assert ViewOf(Act(s, action), id) == AfterReceive(ViewOf(s, id));
      ReceivedKeepsEnd(ViewOf(s, id));
    } else {
      LocalKeepsEnd(s.a, action, id);
    }
  }

  lemma ReceivedKeepsEnd(v: View)
    requires PairInv(v) && v.yx != [] && v.x.receiver == Idle && EndedAt(v)
    ensures EndedAt(AfterReceive(v))
  {
    HeadIsGood(v);
  }

  lemma LocalKeepsEnd(e: Endpoint, action: Action, id: int)
    requires WellFormed(e) && Enabled(e, action) && Target(e, action) == Some(id)
    requires !action.Accept? && !action.Deliver?
    requires id in e.streams ==> Ended(e.streams[id])
    ensures var after := Step(e, action).0; id in after.streams ==> Ended(after.streams[id])
  {
  }

  /** The steps of the other end: it announces nothing, having announced or being unable to. */
  lemma PeerStepKeepsEnd(s: System, action: Action, id: int)
    requires SystemInv(s) && MayAct(s, action) && EndedAt(Swap(ViewOf(s, id)))
    requires Target(s.a, action) == Some(id) && !action.Accept?
    ensures EndedAt(Swap(ViewOf(Act(s, action), id)))
  {
    if action.Deliver? {
      assert PairInv(ViewOf(s, id));
      DeliveryIsGood(s);
      Sends(s, action, id);
      assert ViewOf(Act(s, action), id) == AfterReceive(ViewOf(s, id));
      PeerReceives(ViewOf(s, id));
    } else {
      PeerStaysAnnounced(s.a, action, id);
      PeerAppends(s, action, id);
    }
  }

  lemma PeerReceives(v: View)
    requires PairInv(v) && v.yx != [] && v.x.receiver == Idle && EndedAt(Swap(v))
    ensures EndedAt(Swap(AfterReceive(v)))
  {
  }

  lemma PeerAppends(s: System, action: Action, id: int)
    requires MayAct(s, action) && !action.Deliver? && !AnnounceAtHead(Of(s.ab, id))
    requires var out := Step(s.a, action).1; out != [] ==> !out[0].Announce?
    ensures !AnnounceAtHead(Of(Act(s, action).ab, id)) && Of(Act(s, action).ba, id) == Of(s.ba, id)
  {
    Sends(s, action, id);
  }

  lemma PeerStaysAnnounced(e: Endpoint, action: Action, id: int)
    requires WellFormed(e) && Enabled(e, action) && Target(e, action) == Some(id)
    requires !action.Accept? && !action.Deliver? && !Unannounced(LocalOf(e, id))
    ensures !Unannounced(LocalOf(Step(e, action).0, id))
    ensures var out := Step(e, action).1; out != [] ==> !out[0].Announce?
  {
  }

  lemma ActKeepsEnd(s: System, action: Action, id: int)
    requires SystemInv(s) && MayAct(s, action) && EndedSomewhere(ViewOf(s, id))
    requires !(action.Accept? && action.id == id)
    ensures EndedSomewhere(ViewOf(Act(s, action), id))
  {
    if Target(s.a, action) != Some(id) {
      OtherIds(s, action, id);
    } else if EndedAt(ViewOf(s, id)) {
      OwnStepKeepsEnd(s, action, id);
    } else {
      PeerStepKeepsEnd(s, action, id);
    }
  }

  predicate NeverAccepted(moves: seq<Move>, id: int) {
    forall m :: m in moves ==> !(m.action.Accept? && m.action.id == id)
  }

  lemma {:induction false} RunKeepsEnd(s: System, moves: seq<Move>, id: int)
    requires SystemInv(s) && LegalRun(s, moves) && NeverAccepted(moves, id) && EndedSomewhere(ViewOf(s, id))
    ensures SystemInv(After(s, moves)) && EndedSomewhere(ViewOf(After(s, moves), id))
    decreases |moves|
  {
    if moves != [] {
      var next, action := Apply(s, moves[0]), moves[0].action;
      if moves[0].integration {
        ActKeeps(s, action);
        ActKeepsEnd(s, action, id);
      } else {
        MirrorInv(s);
        assert ViewOf(Mirror(s), id) == Swap(ViewOf(s, id));
        ActKeeps(Mirror(s), action);
        ActKeepsEnd(Mirror(s), action, id);
        MirrorInv(Act(Mirror(s), action));
        assert ViewOf(next, id) == Swap(ViewOf(Act(Mirror(s), action), id));
      }
      RunKeepsEnd(next, moves[1..], id);
    }
  }

  predicate HasEnded(e: Endpoint, id: int) {
    id in e.streams && Ended(e.streams[id])
  }

  /** Nothing further may happen except new input, keepalives and closing the tunnel, and no busy id is in the way. */
  ghost predicate RunsDry(s: System) {
    && (forall m :: May(s, m) ==> !Draining(m.action))
    && (forall m :: !EvictsBusy(Side(s, m), m.action))
  }

  /**
    Closing completes: from any reachable state in which the id has ended at one end, however the run goes on
    without reallocating the id, once nothing is left to drain the id is in neither table.
  */
  lemma CloseCompletes(moves: seq<Move>, more: seq<Move>, id: int)
    requires LegalRun(TwoParty.Start(), moves) && LegalRun(After(TwoParty.Start(), moves), more)
    requires var s := After(TwoParty.Start(), moves); HasEnded(s.a, id) || HasEnded(s.b, id)
    requires NeverAccepted(more, id) && RunsDry(After(After(TwoParty.Start(), moves), more))
    ensures var t := After(After(TwoParty.Start(), moves), more); id !in t.a.streams && id !in t.b.streams
  {
    var s := After(TwoParty.Start(), moves);
    StartInv();
    RunKeeps(TwoParty.Start(), moves);
    assert PairInv(ViewOf(s, id));
    if HasEnded(s.a, id) {
      EndedIsFinal(ViewOf(s, id));
    } else {
      EndedIsFinal(Swap(ViewOf(s, id)));
    }
    RunKeepsEnd(s, more, id);
    DryIsClosed(After(s, more), id);
  }

  lemma DryIsClosed(t: System, id: int)
    requires SystemInv(t) && RunsDry(t) && EndedSomewhere(ViewOf(t, id))
    ensures id !in t.a.streams && id !in t.b.streams
  {
    if !AllQuiescent(t) {
      var m := CanMove(t);
      assert false;
    }
    assert PairInv(ViewOf(t, id));
    QuietIsSettled(ViewOf(t, id));
  }
}
