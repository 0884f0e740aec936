/** The gate as a step system over values: who is filed under each address, which requests
    were forwarded, and what was sent back. Every run of it is a sequence of events. */
module GateSpec {
  import opened Basics
  import opened Codec
  import Rpc = RpcCore
  import opened Sessions

  /** A connection's receive loop, with the session it looked up when it started. */
  datatype Loop = Loop(conn: Connection, who: Option<Entry>)

  /** A forwarded request: the connection it arrived on, and what its callback captures. */
  datatype Ask = Ask(arrived: Connection, who: Entry, seqId: uint16, rspCmd: uint32)

  /** A response packet put on a connection by one completed call. */
  datatype Reply = Reply(job: Rpc.Job, conn: Connection, bytes: seq<byte>)

  datatype Desk = Desk(
    made: nat,                       // sessions made for connections so far
    at: map<string, Entry>,
    loops: seq<Loop>,
    asks: map<nat, Ask>,             // by RPC sequence number
    rpc: Rpc.State,
    sent: seq<Reply>)

  const NEW_DESK: Desk := Desk(0, map[], [], map[], Rpc.INIT, [])

  datatype Event =
    | Connect(c: Connection?)
    | Disconnect(c: Connection?)
    | Bind(connID: string, uid: int, bound: map<nat, nat>)
    | StartRecv(conn: Connection)
    | Forward(loop: nat, msg: Message, rspCmd: uint32, deadline: Option<Rpc.Time>)
    | Engine(e: Rpc.Event)
    | RunPosted

  function ResponseMessage(a: Ask, job: Rpc.Job): Message {
    Message(RESPONSE, a.seqId, a.rspCmd, job.code, job.payload)
  }

  ghost function Lookup(d: Desk, addr: string): Option<Entry> {
    if addr in d.at then Some(d.at[addr]) else None
  }

  ghost predicate Forwards(d: Desk, loop: nat, msg: Message) {
    loop < |d.loops| && d.loops[loop].who.Some? && msg.kind == REQUEST
  }

  /** The asking session has a connection and is still the one filed under its address. */
  ghost predicate StillThere(d: Desk, a: Ask) {
    a.who.Filed? && Lookup(d, a.arrived.addr) == Some(a.who)
  }

  /** What a completed call sends: a response if it answers a request whose session is still
      there, and the response can be encoded. */
  ghost function Replies(d: Desk, job: Rpc.Job): seq<Reply> {
    if job.seqId in d.asks && StillThere(d, d.asks[job.seqId]) && DataPacket(ResponseMessage(d.asks[job.seqId], job)).Ok?
    then [Reply(job, d.asks[job.seqId].who.conn, DataPacket(ResponseMessage(d.asks[job.seqId], job)).value)]
    else []
  }

  ghost function Apply(d: Desk, e: Event): Desk {
    match e
    case Connect(c) => if c == null then d else d.(made := d.made + 1, at := d.at[c.addr := Filed(d.made + 1, c)])
    case Disconnect(c) => if c == null then d else d.(at := d.at - {c.addr})
    case Bind(connID, _, _) => if connID in d.at then d else d.(at := d.at[connID := Bare])
    case StartRecv(c) => d.(loops := d.loops + [Loop(c, Lookup(d, c.addr))])
    case Forward(loop, msg, rspCmd, deadline) =>
      if !Forwards(d, loop, msg) then d else
        var l := d.loops[loop];
        d.(rpc := Rpc.OnRegister(d.rpc, deadline),
           asks := d.asks[d.rpc.seqNo + 1 := Ask(l.conn, l.who.value, msg.seqId, rspCmd)])
    case Engine(e) => if e.RunNext? then d else d.(rpc := Rpc.Next(d.rpc, true, e))
    case RunPosted =>
      if d.rpc.queue == [] then d
      else d.(rpc := Rpc.OnRunNext(d.rpc), sent := d.sent + Replies(d, d.rpc.queue[0]))
  }

  /** The desk after the first `k` events of a run. */
  ghost function After(events: seq<Event>, k: nat): Desk
    requires k <= |events|
  {
    if k == 0 then NEW_DESK else Apply(After(events, k - 1), events[k - 1])
  }

  // ----- At most one response, to the session that asked -----

  /** The bytes of a response carry the request's sequence number and response command, and
      the completion's code and payload; it can be encoded exactly if it is not too long. */
  lemma ResponseCarriesSeqId(a: Ask, job: Rpc.Job)
    ensures DataPacket(ResponseMessage(a, job)).Ok? <==> 11 + |job.payload| <= 16777215
    ensures DataPacket(ResponseMessage(a, job)).Ok? ==>
              ReadsAs(DataPacket(ResponseMessage(a, job)).value, a.seqId, a.rspCmd, job.code, job.payload)
  {
    var m := ResponseMessage(a, job);
    MessageOnTheWire(m);
    DataPacketOnTheWire(m);
    if DataPacket(m).Ok? {
      PacketRoundTrip(Packet(PACKET_DATA, EncodeMessage(m).value));
      DecodeAfterEncode(m);
    }
  }

  ghost function SentCount(sent: seq<Reply>, id: nat): nat {
    if sent == [] then 0 else SentCount(sent[..|sent| - 1], id) + if sent[|sent| - 1].job.seqId == id then 1 else 0
  }

  lemma SentOne(sent: seq<Reply>, r: Reply, id: nat)
    ensures SentCount(sent + [r], id) == SentCount(sent, id) + if r.job.seqId == id then 1 else 0
  {
    assert (sent + [r])[..|sent|] == sent;
  }

  /** The packet answers the request of its call - same sequence number - on the connection
      of the session that made it. */
  ghost predicate Answers(asks: map<nat, Ask>, r: Reply) {
    && r.job.seqId in asks
    && asks[r.job.seqId].who.Filed? && asks[r.job.seqId].who.conn == r.conn
    && ReadsAs(r.bytes, asks[r.job.seqId].seqId, asks[r.job.seqId].rspCmd, r.job.code, r.job.payload)
  }

  /** The bytes are a data packet, type 4, around a response, type 2, with these fields. */
  ghost predicate ReadsAs(bytes: seq<byte>, seqId: uint16, cmdId: uint32, code: int32, payload: seq<byte>) {
    && DecodePacket(bytes).Ok? && DecodePacket(bytes).value.kind == 4
    && var m := DecodeMessage(DecodePacket(bytes).value.body);
       m.Ok? && m.value.kind == 2 && m.value.seqId == seqId && m.value.cmdId == cmdId &&
       m.value.errCode == code && m.value.body == payload
  }

  /** No more responses than completions. */
  ghost predicate Bounded(d: Desk, id: nat) {
    SentCount(d.sent, id) <= Rpc.RunCount(d.rpc.trace, id)
  }

  ghost predicate Inv(d: Desk) {
    && Rpc.Inv(d.rpc)
    && (forall id :: id in d.asks ==> id <= d.rpc.seqNo)
    && (forall i {:trigger d.sent[i]} :: 0 <= i < |d.sent| ==> Answers(d.asks, d.sent[i]))
    && (forall id {:trigger Bounded(d, id)} :: Bounded(d, id))
  }

  /** A step of the engine other than a callback completes nothing. */
  lemma EngineRunsNothing(s: Rpc.State, e: Rpc.Event, id: nat)
    requires !e.RunNext?
    ensures var s' := Rpc.Next(s, true, e);
            Rpc.RunCount(s'.trace, id) == Rpc.RunCount(s.trace, id) && s'.seqNo >= s.seqNo
  {
    if e.Response? && e.hasRelease && e.id !in s.pending {
      Rpc.TraceAppend(s.trace, Rpc.Discarded(s.releases + 1), id);
    }
    if e.Release? && e.i < |s.owed| && s.owed[e.i].release.Some? {
      Rpc.TraceAppend(s.trace, Rpc.Released(s.owed[e.i].release.value), id);
    }
  }

  lemma ForwardKeepsInv(d: Desk, e: Event)
    requires Inv(d) && e.Forward?
    ensures Inv(Apply(d, e))
  {
    if Forwards(d, e.loop, e.msg) {
      var d' := Apply(d, e);
      Rpc.NextKeepsInv(d.rpc, true, Rpc.Register(e.deadline));
      forall i | 0 <= i < |d'.sent| ensures Answers(d'.asks, d'.sent[i]) {
        assert Answers(d.asks, d.sent[i]);
      }
      forall id ensures Bounded(d', id) {
        assert Bounded(d, id);
      }
    }
  }

  lemma EngineKeepsInv(d: Desk, e: Rpc.Event)
    requires Inv(d) && !e.RunNext?
    ensures Inv(d.(rpc := Rpc.Next(d.rpc, true, e)))
  {
    var d' := d.(rpc := Rpc.Next(d.rpc, true, e));
    Rpc.NextKeepsInv(d.rpc, true, e);
    EngineRunsNothing(d.rpc, e, 0);
    forall id ensures Bounded(d', id) {
      assert Bounded(d, id);
      EngineRunsNothing(d.rpc, e, id);
    }
  }

  lemma RunPostedKeepsInv(d: Desk)
    requires Inv(d) && d.rpc.queue != []
    ensures Inv(Apply(d, RunPosted))
  {
    var d', job := Apply(d, RunPosted), d.rpc.queue[0];
    if job.seqId in d.asks {
      ResponseCarriesSeqId(d.asks[job.seqId], job);
    }
    Rpc.NextKeepsInv(d.rpc, true, Rpc.RunNext);
    forall i | 0 <= i < |d'.sent| ensures Answers(d'.asks, d'.sent[i]) {
      if i < |d.sent| {
        assert Answers(d.asks, d.sent[i]);
      }
    }
    forall id ensures Bounded(d', id) {
      assert Bounded(d, id);
      Rpc.TraceAppend(d.rpc.trace, Rpc.Completed(job), id);
      if Replies(d, job) != [] {
        SentOne(d.sent, Replies(d, job)[0], id);
      } else {
        assert d.sent + [] == d.sent;
      }
    }
  }

  lemma ApplyKeepsInv(d: Desk, e: Event)
    requires Inv(d)
    ensures Inv(Apply(d, e))
  {
    match e
    case Forward(_, _, _, _) => ForwardKeepsInv(d, e);
    case Engine(step) =>
      if !step.RunNext? {
        EngineKeepsInv(d, step);
      }
    case RunPosted =>
      if d.rpc.queue != [] {
        RunPostedKeepsInv(d);
      }
    case _ => SessionStepKeepsInv(d, Apply(d, e));
  }

  lemma SessionStepKeepsInv(d: Desk, d': Desk)
    requires Inv(d) && d'.rpc == d.rpc && d'.asks == d.asks && d'.sent == d.sent
    ensures Inv(d')
  {
    forall id ensures Bounded(d', id) {
      assert Bounded(d, id);
    }
  }

  lemma {:induction false} AfterInv(events: seq<Event>, k: nat)
    requires k <= |events|
    ensures Inv(After(events, k))
  {
    if k == 0 {
      Rpc.RunKeepsInv(true, []);
    } else {
      AfterInv(events, k - 1);
      ApplyKeepsInv(After(events, k - 1), events[k - 1]);
    }
  }

  /** In every interleaving each forwarded request has at most one response packet, and every
      packet answers its request on the connection of the session that made it. */
  lemma OneResponsePerRequest(events: seq<Event>, k: nat)
    requires k <= |events|
    ensures var d := After(events, k);
            && (forall id {:trigger SentCount(d.sent, id)} :: SentCount(d.sent, id) <= 1)
            && (forall i {:trigger d.sent[i]} :: 0 <= i < |d.sent| ==> Answers(d.asks, d.sent[i]))
  {
    AfterInv(events, k);
    var d := After(events, k);
    forall id ensures SentCount(d.sent, id) <= 1 {
      assert Bounded(d, id) && Rpc.Counted(d.rpc, id);
    }
  }

  // ----- When a request is answered -----

  /** Event `i` files a session for a connection: the session numbered next. */
  ghost predicate Files(events: seq<Event>, i: nat, who: Entry)
    requires i < |events|
  {
    who.Filed? && events[i] == Event.Connect(who.conn) && who.number == After(events, i).made + 1
  }

  /** The session was filed by one of the first `k` events. */
  ghost predicate FiledBefore(events: seq<Event>, k: nat, who: Entry)
    requires k <= |events|
  {
    exists i :: 0 <= i < k && Files(events, i, who)
  }

  ghost predicate Disturbs(e: Event, addr: string) {
    (e.Connect? || e.Disconnect?) && e.c != null && e.c.addr == addr
  }

  /** No connect or disconnect on the address from event `i` up to event `k`. */
  ghost predicate Undisturbed(events: seq<Event>, addr: string, i: nat, k: nat)
    requires k <= |events|
  {
    forall j :: i <= j < k ==> !Disturbs(events[j], addr)
  }

  /** Entries come from connects, and are filed under their connections' addresses. */
  ghost predicate EntryFrom(events: seq<Event>, k: nat, addr: string, who: Entry)
    requires k <= |events|
  {
    who.Filed? ==> who.conn.addr == addr && FiledBefore(events, k, who)
  }

  /** The session was looked up by a receive loop of the connection, at event `j`. */
  ghost predicate LooksUp(events: seq<Event>, j: nat, c: Connection, who: Entry)
    requires j < |events|
  {
    events[j] == StartRecv(c) && Lookup(After(events, j), c.addr) == Some(who)
  }

  ghost predicate LookedUpBefore(events: seq<Event>, k: nat, c: Connection, who: Entry)
    requires k <= |events|
  {
    exists j :: 0 <= j < k && LooksUp(events, j, c, who)
  }

  ghost predicate LoopFrom(events: seq<Event>, k: nat, c: Connection, who: Entry)
    requires k <= |events|
  {
    EntryFrom(events, k, c.addr, who) && LookedUpBefore(events, k, c, who)
  }

  ghost predicate EntriesSourced(events: seq<Event>, k: nat)
    requires k <= |events|
  {
    var d := After(events, k);
    forall a {:trigger d.at[a]} :: a in d.at ==> EntryFrom(events, k, a, d.at[a])
  }

  ghost predicate LoopsSourced(events: seq<Event>, k: nat)
    requires k <= |events|
  {
    var d := After(events, k);
    forall l {:trigger d.loops[l]} :: 0 <= l < |d.loops| && d.loops[l].who.Some? ==>
      LoopFrom(events, k, d.loops[l].conn, d.loops[l].who.value)
  }

  ghost predicate AsksSourced(events: seq<Event>, k: nat)
    requires k <= |events|
  {
    var d := After(events, k);
    forall id {:trigger d.asks[id]} :: id in d.asks ==> LoopFrom(events, k, d.asks[id].arrived, d.asks[id].who)
  }

  lemma {:induction false} MadeGrows(events: seq<Event>, i: nat, k: nat)
    requires i <= k <= |events|
    ensures After(events, i).made <= After(events, k).made
    ensures i < k && events[i].Connect? && events[i].c != null ==> After(events, i).made < After(events, k).made
  {
    if i < k {
      MadeGrows(events, i, k - 1);
    }
  }

  lemma EntryStaysFrom(events: seq<Event>, k: nat, addr: string, who: Entry)
    requires k < |events| && EntryFrom(events, k, addr, who)
    ensures EntryFrom(events, k + 1, addr, who)
  {
  }

  lemma LoopStaysFrom(events: seq<Event>, k: nat, c: Connection, who: Entry)
    requires k < |events| && LoopFrom(events, k, c, who)
    ensures LoopFrom(events, k + 1, c, who)
  {
    EntryStaysFrom(events, k, c.addr, who);
  }

  lemma EntriesStep(events: seq<Event>, k: nat)
    requires k < |events| && EntriesSourced(events, k)
    ensures EntriesSourced(events, k + 1)
  {
    var d, e, d' := After(events, k), events[k], After(events, k + 1);
    forall a | a in d'.at ensures EntryFrom(events, k + 1, a, d'.at[a]) {
      if a in d.at && d'.at[a] == d.at[a] {
        EntryStaysFrom(events, k, a, d.at[a]);
      } else if e.Connect? {
        assert Files(events, k, d'.at[a]);
      }
    }
  }

  lemma LoopsStep(events: seq<Event>, k: nat)
    requires k < |events| && EntriesSourced(events, k) && LoopsSourced(events, k)
    ensures LoopsSourced(events, k + 1)
  {
    var d, e, d' := After(events, k), events[k], After(events, k + 1);
    forall l | 0 <= l < |d'.loops| && d'.loops[l].who.Some?
      ensures LoopFrom(events, k + 1, d'.loops[l].conn, d'.loops[l].who.value)
    {
      if l < |d.loops| {
        assert d'.loops[l] == d.loops[l];
        LoopStaysFrom(events, k, d.loops[l].conn, d.loops[l].who.value);
      } else {
        EntryStaysFrom(events, k, e.conn.addr, d.at[e.conn.addr]);
        assert LooksUp(events, k, e.conn, d.at[e.conn.addr]);
      }
    }
  }

  lemma AsksStep(events: seq<Event>, k: nat)
    requires k < |events| && LoopsSourced(events, k) && AsksSourced(events, k)
    ensures AsksSourced(events, k + 1)
  {
    var d, e, d' := After(events, k), events[k], After(events, k + 1);
    forall id | id in d'.asks ensures LoopFrom(events, k + 1, d'.asks[id].arrived, d'.asks[id].who) {
      if id in d.asks && d'.asks[id] == d.asks[id] {
        LoopStaysFrom(events, k, d.asks[id].arrived, d.asks[id].who);
      } else {
        LoopStaysFrom(events, k, d.loops[e.loop].conn, d.loops[e.loop].who.value);
      }
    }
  }

  ghost predicate Sourced(events: seq<Event>, k: nat)
    requires k <= |events|
  {
    EntriesSourced(events, k) && LoopsSourced(events, k) && AsksSourced(events, k)
  }

  lemma SourcedAtFirst(events: seq<Event>)
    ensures Sourced(events, 0)
  {
  }

  lemma SourcedNext(events: seq<Event>, k: nat)
    requires k < |events| && Sourced(events, k)
    ensures Sourced(events, k + 1)
  {
    EntriesStep(events, k);
    LoopsStep(events, k);
    AsksStep(events, k);
  }

  /** Sessions come from connects, receive loops from lookups, requests from receive loops. */
  lemma {:induction false} EverythingIsSourced(events: seq<Event>, k: nat)
    requires k <= |events|
    ensures Sourced(events, k)
  {
    if k == 0 {
      SourcedAtFirst(events);
    } else {
      EverythingIsSourced(events, k - 1);
      SourcedNext(events, k - 1);
    }
  }

  ghost predicate IsFiled(events: seq<Event>, k: nat, who: Entry)
    requires k <= |events| && who.Filed?
  {
    Lookup(After(events, k), who.conn.addr) == Some(who)
  }

  /** A session is filed under its address exactly until the next connect or disconnect on
      that address, whichever connection that comes from. */
  lemma {:induction false} FiledUntilDisturbed(events: seq<Event>, i: nat, k: nat, who: Entry)
    requires i < k <= |events| && Files(events, i, who)
    ensures IsFiled(events, k, who) <==> Undisturbed(events, who.conn.addr, i + 1, k)
  {
    if k == i + 1 {
      assert After(events, k) == Apply(After(events, i), events[i]);
    } else {
      FiledUntilDisturbed(events, i, k - 1, who);
      FiledNext(events, i, k - 1, who);
      UndisturbedNext(events, who.conn.addr, i + 1, k - 1);
    }
  }

  lemma UndisturbedNext(events: seq<Event>, addr: string, i: nat, k: nat)
    requires i <= k < |events|
    ensures Undisturbed(events, addr, i, k + 1) <==> Undisturbed(events, addr, i, k) && !Disturbs(events[k], addr)
  {
  }

  lemma FiledNext(events: seq<Event>, i: nat, k: nat, who: Entry)
    requires i < k < |events| && Files(events, i, who)
    ensures IsFiled(events, k + 1, who) <==> IsFiled(events, k, who) && !Disturbs(events[k], who.conn.addr)
  {
    MadeGrows(events, i, k);
    StaysUnlessDisturbed(After(events, k), events[k], who);
  }

  lemma StaysUnlessDisturbed(d: Desk, e: Event, who: Entry)
    requires who.Filed? && who.number <= d.made
    ensures var addr := who.conn.addr;
            Lookup(Apply(d, e), addr) == Some(who) <==> Lookup(d, addr) == Some(who) && !Disturbs(e, addr)
  {
  }

  /** The posted completion of a request is answered exactly when its session has a
      connection, the session's address has seen no connect or disconnect since event `i`,
      which filed the session, and the response can be encoded. A request of a session
      without a connection, and a call that is no request, are never answered. */
  lemma AnsweredIffUndisturbed(events: seq<Event>, k: nat) returns (i: nat)
    requires k < |events| && events[k].RunPosted? && After(events, k).rpc.queue != []
    ensures var d, d' := After(events, k), After(events, k + 1);
            var job := d.rpc.queue[0];
            if job.seqId !in d.asks || d.asks[job.seqId].who.Bare? then d'.sent == d.sent
            else
              var a := d.asks[job.seqId];
              && i < k && Files(events, i, a.who) && a.who.conn.addr == a.arrived.addr
              && (if Undisturbed(events, a.arrived.addr, i + 1, k) && 11 + |job.payload| <= 16777215
                  then Answered(d.sent, d'.sent, a, job) else d'.sent == d.sent)
  {
    i := 0;
    var d := After(events, k);
    var job := d.rpc.queue[0];
    if job.seqId in d.asks && d.asks[job.seqId].who.Filed? {
      EverythingIsSourced(events, k);
      var a := d.asks[job.seqId];
      assert LoopFrom(events, k, a.arrived, a.who);
      i :| 0 <= i < k && Files(events, i, a.who);
      FiledUntilDisturbed(events, i, k, a.who);
      ResponseCarriesSeqId(a, job);
    }
  }

  /** One more response was sent: on the asking session's connection, with the request's
      sequence number and response command, and the completion's code and payload. */
  ghost predicate Answered(sent: seq<Reply>, sent': seq<Reply>, a: Ask, job: Rpc.Job)
    requires a.who.Filed?
  {
    exists bytes {:trigger ReadsAs(bytes, a.seqId, a.rspCmd, job.code, job.payload)} ::
      ReadsAs(bytes, a.seqId, a.rspCmd, job.code, job.payload) && sent' == sent + [Reply(job, a.who.conn, bytes)]
  }

  /** A receive loop that looks its session up at event `j` serves the session of its own
      connection exactly when the address has seen no connect or disconnect since that
      connection was filed, by event `i`. Otherwise its requests are answered on another
      connection, or not at all. */
  lemma LoopServesItsConnectionIff(events: seq<Event>, i: nat, j: nat, c: Connection)
    requires i < j < |events| && events[i] == Event.Connect(c) && events[j] == StartRecv(c)
    requires forall m :: 0 <= m < j && events[m] == Event.Connect(c) ==> m == i
    ensures var loops := After(events, j + 1).loops;
            && loops == After(events, j).loops + [Loop(c, Lookup(After(events, j), c.addr))]
            && ((exists who :: loops[|loops| - 1].who == Some(who) && who.Filed? && who.conn == c) <==>
                  Undisturbed(events, c.addr, i + 1, j))
  {
    var own := Filed(After(events, i).made + 1, c);
    assert Files(events, i, own);
    FiledUntilDisturbed(events, i, j, own);
    EverythingIsSourced(events, j);
    var d := After(events, j);
    if c.addr in d.at && d.at[c.addr].Filed? && d.at[c.addr].conn == c {
      assert EntryFrom(events, j, c.addr, d.at[c.addr]);
      var m :| 0 <= m < j && Files(events, m, d.at[c.addr]);
      assert d.at[c.addr] == own;
    }
  }

  /** A response goes to the connection its request arrived on exactly when, at the event `j`
      at which that connection's receive loop started, the session filed under the address
      was that connection's. */
  lemma AnsweredWhereAskedIff(events: seq<Event>, k: nat, i: nat) returns (j: nat)
    requires k <= |events| && i < |After(events, k).sent|
    ensures var d := After(events, k);
            var r := d.sent[i];
            && r.job.seqId in d.asks && j < k
            && (var c := d.asks[r.job.seqId].arrived;
                && events[j] == StartRecv(c) && c.addr in After(events, j).at
                && (r.conn == c <==> After(events, j).at[c.addr].Filed? && After(events, j).at[c.addr].conn == c))
  {
    AfterInv(events, k);
    EverythingIsSourced(events, k);
    var d := After(events, k);
    assert Answers(d.asks, d.sent[i]);
    var a := d.asks[d.sent[i].job.seqId];
    assert LoopFrom(events, k, a.arrived, a.who);
    j :| 0 <= j < k && LooksUp(events, j, a.arrived, a.who);
  }

  /** A live client can go unanswered: a late disconnect of an earlier connection on its
      address comes between its request and the response. */
  lemma LiveClientUnanswered(c1: Connection, c2: Connection, msg: Message, payload: Rpc.Payload)
    requires c1 != c2 && c1.addr == c2.addr && msg.kind == REQUEST && |payload| <= 1000
    ensures var events := [Event.Connect(c1), Event.Connect(c2), StartRecv(c2), Forward(0, msg, 0, None), Event.Disconnect(c1),
                           Engine(Rpc.Response(1, payload, Rpc.OK, false)), Engine(Rpc.Dispatch(0)), RunPosted];
            var d := After(events, 8);
            && d.asks == map[1 := Ask(c2, Filed(2, c2), msg.seqId, 0)]
            && Rpc.RunCount(d.rpc.trace, 1) == 1
            && DataPacket(ResponseMessage(d.asks[1], Rpc.Job(1, payload, Rpc.OK, None))).Ok?
            && d.sent == []
  {
    var events := [Event.Connect(c1), Event.Connect(c2), StartRecv(c2), Forward(0, msg, 0, None), Event.Disconnect(c1),
                   Engine(Rpc.Response(1, payload, Rpc.OK, false)), Engine(Rpc.Dispatch(0)), RunPosted];
    var job := Rpc.Job(1, payload, Rpc.OK, None);
    var asks := map[1 := Ask(c2, Filed(2, c2), msg.seqId, 0)];
    var loops := [Loop(c2, Some(Filed(2, c2)))];
    assert After(events, 1) == Desk(1, map[c1.addr := Filed(1, c1)], [], map[], Rpc.INIT, []);
    assert After(events, 2) == Desk(2, map[c1.addr := Filed(2, c2)], [], map[], Rpc.INIT, []);
    assert After(events, 3) == Desk(2, map[c1.addr := Filed(2, c2)], loops, map[], Rpc.INIT, []);
    assert After(events, 4) == Desk(2, map[c1.addr := Filed(2, c2)], loops, asks, Rpc.OnRegister(Rpc.INIT, None), []);
    assert After(events, 5) == Desk(2, map[], loops, asks, Rpc.OnRegister(Rpc.INIT, None), []);
    assert After(events, 6) == Desk(2, map[], loops, asks, Rpc.State(1, map[], [job], [], [], [], 0), []);
    assert After(events, 7) == Desk(2, map[], loops, asks, Rpc.State(1, map[], [], [job], [], [], 0), []);
    assert After(events, 8) == Desk(2, map[], loops, asks, Rpc.State(1, map[], [], [], [], [Rpc.Completed(job)], 0), []);
    Rpc.TraceAppend([], Rpc.Completed(job), 1);
    assert [] + [Rpc.Completed(job)] == [Rpc.Completed(job)];
  }

  /** A request can be answered on a connection it did not arrive on: two connections share
      an address, and both connect before the first one's receive loop starts. */
  lemma AnsweredElsewhere(c1: Connection, c2: Connection, msg: Message, payload: Rpc.Payload)
    requires c1 != c2 && c1.addr == c2.addr && msg.kind == REQUEST && |payload| <= 1000
    ensures var events := [Event.Connect(c1), Event.Connect(c2), StartRecv(c1), Forward(0, msg, 0, None),
                           Engine(Rpc.Response(1, payload, Rpc.OK, false)), Engine(Rpc.Dispatch(0)), RunPosted];
            var d := After(events, 7);
            && d.asks == map[1 := Ask(c1, Filed(2, c2), msg.seqId, 0)]
            && |d.sent| == 1 && d.sent[0].job.seqId == 1 && d.sent[0].conn == c2
  {
    var events := [Event.Connect(c1), Event.Connect(c2), StartRecv(c1), Forward(0, msg, 0, None),
                   Engine(Rpc.Response(1, payload, Rpc.OK, false)), Engine(Rpc.Dispatch(0)), RunPosted];
    var job := Rpc.Job(1, payload, Rpc.OK, None);
    var at := map[c1.addr := Filed(2, c2)];
    var asks := map[1 := Ask(c1, Filed(2, c2), msg.seqId, 0)];
    var loops := [Loop(c1, Some(Filed(2, c2)))];
    assert After(events, 1) == Desk(1, map[c1.addr := Filed(1, c1)], [], map[], Rpc.INIT, []);
    assert After(events, 2) == Desk(2, at, [], map[], Rpc.INIT, []);
    assert After(events, 3) == Desk(2, at, loops, map[], Rpc.INIT, []);
    assert After(events, 4) == Desk(2, at, loops, asks, Rpc.OnRegister(Rpc.INIT, None), []);
    assert After(events, 5) == Desk(2, at, loops, asks, Rpc.State(1, map[], [job], [], [], [], 0), []);
    assert After(events, 6) == Desk(2, at, loops, asks, Rpc.State(1, map[], [], [job], [], [], 0), []);
    assert DataPacket(ResponseMessage(asks[1], job)).Ok?;
    assert After(events, 7).sent == [] + Replies(After(events, 6), job);
  }

  // ----- What a response carries -----

  /** A request is registered exactly by a message of type 1 from a receive loop that found a
      session: under the next RPC number, with the loop's connection and session, the message's
      sequence number and the route's response command, and pending until its deadline. */
  lemma ForwardMeaning(d: Desk, loop: nat, msg: Message, rspCmd: uint32, deadline: Option<Rpc.Time>)
    ensures var d' := Apply(d, Forward(loop, msg, rspCmd, deadline));
            if loop < |d.loops| && d.loops[loop].who.Some? && msg.kind == 1 then
              && d'.asks == d.asks[d.rpc.seqNo + 1 := Ask(d.loops[loop].conn, d.loops[loop].who.value, msg.seqId, rspCmd)]
              && d'.rpc.pending == d.rpc.pending[d.rpc.seqNo + 1 := Rpc.Inflight(deadline)]
              && d'.sent == d.sent
            else d' == d
  {
  }

  /** Event `j` is the forwarding of the request registered under `id`. */
  ghost predicate ForwardsAt(events: seq<Event>, j: nat, id: nat, a: Ask)
    requires j < |events|
  {
    var d := After(events, j);
    && events[j].Forward? && events[j].msg.kind == 1 && id == d.rpc.seqNo + 1
    && events[j].loop < |d.loops| && d.loops[events[j].loop] == Loop(a.arrived, Some(a.who))
    && events[j].msg.seqId == a.seqId && events[j].rspCmd == a.rspCmd
  }

  /** Every registered request carries the sequence number of the message that was forwarded. */
  lemma {:induction false} AskIsForwarded(events: seq<Event>, k: nat, id: nat) returns (j: nat)
    requires k <= |events| && id in After(events, k).asks
    ensures j < k && ForwardsAt(events, j, id, After(events, k).asks[id])
  {
    var d, d' := After(events, k - 1), After(events, k);
    if id in d.asks && d'.asks[id] == d.asks[id] {
      j := AskIsForwarded(events, k - 1, id);
    } else {
      j := k - 1;
    }
  }

  /** The completion reports event `j`, a step of the engine. */
  ghost predicate ReportsAt(events: seq<Event>, j: nat, job: Rpc.Job)
    requires j < |events|
  {
    events[j].Engine? && Rpc.Reports(After(events, j).rpc, events[j].e, job)
  }

  lemma DeskJobReports(d: Desk, e: Event, job: Rpc.Job)
    requires Rpc.Has(Apply(d, e).rpc, job)
    ensures Rpc.Has(d.rpc, job) || (e.Engine? && Rpc.Reports(d.rpc, e.e, job))
  {
    match e
    case Forward(_, _, _, deadline) => Rpc.NewJobReports(d.rpc, true, Rpc.Register(deadline), job);
    case Engine(step) =>
      if !step.RunNext? {
        Rpc.NewJobReports(d.rpc, true, step, job);
      }
    case RunPosted => Rpc.NewJobReports(d.rpc, true, Rpc.RunNext, job);
    case _ =>
  }

  lemma {:induction false} JobReportsAt(events: seq<Event>, k: nat, job: Rpc.Job) returns (j: nat)
    requires k <= |events| && Rpc.Has(After(events, k).rpc, job)
    ensures j < k && ReportsAt(events, j, job)
  {
    DeskJobReports(After(events, k - 1), events[k - 1], job);
    if Rpc.Has(After(events, k - 1).rpc, job) {
      j := JobReportsAt(events, k - 1, job);
    } else {
      j := k - 1;
    }
  }

  lemma SentWasQueued(d: Desk, e: Event, r: Reply)
    requires r in Apply(d, e).sent
    ensures r in d.sent || Rpc.Has(d.rpc, r.job)
  {
  }

  lemma {:induction false} SentReportsAt(events: seq<Event>, k: nat, r: Reply) returns (j: nat)
    requires k <= |events| && r in After(events, k).sent
    ensures j < k && ReportsAt(events, j, r.job)
  {
    SentWasQueued(After(events, k - 1), events[k - 1], r);
    if r in After(events, k - 1).sent {
      j := SentReportsAt(events, k - 1, r);
    } else {
      j := JobReportsAt(events, k - 1, r.job);
    }
  }

  /** From end to end, for every response of every run: some event `f` forwarded the request,
      some step `j` of the engine met the call pending - a response of the backend, a failed
      send or a timeout - and the bytes sent decode to a response with the forwarded message's
      sequence number, the route's response command, and the code and payload of step `j`. */
  lemma ResponseEndToEnd(events: seq<Event>, k: nat, r: Reply) returns (f: nat, j: nat)
    requires k <= |events| && r in After(events, k).sent
    ensures f < k && j < k && ReportsAt(events, j, r.job)
    ensures events[f].Forward? && r.job.seqId == After(events, f).rpc.seqNo + 1
    ensures ReadsAs(r.bytes, events[f].msg.seqId, events[f].rspCmd, r.job.code, r.job.payload)
  {
    AfterInv(events, k);
    var d := After(events, k);
    var i :| 0 <= i < |d.sent| && d.sent[i] == r;
    assert Answers(d.asks, d.sent[i]);
    f := AskIsForwarded(events, k, r.job.seqId);
    j := SentReportsAt(events, k, r);
  }
}
