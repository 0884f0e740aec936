/** The gate: forwards client requests through the RPC engine and sends each response back
    to the session that asked, across connects, disconnects and reused addresses. Its objects
    refine the step system of GateSpec. */
module Gate {
  import opened Basics
  import opened Codec
  import Rpc = RpcCore
  import opened Sessions
  import opened GateSpec

  /** A forwarded request: the connection it arrived on, and what its callback captures. */
  datatype Request = Request(arrived: Connection, sess: Session, seqId: uint16, rspCmd: uint32)

  /** A receive loop and the session it looked up when it started. */
  datatype RecvLoop = RecvLoop(conn: Connection, sess: Session?)

  ghost function AskOf(r: Request): Ask {
    Ask(r.arrived, EntryOf(r.sess), r.seqId, r.rspCmd)
  }

  ghost function AsksOf(requests: map<nat, Request>): map<nat, Ask> {
    map id | id in requests :: AskOf(requests[id])
  }

  ghost function LoopOf(l: RecvLoop): Loop {
    Loop(l.conn, if l.sess == null then None else Some(EntryOf(l.sess)))
  }

  ghost function LoopsOf(loops: seq<RecvLoop>): seq<Loop> {
    seq(|loops|, i requires 0 <= i < |loops| => LoopOf(loops[i]))
  }

  lemma AsksOfUpdate(requests: map<nat, Request>, id: nat, r: Request)
    ensures AsksOf(requests[id := r]) == AsksOf(requests)[id := AskOf(r)]
  {
  }

  lemma LoopsOfAppend(loops: seq<RecvLoop>, l: RecvLoop)
    ensures LoopsOf(loops + [l]) == LoopsOf(loops) + [LoopOf(l)]
  {
  }

  /** Two sessions under one address, the second with a connection, have the same id exactly
      when they are the same session: ids are never reused even when addresses are. */
  lemma SameIdSameSession(m: SessionManager, a: Session, b: Session)
    requires m.Valid() && m.Known(a) && m.Known(b)
    requires a.connID == b.connID && b.conn != null
    ensures a.id == b.id <==> a == b
    ensures EntryOf(a) == EntryOf(b) <==> a == b
  {
    var j :| 0 <= j < |m.created| && m.created[j] == b;
    assert m.Numbered(j);
    assert |SessionId(j + 1, b.connID)| > |b.connID|;
    if a in m.created {
      var i :| 0 <= i < |m.created| && m.created[i] == a;
      assert m.Numbered(i);
      if a.id == b.id {
        SessionIdInjective(i + 1, a.connID, j + 1, b.connID);
      }
    }
  }

  class Gate {
    const sessions: SessionManager
    var rpc: Rpc.State
    var requests: map<nat, Request>
    var loops: seq<RecvLoop>
    var sent: seq<Reply>

    /** The session is one of the manager's, filed under the connection's address. */
    ghost predicate Belongs(c: Connection, s: Session)
      reads sessions`created
    {
      sessions.Known(s) && s.connID == c.addr
    }

    ghost predicate Valid()
      reads this, sessions, sessions.all
    {
      && sessions.Valid()
      && (forall id {:trigger requests[id]} :: id in requests ==> Belongs(requests[id].arrived, requests[id].sess))
      && (forall i {:trigger loops[i]} :: 0 <= i < |loops| && loops[i].sess != null ==> Belongs(loops[i].conn, loops[i].sess))
    }

    ghost function View(): Desk
      reads this, sessions
    {
      Desk(|sessions.created|, Entries(sessions.byConn), LoopsOf(loops), AsksOf(requests), rpc, sent)
    }

    constructor ()
      ensures Valid() && View() == NEW_DESK && fresh(sessions) && fresh(sessions.all)
    {
      sessions := new SessionManager();
      rpc, requests, loops, sent := Rpc.INIT, map[], [], [];
    }

    method Connect(c: Connection?)
      requires Valid()
      modifies sessions
      ensures Valid() && View() == Apply(old(View()), Event.Connect(c))
      ensures fresh(sessions.all - old(sessions.all))
    {
      var s := sessions.OnConnect(c);
      if s != null {
        EntriesUpdate(old(sessions.byConn), s.connID, s);
      }
    }

    method Disconnect(c: Connection?)
      requires Valid()
      modifies sessions
      ensures Valid() && View() == Apply(old(View()), Event.Disconnect(c))
      ensures sessions.all == old(sessions.all)
    {
      sessions.OnDisconnect(c);
      if c != null {
        EntriesRemove(old(sessions.byConn), c.addr);
      }
    }

    method Bind(connID: string, uid: int, bound: map<nat, nat>)
      requires Valid()
      modifies sessions, sessions.all
      ensures Valid() && View() == Apply(old(View()), Event.Bind(connID, uid, bound))
      ensures fresh(sessions.all - old(sessions.all))
    {
      var s := sessions.BindSession(connID, uid, bound);
      EntriesUpdate(old(sessions.byConn), connID, s);
    }

    /** A receive loop starts: it looks its session up by address, once. */
    method StartRecv(c: Connection)
      requires Valid()
      modifies this`loops
      ensures Valid() && View() == Apply(old(View()), Event.StartRecv(c))
    {
      var s := sessions.GetByConnID(c.addr);
      LoopsOfAppend(loops, RecvLoop(c, s));
      loops := loops + [RecvLoop(c, s)];
    }

    /** Forwards a message: a request registers a call whose callback will answer it. */
    method Forward(loop: nat, msg: Message, rspCmd: uint32, deadline: Option<Rpc.Time>)
      requires Valid()
      modifies this`rpc, this`requests
      ensures Valid() && View() == Apply(old(View()), Event.Forward(loop, msg, rspCmd, deadline))
    {
      if loop >= |loops| || loops[loop].sess == null || msg.kind != REQUEST {
        return;
      }
      var r := Request(loops[loop].conn, loops[loop].sess, msg.seqId, rspCmd);
      rpc := Rpc.OnRegister(rpc, deadline);
      AsksOfUpdate(requests, rpc.seqNo, r);
      requests := requests[rpc.seqNo := r];
    }

    /** Any step of the RPC engine, its transport or another caller that runs no callback. */
    method EngineStep(e: Rpc.Event)
      requires Valid()
      modifies this`rpc
      ensures Valid() && View() == Apply(old(View()), Engine(e))
    {
      if e.RunNext? {
        return;
      }
      rpc := Rpc.Next(rpc, true, e);
    }

    /** The response callback: sends to the session now at the captured address, provided it
        is the one that asked and has a connection, and the response can be encoded. */
    method Respond(job: Rpc.Job) returns (packets: seq<Reply>)
      requires Valid() && job.seqId in requests
      ensures packets == Replies(View(), job)
    {
      var r := requests[job.seqId];
      var current := sessions.GetByConnID(r.sess.connID);
      if current == null || current.conn == null {
        return [];
      }
      SameIdSameSession(sessions, r.sess, current);
      if current.id != r.sess.id {
        return [];
      }
      var pkt := EncodeDataMessagePacket(Message(RESPONSE, r.seqId, r.rspCmd, job.code, job.payload));
      if pkt.Err? {
        return [];
      }
      packets := [Reply(job, current.conn, pkt.value.arr[..pkt.value.len])];
    }

    /** The main loop runs the next posted callback. */
    method RunPosted()
      requires Valid()
      modifies this`rpc, this`sent
      ensures Valid() && View() == Apply(old(View()), Event.RunPosted)
    {
      if rpc.queue == [] {
        return;
      }
      var job := rpc.queue[0];
      ghost var d := View();
      var packets := [];
      if job.seqId in requests {
        packets := Respond(job);
      }
      assert packets == Replies(d, job);
      rpc := Rpc.OnRunNext(rpc);
      sent := sent + packets;
    }

    method Perform(e: Event)
      requires Valid()
      modifies this, sessions, sessions.all
      ensures Valid() && View() == Apply(old(View()), e)
      ensures fresh(sessions.all - old(sessions.all))
    {
      match e {
        case Connect(c) => Connect(c);
        case Disconnect(c) => Disconnect(c);
        case Bind(connID, uid, bound) => Bind(connID, uid, bound);
        case StartRecv(c) => StartRecv(c);
        case Forward(loop, msg, rspCmd, deadline) => Forward(loop, msg, rspCmd, deadline);
        case Engine(e) => EngineStep(e);
        case RunPosted => RunPosted();
      }
    }
  }

  /** Every run of the gate, with any interleaving of connects, disconnects, bindings,
      requests, transport events and callbacks, is the run of the step system: it sends
      exactly the same responses. Each forwarded request has at most one, and every one
      answers its request on the connection of the session that made it. */
  method Run(events: seq<Event>) returns (sent: seq<Reply>)
    ensures sent == After(events, |events|).sent
    ensures forall i :: 0 <= i < |sent| ==> Answers(After(events, |events|).asks, sent[i])
    ensures forall id {:trigger SentCount(sent, id)} :: SentCount(sent, id) <= 1
  {
    var g := new Gate();
    var k := 0;
    while k < |events|
      invariant 0 <= k <= |events| && fresh(g) && fresh(g.sessions) && fresh(g.sessions.all)
      invariant g.Valid() && g.View() == After(events, k)
    {
      g.Perform(events[k]);
      k := k + 1;
    }
    sent := g.sent;
    OneResponsePerRequest(events, |events|);
  }
}
