/** Player sessions, indexed by connection address and by player id. */
module Sessions {
  import opened Strings

  /** A network connection; two connections may have the same remote address. */
  class Connection {
    const addr: string

    constructor (addr: string)
      ensures this.addr == addr
    {
      this.addr := addr;
    }
  }

  class Session {
    const id: string
    const connID: string
    const conn: Connection?
    ghost const number: nat        // counts the sessions made for connections, from 1
    var uid: int
    var authed: bool
    var boundNodes: map<nat, nat>

    constructor (id: string, connID: string, conn: Connection?, uid: int, ghost number: nat)
      ensures this.id == id && this.connID == connID && this.conn == conn && this.number == number
      ensures this.uid == uid && !authed && boundNodes == map[]
    {
      this.id, this.connID, this.conn, this.number := id, connID, conn, number;
      this.uid, authed, boundNodes := uid, false, map[];
    }
  }

  /** The id of the n-th session, which starts with its number. */
  function SessionId(n: nat, addr: string): string {
    Decimal(n) + "-" + addr
  }

  lemma SessionIdExample()
    ensures SessionId(12, "10.0.0.1:5000") == "12-10.0.0.1:5000"
  {
    assert Decimal(12) == "1" + "2";
    assert "12" + "-" + "10.0.0.1:5000" == "12-10.0.0.1:5000";
  }

  lemma DashAfterNumber(n: nat, addr: string)
    ensures var s := SessionId(n, addr);
            s[|Decimal(n)|] == '-' && forall k :: 0 <= k < |Decimal(n)| ==> s[k] != '-'
  {
    forall k | 0 <= k < |Decimal(n)| ensures SessionId(n, addr)[k] != '-' {
      assert SessionId(n, addr)[k] == Decimal(n)[k] && '-' !in DIGITS;
    }
  }

  /** Session ids never collide, whatever the addresses. */
  lemma SessionIdInjective(m: nat, a: string, n: nat, b: string)
    requires SessionId(m, a) == SessionId(n, b)
    ensures m == n && a == b
  {
    var s, t := SessionId(m, a), SessionId(n, b);
    var i, j := |Decimal(m)|, |Decimal(n)|;
    DashAfterNumber(m, a);
    DashAfterNumber(n, b);
    assert i == j;
    assert Decimal(m) == s[..i] && Decimal(n) == t[..j];
    DecimalInjective(m, n);
    assert a == s[i + 1..] && b == t[j + 1..];
  }

  /** A session as the rest of the system tells it apart: by its number and connection, or
      as one that was made without a connection. */
  datatype Entry = Bare | Filed(number: nat, conn: Connection)

  ghost function EntryOf(s: Session): Entry {
    if s.conn == null then Bare else Filed(s.number, s.conn)
  }

  ghost function Entries(byConn: map<string, Session>): map<string, Entry> {
    map k | k in byConn :: EntryOf(byConn[k])
  }

  lemma EntriesUpdate(byConn: map<string, Session>, k: string, s: Session)
    ensures Entries(byConn[k := s]) == Entries(byConn)[k := EntryOf(s)]
  {
  }

  lemma EntriesRemove(byConn: map<string, Session>, k: string)
    ensures Entries(byConn - {k}) == Entries(byConn) - {k}
  {
  }

  class SessionManager {
    var seqNo: nat
    var byConn: map<string, Session>
    var byUID: map<int, Session>
    ghost var created: seq<Session>   // the sessions made by OnConnect, in order
    ghost var all: set<Session>       // every session ever indexed

    /** The n-th created session carries number n + 1 and the address of its connection. */
    ghost predicate Numbered(n: nat)
      reads this`created
      requires n < |created|
    {
      && created[n].conn != null
      && created[n].conn.addr == created[n].connID
      && created[n].id == SessionId(n + 1, created[n].connID)
      && created[n].number == n + 1
    }

    /** A session of this manager: a created one, or one made by BindSession, which has no
        connection and is named after its address. */
    ghost predicate Known(s: Session)
      reads this`created
    {
      s in created || (s.conn == null && s.id == s.connID)
    }

    ghost predicate ConnEntry(k: string)
      reads this, all
      requires k in byConn
    {
      var s := byConn[k];
      s in all && s.connID == k && Known(s) && (s.uid != 0 ==> s.uid in byUID && byUID[s.uid] == s)
    }

    ghost predicate UIDEntry(u: int)
      reads this, all
      requires u in byUID
    {
      u != 0 && byUID[u] in all && byUID[u].uid == u
    }

    /** Index agreement: entries are filed under their own address and player id, and every
        connected session with a player id is the entry for it. */
    ghost predicate Valid()
      reads this, all
    {
      && |created| == seqNo
      && (forall n {:trigger Numbered(n)} :: 0 <= n < |created| ==> Numbered(n))
      && (forall k {:trigger ConnEntry(k)} :: k in byConn ==> ConnEntry(k))
      && (forall u {:trigger UIDEntry(u)} :: u in byUID ==> UIDEntry(u))
    }

    /** Every player-id entry is a connected session. */
    ghost predicate NoStaleUID()
      reads this
    {
      forall u {:trigger Connected(u)} :: u in byUID ==> Connected(u)
    }

    ghost predicate Connected(u: int)
      reads this
      requires u in byUID
    {
      byUID[u].connID in byConn && byConn[byUID[u].connID] == byUID[u]
    }

    constructor ()
      ensures Valid() && NoStaleUID() && byConn == map[] && byUID == map[] && created == [] && all == {}
    {
      seqNo, byConn, byUID, created, all := 0, map[], map[], [], {};
    }

    /** Creates the next numbered session and files it under its connection's address. */
    method Admit(c: Connection) returns (s: Session)
      requires Valid()
      modifies this
      ensures Valid() && fresh(s) && s.conn == c && s.connID == c.addr && s.id == SessionId(old(seqNo) + 1, c.addr)
      ensures s.number == |created|
      ensures s.uid == 0 && !s.authed && s.boundNodes == map[]
      ensures byConn == old(byConn)[c.addr := s] && created == old(created) + [s] && byUID == old(byUID)
      ensures fresh(all - old(all))
    {
      seqNo := seqNo + 1;
      s := new Session(SessionId(seqNo, c.addr), c.addr, c, 0, seqNo);
      byConn := byConn[c.addr := s];
      created := created + [s];
      all := all + {s};
      forall n | 0 <= n < |created| ensures Numbered(n) {
        if n < |old(created)| {
          assert old(Numbered(n));
        }
      }
      forall k | k in byConn ensures ConnEntry(k) {
        if k != c.addr {
          assert old(ConnEntry(k));
        }
      }
      forall u | u in byUID ensures UIDEntry(u) {
        assert old(UIDEntry(u));
      }
    }

    /** A stale player-id entry appears exactly when the address was in use by a bound session. */
    method OnConnect(c: Connection?) returns (s: Session?)
      requires Valid()
      modifies this
      ensures Valid() && byUID == old(byUID) && fresh(all - old(all))
      ensures c == null ==> s == null && byConn == old(byConn) && created == old(created)
      ensures c != null ==>
                && s != null && fresh(s) && s.conn == c && s.connID == c.addr && s.id == SessionId(old(seqNo) + 1, c.addr)
                && s.number == |created|
                && s.uid == 0 && !s.authed && s.boundNodes == map[]
                && byConn == old(byConn)[c.addr := s] && created == old(created) + [s]
      ensures old(NoStaleUID()) ==>
                (NoStaleUID() <==> c == null || old(c.addr !in byConn || byConn[c.addr].uid == 0))
    {
      if c == null {
        return null;
      }
      s := Admit(c);
      if c.addr in old(byConn) && old(byConn[c.addr].uid) != 0 {
        assert old(ConnEntry(c.addr));
        assert !Connected(old(byConn[c.addr].uid));
      } else {
        forall u | u in byUID && old(Connected(u)) ensures Connected(u) {
          assert old(UIDEntry(u));
        }
      }
    }

    /** Removes whatever session the address has now, and its player id: another connection's
        session exactly when that is the one now filed under the address. */
    method OnDisconnect(c: Connection?)
      requires Valid()
      modifies this`byConn, this`byUID
      ensures Valid()
      ensures byConn == if c == null then old(byConn) else old(byConn) - {c.addr}
      ensures byUID == if c == null || c.addr !in old(byConn) then old(byUID) else old(byUID - {byConn[c.addr].uid})
      ensures old(NoStaleUID()) ==> NoStaleUID()
      ensures (exists k :: k in old(byConn) && k !in byConn && old(byConn)[k].conn != c) <==>
                c != null && c.addr in old(byConn) && old(byConn)[c.addr].conn != c
    {
      if c == null {
        return;
      }
      if c.addr !in byConn {
        assert byConn - {c.addr} == byConn;
        return;
      }
      var s := byConn[c.addr];
      assert ConnEntry(c.addr);
      assert 0 in byUID ==> UIDEntry(0);
      byConn := byConn - {s.connID};
      if s.uid != 0 {
        byUID := byUID - {s.uid};
      } else {
        assert byUID - {0} == byUID;
      }
      forall k | k in byConn ensures ConnEntry(k) {
        assert old(ConnEntry(k));
      }
      forall u | u in byUID ensures UIDEntry(u) && (old(Connected(u)) ==> Connected(u)) {
        assert old(UIDEntry(u));
      }
    }

    /** Valid but for the player-id entry of one session, which is about to be rebound. */
    ghost predicate ValidBut(s: Session)
      reads this, all
    {
      && |created| == seqNo
      && (forall n {:trigger Numbered(n)} :: 0 <= n < |created| ==> Numbered(n))
      && (forall k {:trigger ConnEntry(k)} :: k in byConn && byConn[k] != s ==> ConnEntry(k))
      && (forall u {:trigger UIDEntry(u)} :: u in byUID ==> UIDEntry(u))
      && s in all && s.connID in byConn && byConn[s.connID] == s && Known(s)
      && (forall k :: k in byConn && byConn[k] == s ==> k == s.connID)
      && (forall u :: u in byUID && byUID[u] == s ==> u == s.uid)
    }

    /** De-authenticates the session other than `s` that holds a player id. */
    method Displace(uid: int, s: Session)
      requires uid in byUID ==> byUID[uid] in all
      modifies all
      ensures forall t: Session :: old(allocated(t)) ==>
                if uid in byUID && t == byUID[uid] && t != s then t.uid == 0 && !t.authed && t.boundNodes == old(t.boundNodes)
                else t.uid == old(t.uid) && t.authed == old(t.authed) && t.boundNodes == old(t.boundNodes)
    {
      if uid in byUID && byUID[uid] != s {
        var previous := byUID[uid];
        previous.uid := 0;
        previous.authed := false;
      }
    }

    /** Takes the player id from its previous holder, then moves the session to it. */
    method Rebind(s: Session, uid: int, bound: map<nat, nat>)
      requires ValidBut(s)
      requires s.uid == 0 || s.uid == uid || (s.uid in byUID && byUID[s.uid] == s)
      modifies this`byUID, all
      ensures Valid()
      ensures s.uid == uid && s.authed && s.boundNodes == old(s.boundNodes) + bound
      ensures forall t: Session :: old(allocated(t)) && t != s ==>
                if uid in old(byUID) && t == old(byUID)[uid] then t.uid == 0 && !t.authed && t.boundNodes == old(t.boundNodes)
                else t.uid == old(t.uid) && t.authed == old(t.authed) && t.boundNodes == old(t.boundNodes)
      ensures byUID == (var kept := old(byUID) - {old(s.uid)}; if uid != 0 then kept[uid := s] else kept)
    {
      assert 0 in byUID ==> UIDEntry(0);
      assert uid in byUID ==> UIDEntry(uid);
      Displace(uid, s);
      if s.uid != 0 {
        byUID := byUID - {s.uid};
      } else {
        assert byUID - {0} == byUID;
      }
      s.uid := uid;
      s.authed := true;
      s.boundNodes := s.boundNodes + bound;
      if uid != 0 {
        byUID := byUID[uid := s];
      }
      forall k | k in byConn ensures ConnEntry(k) {
        if byConn[k] != s {
          assert old(ConnEntry(k));
        }
      }
      forall u | u in byUID ensures UIDEntry(u) {
        if u != uid {
          assert old(UIDEntry(u));
        }
      }
    }

    /** Binds a player id to the session of an address, creating one without a connection if
        there is none, and takes the id away from its previous holder and nobody else. */
    method BindSession(connID: string, uid: int, bound: map<nat, nat>) returns (s: Session)
      requires Valid()
      modifies this`byConn, this`byUID, this`all, all
      ensures Valid() && created == old(created) && fresh(all - old(all))
      ensures if connID in old(byConn) then s == old(byConn)[connID] && byConn == old(byConn)
              else fresh(s) && s.conn == null && s.id == connID && byConn == old(byConn)[connID := s]
      ensures s.uid == uid && s.authed && s.connID == connID
      ensures s.boundNodes == (if connID in old(byConn) then old(byConn[connID].boundNodes) else map[]) + bound
      ensures forall t: Session :: old(allocated(t)) && t != s ==>
                if uid in old(byUID) && t == old(byUID)[uid] then t.uid == 0 && !t.authed && t.boundNodes == old(t.boundNodes)
                else t.uid == old(t.uid) && t.authed == old(t.authed) && t.boundNodes == old(t.boundNodes)
      ensures byUID == (var kept := old(if connID in byConn then byUID - {byConn[connID].uid} else byUID);
                        if uid != 0 then kept[uid := s] else kept)
      ensures old(NoStaleUID()) ==> NoStaleUID()
    {
      assert forall u :: u in byUID ==> UIDEntry(u);
      if connID in byConn {
        s := byConn[connID];
        assert ConnEntry(connID);
        assert forall k :: k in byConn ==> ConnEntry(k);
        Rebind(s, uid, bound);
      } else {
        s := BindUnconnected(connID, uid, bound);
      }
      forall u | u in byUID && old(NoStaleUID()) ensures Connected(u) {
        if u in old(byUID) && byUID[u] != s {
          assert old(Connected(u));
        }
      }
    }

    method BindUnconnected(connID: string, uid: int, bound: map<nat, nat>) returns (s: Session)
      requires Valid() && connID !in byConn
      modifies this`byConn, this`byUID, this`all, all
      ensures Valid() && created == old(created) && fresh(all - old(all))
      ensures fresh(s) && s.conn == null && s.id == s.connID == connID && byConn == old(byConn)[connID := s]
      ensures s.uid == uid && s.authed && s.boundNodes == bound
      ensures forall t: Session :: old(allocated(t)) ==>
                if uid in old(byUID) && t == old(byUID)[uid] then t.uid == 0 && !t.authed && t.boundNodes == old(t.boundNodes)
                else t.uid == old(t.uid) && t.authed == old(t.authed) && t.boundNodes == old(t.boundNodes)
      ensures byUID == if uid != 0 then old(byUID)[uid := s] else old(byUID)
    {
      s := new Session(connID, connID, null, uid, 0);
      byConn := byConn[connID := s];
      all := all + {s};
      forall k | k in byConn && byConn[k] != s ensures ConnEntry(k) {
        assert old(ConnEntry(k));
      }
      forall u | u in byUID ensures UIDEntry(u) && byUID[u] != s {
        assert old(UIDEntry(u));
      }
      assert 0 !in byUID ==> byUID - {0} == byUID;
      assert 0 in byUID ==> UIDEntry(0);
      Rebind(s, uid, bound);
      assert map[] + bound == bound;
    }

    method SetBound(uid: int, serverType: nat, nodeID: nat)
      requires Valid()
      modifies all
      ensures Valid()
      ensures uid in byUID ==> byUID[uid].boundNodes == old(byUID[uid].boundNodes)[serverType := nodeID]
      ensures forall t: Session :: old(allocated(t)) ==>
                t.uid == old(t.uid) && t.authed == old(t.authed) && (!(uid in byUID && byUID[uid] == t) ==> t.boundNodes == old(t.boundNodes))
    {
      if uid in byUID {
        assert UIDEntry(uid);
        var s := byUID[uid];
        s.boundNodes := s.boundNodes[serverType := nodeID];
      }
      forall n | 0 <= n < |created| ensures Numbered(n) {
        assert old(Numbered(n));
      }
      forall k | k in byConn ensures ConnEntry(k) {
        assert old(ConnEntry(k));
      }
      forall u | u in byUID ensures UIDEntry(u) {
        assert old(UIDEntry(u));
      }
    }

    method GetByConnID(id: string) returns (s: Session?)
      requires Valid()
      ensures s == if id in byConn then byConn[id] else null
      ensures s != null ==> s.connID == id && Known(s)
    {
      if id in byConn {
        assert ConnEntry(id);
        s := byConn[id];
      } else {
        s := null;
      }
    }
  }

  // ----- Runs -----

  datatype Op =
    | Connect(c: Connection?)
    | Disconnect(c: Connection?)
    | Bind(connID: string, uid: int, bound: map<nat, nat>)
    | SetBound(uid: int, serverType: nat, nodeID: nat)

  /** The address has had a connect or a bind, and no disconnect since, in the first `k`
      operations. */
  ghost predicate InUse(ops: seq<Op>, k: nat, addr: string)
    requires k <= |ops|
  {
    if k == 0 then false else
      match ops[k - 1]
      case Connect(c) => (c != null && c.addr == addr) || InUse(ops, k - 1, addr)
      case Disconnect(c) => !(c != null && c.addr == addr) && InUse(ops, k - 1, addr)
      case Bind(connID, _, _) => connID == addr || InUse(ops, k - 1, addr)
      case SetBound(_, _, _) => InUse(ops, k - 1, addr)
  }

  ghost predicate FreshAt(ops: seq<Op>, k: nat)
    requires k < |ops|
  {
    ops[k].Connect? && ops[k].c != null ==> !InUse(ops, k, ops[k].c.addr)
  }

  /** Every connect comes on an address that is not in use. */
  ghost predicate FreshAddresses(ops: seq<Op>) {
    forall k {:trigger FreshAt(ops, k)} :: 0 <= k < |ops| ==> FreshAt(ops, k)
  }

  // The sessions of a run as values, in the order of their creation.

  datatype Player = Player(conn: Connection?, addr: string, uid: int, authed: bool, bound: map<nat, nat>)

  /** All sessions made so far, the one filed under each address, and the holder of each
      player id. */
  datatype Roll = Roll(players: seq<Player>, at: map<string, nat>, holder: map<int, nat>)

  const NEW_ROLL: Roll := Roll([], map[], map[])

  ghost predicate RollOk(r: Roll) {
    && (forall a :: a in r.at ==> r.at[a] < |r.players|)
    && (forall u :: u in r.holder ==> r.holder[u] < |r.players|)
  }

  ghost function Join(r: Roll, conn: Connection?, addr: string): Roll {
    Roll(r.players + [Player(conn, addr, 0, false, map[])], r.at[addr := |r.players|], r.holder)
  }

  /** The players after session `n` takes a player id: its previous holder, if another, loses
      it and its authentication. */
  ghost function Rebound(r: Roll, n: nat, uid: int, bound: map<nat, nat>): seq<Player>
    requires RollOk(r) && n < |r.players|
  {
    var p := r.players[n];
    (if uid in r.holder && r.holder[uid] != n
     then r.players[r.holder[uid] := r.players[r.holder[uid]].(uid := 0, authed := false)]
     else r.players)[n := p.(uid := uid, authed := true, bound := p.bound + bound)]
  }

  /** Session `n` takes a player id and gives up the one it had. */
  ghost function TakeId(r: Roll, n: nat, uid: int, bound: map<nat, nat>): Roll
    requires RollOk(r) && n < |r.players|
  {
    var kept := r.holder - {r.players[n].uid};
    Roll(Rebound(r, n, uid, bound), r.at, if uid != 0 then kept[uid := n] else kept)
  }

  ghost function Enroll(r: Roll, op: Op): (r': Roll)
    requires RollOk(r)
    ensures RollOk(r')
  {
    match op
    case Connect(c) => if c == null then r else Join(r, c, c.addr)
    case Disconnect(c) =>
      if c == null || c.addr !in r.at then r
      else r.(at := r.at - {c.addr}, holder := r.holder - {r.players[r.at[c.addr]].uid})
    case Bind(connID, uid, bound) =>
      var r1 := if connID in r.at then r else Join(r, null, connID);
      TakeId(r1, r1.at[connID], uid, bound)
    case SetBound(uid, serverType, nodeID) =>
      if uid !in r.holder then r else
        var p := r.players[r.holder[uid]];
        r.(players := r.players[r.holder[uid] := p.(bound := p.bound[serverType := nodeID])])
  }

  ghost function RollAfter(ops: seq<Op>, k: nat): (r: Roll)
    requires k <= |ops|
    ensures RollOk(r)
  {
    if k == 0 then NEW_ROLL else Enroll(RollAfter(ops, k - 1), ops[k - 1])
  }

  /** Holders have the ids they hold, and filed sessions are filed under their own addresses
      and hold the ids they have. */
  ghost predicate RollAgrees(r: Roll)
    requires RollOk(r)
  {
    && (forall u {:trigger HolderOk(r, u)} :: u in r.holder ==> HolderOk(r, u))
    && (forall a {:trigger FiledOk(r, a)} :: a in r.at ==> FiledOk(r, a))
  }

  ghost predicate HolderOk(r: Roll, u: int)
    requires RollOk(r) && u in r.holder
  {
    u != 0 && r.players[r.holder[u]].uid == u
  }

  ghost predicate FiledOk(r: Roll, a: string)
    requires RollOk(r) && a in r.at
  {
    var n := r.at[a];
    r.players[n].addr == a && (r.players[n].uid != 0 ==> HoldsId(r, r.players[n].uid, n))
  }

  ghost predicate HoldsId(r: Roll, u: int, n: nat) {
    u in r.holder && r.holder[u] == n
  }

  /** The session that a bind binds: the one filed under the address, or the next one. */
  ghost function Target(r: Roll, connID: string): nat {
    if connID in r.at then r.at[connID] else |r.players|
  }

  /** The operation takes player id `u` from session `n`: another session binds it, the
      session binds another, or the session is disconnected. */
  ghost predicate Releases(r: Roll, op: Op, u: int, n: nat) {
    match op
    case Bind(connID, uid, _) => (Target(r, connID) == n) != (uid == u)
    case Disconnect(c) => c != null && c.addr in r.at && r.at[c.addr] == n
    case _ => false
  }

  lemma JoinAgrees(r: Roll, conn: Connection?, addr: string)
    requires RollOk(r) && RollAgrees(r)
    ensures RollOk(Join(r, conn, addr)) && RollAgrees(Join(r, conn, addr))
  {
    var r' := Join(r, conn, addr);
    forall u | u in r'.holder ensures HolderOk(r', u) {
      assert HolderOk(r, u);
    }
    forall a | a in r'.at ensures FiledOk(r', a) {
      if a != addr {
        assert FiledOk(r, a);
      }
    }
  }

  lemma LeaveAgrees(r: Roll, c: Connection)
    requires RollOk(r) && RollAgrees(r)
    ensures RollAgrees(Enroll(r, Disconnect(c)))
  {
    var r' := Enroll(r, Disconnect(c));
    forall u | u in r'.holder ensures HolderOk(r', u) {
      assert HolderOk(r, u);
    }
    forall a | a in r'.at ensures FiledOk(r', a) {
      assert FiledOk(r, a);
      assert c.addr in r.at ==> FiledOk(r, c.addr);
    }
  }

  lemma TakeIdAgrees(r: Roll, addr: string, uid: int, bound: map<nat, nat>)
    requires RollOk(r) && RollAgrees(r) && addr in r.at
    ensures RollOk(TakeId(r, r.at[addr], uid, bound)) && RollAgrees(TakeId(r, r.at[addr], uid, bound))
  {
    var n := r.at[addr];
    var r' := TakeId(r, n, uid, bound);
    assert FiledOk(r, addr) && (uid in r.holder ==> HolderOk(r, uid));
    forall u | u in r'.holder ensures HolderOk(r', u) {
      if u != uid {
        assert HolderOk(r, u);
      }
    }
    forall a | a in r'.at ensures FiledOk(r', a) {
      assert FiledOk(r, a);
    }
  }

  lemma SetBoundAgrees(r: Roll, op: Op)
    requires RollOk(r) && RollAgrees(r) && op.SetBound?
    ensures RollAgrees(Enroll(r, op))
  {
    var r' := Enroll(r, op);
    forall u | u in r'.holder ensures HolderOk(r', u) {
      assert HolderOk(r, u);
    }
    forall a | a in r'.at ensures FiledOk(r', a) {
      assert FiledOk(r, a);
    }
  }

  lemma EnrollAgrees(r: Roll, op: Op)
    requires RollOk(r) && RollAgrees(r)
    ensures RollAgrees(Enroll(r, op))
  {
    match op
    case Connect(c) =>
      if c != null {
        JoinAgrees(r, c, c.addr);
      }
    case Disconnect(c) =>
      if c != null {
        LeaveAgrees(r, c);
      }
    case Bind(connID, uid, bound) =>
      JoinAgrees(r, null, connID);
      TakeIdAgrees(if connID in r.at then r else Join(r, null, connID), connID, uid, bound);
    case SetBound(_, _, _) => SetBoundAgrees(r, op);
  }

  lemma {:induction false} RollAfterAgrees(ops: seq<Op>, k: nat)
    requires k <= |ops|
    ensures RollAgrees(RollAfter(ops, k))
  {
    if k > 0 {
      RollAfterAgrees(ops, k - 1);
      EnrollAgrees(RollAfter(ops, k - 1), ops[k - 1]);
    }
  }

  lemma KeptUnlessReleased(r: Roll, op: Op, u: int, n: nat)
    requires RollOk(r) && RollAgrees(r) && HoldsId(r, u, n)
    ensures HoldsId(Enroll(r, op), u, n) <==> !Releases(r, op, u, n)
  {
    assert HolderOk(r, u);
    if op.Disconnect? && op.c != null && op.c.addr in r.at {
      assert FiledOk(r, op.c.addr);
    }
    if op.Bind? && op.connID in r.at {
      assert FiledOk(r, op.connID);
    }
  }

  lemma KeptNext(ops: seq<Op>, k: nat, u: int, n: nat)
    requires k < |ops| && HoldsId(RollAfter(ops, k), u, n)
    ensures HoldsId(RollAfter(ops, k + 1), u, n) <==> !Releases(RollAfter(ops, k), ops[k], u, n)
  {
    RollAfterAgrees(ops, k);
    KeptUnlessReleased(RollAfter(ops, k), ops[k], u, n);
  }

  lemma BindGivesId(r: Roll, op: Op)
    requires RollOk(r) && op.Bind? && op.uid != 0
    ensures HoldsId(Enroll(r, op), op.uid, Target(r, op.connID))
  {
  }

  /** A bind gives the id to the session of its address, and the session holds it until the
      first operation that releases it, which takes it away at once. */
  lemma {:induction false} HeldUntilReleased(ops: seq<Op>, i: nat, k: nat)
    requires i < k <= |ops| && ops[i].Bind? && ops[i].uid != 0
    requires var n := Target(RollAfter(ops, i), ops[i].connID);
             forall j {:trigger ReleasesAt(ops, j, ops[i].uid, n)} :: i < j < k - 1 ==> !ReleasesAt(ops, j, ops[i].uid, n)
    ensures var n := Target(RollAfter(ops, i), ops[i].connID);
            HoldsId(RollAfter(ops, k), ops[i].uid, n) <==> k == i + 1 || !ReleasesAt(ops, k - 1, ops[i].uid, n)
  {
    if k == i + 1 {
      BindGivesId(RollAfter(ops, i), ops[i]);
    } else {
      HeldUntilReleased(ops, i, k - 1);
      KeptNext(ops, k - 1, ops[i].uid, Target(RollAfter(ops, i), ops[i].connID));
    }
  }

  ghost predicate ReleasesAt(ops: seq<Op>, j: nat, u: int, n: nat)
    requires j < |ops|
  {
    Releases(RollAfter(ops, j), ops[j], u, n)
  }

  ghost predicate Is(s: Session, p: Player)
    reads s
  {
    s.conn == p.conn && s.connID == p.addr && s.uid == p.uid && s.authed == p.authed && s.boundNodes == p.bound
  }

  ghost predicate Listed(who: seq<Session>, players: seq<Player>)
    reads who
  {
    && |who| == |players|
    && (forall i {:trigger who[i]} :: 0 <= i < |who| ==> Is(who[i], players[i]))
    && (forall i, j :: 0 <= i < j < |who| ==> who[i] != who[j])
  }

  ghost predicate Filing(byConn: map<string, Session>, at: map<string, nat>, who: seq<Session>) {
    byConn.Keys == at.Keys && forall a :: a in at ==> at[a] < |who| && byConn[a] == who[at[a]]
  }

  ghost predicate Holding(byUID: map<int, Session>, holder: map<int, nat>, who: seq<Session>) {
    byUID.Keys == holder.Keys && forall u :: u in holder ==> holder[u] < |who| && byUID[u] == who[holder[u]]
  }

  /** The manager's objects are the sessions of the roll: `who[n]` is session `n`. */
  ghost predicate Tracks(m: SessionManager, who: seq<Session>, r: Roll)
    reads m, who
  {
    RollOk(r) && Listed(who, r.players) && Filing(m.byConn, r.at, who) && Holding(m.byUID, r.holder, who)
  }

  method PerformConnect(m: SessionManager, c: Connection?, ghost who: seq<Session>, ghost r: Roll) returns (ghost who': seq<Session>)
    requires m.Valid() && Tracks(m, who, r)
    modifies m
    ensures m.Valid() && Tracks(m, who', Enroll(r, Connect(c))) && fresh(m.all - old(m.all))
    ensures old(m.NoStaleUID()) && (c != null ==> c.addr !in r.at) ==> m.NoStaleUID()
  {
    var s := m.OnConnect(c);
    who' := who;
    if s != null {
      who' := who + [s];
    }
  }

  method PerformDisconnect(m: SessionManager, c: Connection?, ghost who: seq<Session>, ghost r: Roll)
    requires m.Valid() && Tracks(m, who, r)
    modifies m
    ensures m.Valid() && Tracks(m, who, Enroll(r, Disconnect(c))) && m.all == old(m.all)
    ensures old(m.NoStaleUID()) ==> m.NoStaleUID()
  {
    m.OnDisconnect(c);
  }

  /** Binding a session that is filed under the address. */
  method BindFiled(m: SessionManager, connID: string, uid: int, bound: map<nat, nat>, ghost who: seq<Session>, ghost r: Roll)
    requires m.Valid() && Tracks(m, who, r) && connID in r.at
    modifies m, m.all
    ensures m.Valid() && Tracks(m, who, TakeId(r, r.at[connID], uid, bound)) && fresh(m.all - old(m.all))
    ensures old(m.NoStaleUID()) ==> m.NoStaleUID()
  {
    var s := m.BindSession(connID, uid, bound);
    ghost var n := r.at[connID];
    ghost var players := Rebound(r, n, uid, bound);
    assert who[n] == s && |players| == |who|;
    forall i | 0 <= i < |who| ensures Is(who[i], players[i]) {
      assert old(Is(who[i], r.players[i]));
      if uid in r.holder && i != n {
        assert old(m.byUID)[uid] == who[r.holder[uid]];
      }
    }
    assert Listed(who, players);
    HoldingTaken(old(m.byUID), r, who, n, uid);
  }

  lemma HoldingTaken(byUID: map<int, Session>, r: Roll, who: seq<Session>, n: nat, uid: int)
    requires RollOk(r) && |who| == |r.players| && n < |who| && Holding(byUID, r.holder, who)
    ensures var previous := r.players[n].uid;
            Holding(if uid != 0 then (byUID - {previous})[uid := who[n]] else byUID - {previous},
                    if uid != 0 then (r.holder - {previous})[uid := n] else r.holder - {previous}, who)
  {
  }

  /** Binding an address without a session, which makes one without a connection. */
  method BindNew(m: SessionManager, connID: string, uid: int, bound: map<nat, nat>, ghost who: seq<Session>, ghost r: Roll)
    returns (ghost who': seq<Session>)
    requires m.Valid() && Tracks(m, who, r) && connID !in r.at
    modifies m, m.all
    ensures m.Valid() && Tracks(m, who', TakeId(Join(r, null, connID), |r.players|, uid, bound)) && fresh(m.all - old(m.all))
    ensures old(m.NoStaleUID()) ==> m.NoStaleUID()
  {
    ghost var r1 := Join(r, null, connID);
    assert 0 !in m.byUID by {
      assert 0 in m.byUID ==> m.UIDEntry(0);
    }
    var s := m.BindSession(connID, uid, bound);
    who' := who + [s];
    ReboundNew(r, connID, uid, bound);
    forall i | 0 <= i < |who| ensures Is(who[i], Rebound(r1, |who|, uid, bound)[i]) {
      assert old(Is(who[i], r.players[i]));
      assert uid in r.holder ==> old(m.byUID)[uid] == who[r.holder[uid]];
    }
    TracksNew(m, old(m.byConn), old(m.byUID), who, s, r, Bind(connID, uid, bound));
  }

  lemma TracksNew(m: SessionManager, byConn: map<string, Session>, byUID: map<int, Session>,
                  who: seq<Session>, s: Session, r: Roll, op: Op)
    requires op.Bind? && RollOk(r) && |who| == |r.players| && op.connID !in r.at && 0 !in byUID
    requires Filing(byConn, r.at, who) && Holding(byUID, r.holder, who)
    requires m.byConn == byConn[op.connID := s] && m.byUID == if op.uid != 0 then byUID[op.uid := s] else byUID
    requires s !in who && Is(s, Player(null, op.connID, op.uid, true, op.bound))
    requires forall i, j :: 0 <= i < j < |who| ==> who[i] != who[j]
    requires forall i :: 0 <= i < |who| ==> Is(who[i], Rebound(Join(r, null, op.connID), |who|, op.uid, op.bound)[i])
    ensures Tracks(m, who + [s], TakeId(Join(r, null, op.connID), |r.players|, op.uid, op.bound))
  {
    ReboundNew(r, op.connID, op.uid, op.bound);
    ListedMore(who, s, Rebound(Join(r, null, op.connID), |who|, op.uid, op.bound));
    HoldingNew(byUID, r, who, s, op.uid);
    FilingNew(byConn, r, who, s, op.connID);
  }

  lemma ReboundNew(r: Roll, connID: string, uid: int, bound: map<nat, nat>)
    requires RollOk(r)
    ensures var players := Rebound(Join(r, null, connID), |r.players|, uid, bound);
            && |players| == |r.players| + 1
            && players[|r.players|] == Player(null, connID, uid, true, bound)
            && (forall i :: 0 <= i < |r.players| ==>
                  players[i] == if uid in r.holder && r.holder[uid] == i then r.players[i].(uid := 0, authed := false)
                                else r.players[i])
  {
    assert map[] + bound == bound;
  }

  lemma ListedMore(who: seq<Session>, s: Session, players: seq<Player>)
    requires |players| == |who| + 1 && s !in who && Is(s, players[|who|])
    requires forall i :: 0 <= i < |who| ==> Is(who[i], players[i])
    requires forall i, j :: 0 <= i < j < |who| ==> who[i] != who[j]
    ensures Listed(who + [s], players)
  {
  }

  lemma HoldingNew(byUID: map<int, Session>, r: Roll, who: seq<Session>, s: Session, uid: int)
    requires RollOk(r) && |who| == |r.players| && Holding(byUID, r.holder, who) && 0 !in byUID
    ensures Holding(if uid != 0 then byUID[uid := s] else byUID,
                    if uid != 0 then (r.holder - {0})[uid := |who|] else r.holder - {0}, who + [s])
  {
    assert r.holder - {0} == r.holder;
  }

  lemma FilingNew(byConn: map<string, Session>, r: Roll, who: seq<Session>, s: Session, addr: string)
    requires |who| == |r.players| && Filing(byConn, r.at, who)
    ensures Filing(byConn[addr := s], r.at[addr := |who|], who + [s])
  {
  }

  method PerformBind(m: SessionManager, connID: string, uid: int, bound: map<nat, nat>, ghost who: seq<Session>, ghost r: Roll)
    returns (ghost who': seq<Session>)
    requires m.Valid() && Tracks(m, who, r)
    modifies m, m.all
    ensures m.Valid() && Tracks(m, who', Enroll(r, Bind(connID, uid, bound))) && fresh(m.all - old(m.all))
    ensures old(m.NoStaleUID()) ==> m.NoStaleUID()
  {
    who' := who;
    if connID in m.byConn {
      BindFiled(m, connID, uid, bound, who, r);
    } else {
      who' := BindNew(m, connID, uid, bound, who, r);
    }
  }

  method PerformSetBound(m: SessionManager, uid: int, serverType: nat, nodeID: nat, ghost who: seq<Session>, ghost r: Roll)
    requires m.Valid() && Tracks(m, who, r)
    modifies m.all
    ensures m.Valid() && Tracks(m, who, Enroll(r, SetBound(uid, serverType, nodeID)))
    ensures old(m.NoStaleUID()) ==> m.NoStaleUID()
  {
    m.SetBound(uid, serverType, nodeID);
    assert old(m.NoStaleUID()) ==> forall u :: u in m.byUID ==> old(m.Connected(u));
  }

  method Perform(m: SessionManager, op: Op, ghost who: seq<Session>, ghost r: Roll) returns (ghost who': seq<Session>)
    requires m.Valid() && Tracks(m, who, r)
    modifies m, m.all
    ensures m.Valid() && Tracks(m, who', Enroll(r, op)) && fresh(m.all - old(m.all))
    ensures old(m.NoStaleUID()) && (op.Connect? && op.c != null ==> op.c.addr !in r.at) ==> m.NoStaleUID()
  {
    who' := who;
    match op {
      case Connect(c) => who' := PerformConnect(m, c, who, r);
      case Disconnect(c) => PerformDisconnect(m, c, who, r);
      case Bind(connID, uid, bound) => who' := PerformBind(m, connID, uid, bound, who, r);
      case SetBound(uid, serverType, nodeID) => PerformSetBound(m, uid, serverType, nodeID, who, r);
    }
  }

  /** An address has a session exactly while it is in use. */
  lemma {:induction false} FiledWhileInUse(ops: seq<Op>, k: nat, addr: string)
    requires k <= |ops|
    ensures addr in RollAfter(ops, k).at <==> InUse(ops, k, addr)
  {
    if k > 0 {
      FiledWhileInUse(ops, k - 1, addr);
    }
  }

  /** Every run: the indexes agree after every operation; the sessions, the session filed under
      each address and the session holding each player id are those the operations give; and if
      every connect comes on a free address then every player-id entry is a connected session. */
  method Run(ops: seq<Op>) returns (m: SessionManager, ghost who: seq<Session>)
    ensures m.Valid() && Tracks(m, who, RollAfter(ops, |ops|))
    ensures forall a :: a in m.byConn <==> InUse(ops, |ops|, a)
    ensures FreshAddresses(ops) ==> m.NoStaleUID()
  {
    m := new SessionManager();
    who := [];
    var k := 0;
    while k < |ops|
      invariant 0 <= k <= |ops| && fresh(m) && fresh(m.all) && m.Valid()
      invariant Tracks(m, who, RollAfter(ops, k))
      invariant FreshAddresses(ops) ==> m.NoStaleUID()
    {
      who := RunStep(m, ops, k, who);
      k := k + 1;
    }
    FiledExactly(m, who, ops);
  }

  method RunStep(m: SessionManager, ops: seq<Op>, k: nat, ghost who: seq<Session>) returns (ghost who': seq<Session>)
    requires k < |ops| && m.Valid() && Tracks(m, who, RollAfter(ops, k))
    modifies m, m.all
    ensures m.Valid() && Tracks(m, who', RollAfter(ops, k + 1)) && fresh(m.all - old(m.all))
    ensures FreshAddresses(ops) && old(m.NoStaleUID()) ==> m.NoStaleUID()
  {
    FreshIsFree(ops, k);
    who' := Perform(m, ops[k], who, RollAfter(ops, k));
  }

  lemma FiledExactly(m: SessionManager, who: seq<Session>, ops: seq<Op>)
    requires Tracks(m, who, RollAfter(ops, |ops|))
    ensures forall a :: a in m.byConn <==> InUse(ops, |ops|, a)
  {
    forall a ensures a in m.byConn <==> InUse(ops, |ops|, a) {
      FiledWhileInUse(ops, |ops|, a);
    }
  }

  lemma FreshIsFree(ops: seq<Op>, k: nat)
    requires k < |ops|
    ensures FreshAddresses(ops) && ops[k].Connect? && ops[k].c != null ==> ops[k].c.addr !in RollAfter(ops, k).at
  {
    if FreshAddresses(ops) && ops[k].Connect? && ops[k].c != null {
      assert FreshAt(ops, k);
      FiledWhileInUse(ops, k, ops[k].c.addr);
    }
  }

  /** A connect on an address in use by a bound session leaves its player id stale. */
  method StaleUIDExample(addr: string) returns (m: SessionManager)
    ensures m.Valid() && 7 in m.byUID && !m.NoStaleUID()
  {
    m := new SessionManager();
    var c1 := new Connection(addr);
    var _ := m.OnConnect(c1);
    var s := m.BindSession(addr, 7, map[]);
    var c2 := new Connection(addr);
    var _ := m.OnConnect(c2);
  }

  /** A late disconnect drops the session of a newer connection on the same address. */
  method LateDisconnectExample(addr: string) returns (m: SessionManager, c2: Connection, before: Session?, after: Session?)
    ensures m.Valid() && c2.addr == addr && before != null && before.conn == c2 && after == null
  {
    m := new SessionManager();
    var c1 := new Connection(addr);
    c2 := new Connection(addr);
    var _ := m.OnConnect(c1);
    var _ := m.OnConnect(c2);
    before := m.GetByConnID(addr);
    m.OnDisconnect(c1);
    after := m.GetByConnID(addr);
  }
}
