/** A TCP connection: the bounded send queue, the batching writer, and the framing reader. */
module Conn {
  import opened Basics
  import opened Codec

  const SEND_QUEUE_SIZE: nat := 256
  const BATCH_MAX_FRAMES: nat := 16

  /** A packet short enough to have a frame. */
  type Framed = p: Packet | |p.body| <= MAX_BODY witness Packet(0, [])

  /** The byte stream of a list of packets. */
  ghost function Frames(ps: seq<Framed>): seq<byte>
  {
    if ps == [] then [] else Frame(ps[0]) + Frames(ps[1..])
  }

  lemma {:induction false} FramesConcat(a: seq<Framed>, b: seq<Framed>)
    ensures Frames(a + b) == Frames(a) + Frames(b)
  {
    if a == [] {
      assert a + b == b;
    } else {
      assert (a + b)[1..] == a[1..] + b;
      FramesConcat(a[1..], b);
      assert Frame(a[0]) + (Frames(a[1..]) + Frames(b)) == Frame(a[0]) + Frames(a[1..]) + Frames(b);
    }
  }

  // ----- Reading -----

  /** Reader output: the packets framed so far and the bytes of an unfinished frame. */
  datatype Parsed = Parsed(packets: seq<Framed>, rest: seq<byte>)

  /** The first frame of a stream, if it is complete. */
  predicate HasFrame(b: seq<byte>) {
    |b| >= 4 && |b| >= 4 + GetU24(b[1..4])
  }

  function Parse(b: seq<byte>): Parsed
    decreases |b|
  {
    if !HasFrame(b) then Parsed([], b) else
      var n := 4 + GetU24(b[1..4]);
      var tail := Parse(b[n..]);
      Parsed([Packet(b[0], b[4..n])] + tail.packets, tail.rest)
  }

  /** The read loop on a stream that ends: header, then body, until a read comes up short. */
  method ReadLoop(stream: seq<byte>) returns (received: seq<Framed>, left: seq<byte>)
    ensures Parse(stream) == Parsed(received, left)
  {
    received, left := [], stream;
    while |left| >= 4
      invariant Parse(stream) == Parsed(received + Parse(left).packets, Parse(left).rest)
      decreases |left|
    {
      var bodyLen := GetU24(left[1..4]);
      if |left| < 4 + bodyLen {
        return;
      }
      ParseStep(received, left);
      received := received + [Packet(left[0], left[4..4 + bodyLen])];
      left := left[4 + bodyLen..];
    }
  }

  lemma ParseStep(received: seq<Framed>, b: seq<byte>)
    requires HasFrame(b)
    ensures var n := 4 + GetU24(b[1..4]);
            && Parse(b).rest == Parse(b[n..]).rest
            && received + Parse(b).packets == received + [Packet(b[0], b[4..n])] + Parse(b[n..]).packets
  {
  }

  lemma FrameHeader(p: Framed, more: seq<byte>)
    ensures Parse(Frame(p) + more) == Parsed([p] + Parse(more).packets, Parse(more).rest)
  {
    U24RoundTrip(|p.body|);
    var b := Frame(p) + more;
    assert b[1..4] == PutU24(|p.body|);
    assert b[4..4 + |p.body|] == p.body && b[4 + |p.body|..] == more;
  }

  /** A frame cut short is not mistaken for a complete one. */
  lemma CutFrame(p: Framed, b: seq<byte>)
    requires |b| < |Frame(p)| && b == Frame(p)[..|b|]
    ensures !HasFrame(b)
  {
    U24RoundTrip(|p.body|);
    if |b| >= 4 {
      assert b[1..4] == Frame(p)[1..4] == PutU24(|p.body|);
    }
  }

  lemma PrefixTail(b: seq<byte>, f: seq<byte>, t: seq<byte>)
    requires b <= f + t && |b| >= |f|
    ensures b == f + b[|f|..] && b[|f|..] <= t
    ensures b == f + t ==> b[|f|..] == t
  {
  }

  lemma Glue(a: seq<byte>, b: seq<byte>, c: seq<byte>)
    ensures a + (b + c) == a + b + c
  {
  }

  lemma FramesOfPrefix(ps: seq<Framed>, j: nat)
    requires ps != [] && j < |ps|
    ensures ps[..j + 1] == [ps[0]] + ps[1..][..j]
    ensures Frames(ps[..j + 1]) == Frame(ps[0]) + Frames(ps[1..][..j])
  {
    assert ps[..j + 1][1..] == ps[1..][..j];
  }

  /** From any prefix of the stream the reader recovers exactly the frames that are wholly
      inside it, in order, and is left with the cut part of the next one. */
  lemma {:induction false} ReaderRecovers(ps: seq<Framed>, b: seq<byte>) returns (k: nat)
    requires b <= Frames(ps)
    ensures k <= |ps| && Parse(b).packets == ps[..k]
    ensures b == Frames(ps[..k]) + Parse(b).rest
    ensures k < |ps| ==> |b| < |Frames(ps[..k])| + |Frame(ps[k])|
    ensures b == Frames(ps) ==> k == |ps| && Parse(b).rest == []
  {
    if ps == [] {
      k := 0;
    } else {
      var f := Frame(ps[0]);
      if |b| < |f| {
        CutFrame(ps[0], b);
        k := 0;
      } else {
        var more := b[|f|..];
        PrefixTail(b, f, Frames(ps[1..]));
        FrameHeader(ps[0], more);
        var j := ReaderRecovers(ps[1..], more);
        k := j + 1;
        FramesOfPrefix(ps, j);
        Glue(f, Frames(ps[1..][..j]), Parse(more).rest);
      }
    }
  }

  lemma FrameOfBytes(b: seq<byte>)
    requires HasFrame(b)
    ensures var n := 4 + GetU24(b[1..4]);
            |b[4..n]| <= MAX_BODY && Frame(Packet(b[0], b[4..n])) == b[..n] && b == b[..n] + b[n..]
  {
    U24BytesRoundTrip(b[1..4]);
    var n := 4 + GetU24(b[1..4]);
    assert b[..n] == [b[0]] + b[1..4] + b[4..n];
  }

  /** Whatever the bytes, framing loses none of them. */
  lemma {:induction false} ParseLosesNothing(b: seq<byte>)
    ensures Frames(Parse(b).packets) + Parse(b).rest == b
    decreases |b|
  {
    if HasFrame(b) {
      var n := 4 + GetU24(b[1..4]);
      var p, tail := Packet(b[0], b[4..n]), Parse(b[n..]);
      ParseLosesNothing(b[n..]);
      FrameOfBytes(b);
      assert ([p] + tail.packets)[1..] == tail.packets;
      Glue(Frame(p), Frames(tail.packets), tail.rest);
    }
  }

  // ----- Sending -----

  /** One atomic step of a sender, of the writer or of whoever closes the connection. The
      choice a select makes between ready cases, and whether and where a write fails, are
      part of the step. */
  datatype Event =
    | Send(p: Framed, picksDone: bool)
    | Take
    | Flush(fails: bool, bytes: nat)
    | Close
    | WriterStops

  /** A connection seen packet by packet: those waiting in the queue, those in the writer's
      batch, those written whole, and the bytes a failed write of the batch left behind. */
  datatype Link = Link(
    queued: seq<Framed>, batched: seq<Framed>, written: seq<Framed>, partial: seq<byte>,
    done: bool,                      // the done channel is closed
    stopped: bool)                   // the writer has returned

  const NEW_LINK: Link := Link([], [], [], [], false, false)

  ghost predicate Sound(l: Link) {
    && |l.queued| <= SEND_QUEUE_SIZE && |l.batched| <= BATCH_MAX_FRAMES
    && l.partial <= Frames(l.batched)
    && (l.partial != [] ==> l.stopped)
  }

  /** A frame is refused when the queue is full, or when the connection is closed and the
      select picks that case. */
  ghost predicate Accepts(l: Link, picksDone: bool) {
    !(l.done && picksDone) && |l.queued| < SEND_QUEUE_SIZE
  }

  ghost predicate CanTake(l: Link) {
    !l.stopped && l.queued != [] && |l.batched| < BATCH_MAX_FRAMES
  }

  /** A batch is written when it is full or the queue was found empty. */
  ghost predicate FlushDue(l: Link) {
    !l.stopped && l.batched != [] && (|l.batched| == BATCH_MAX_FRAMES || l.queued == [])
  }

  ghost function Apply(l: Link, e: Event): Link {
    match e
    case Send(p, picksDone) => if Accepts(l, picksDone) then l.(queued := l.queued + [p]) else l
    case Take => if CanTake(l) then l.(queued := l.queued[1..], batched := l.batched + [l.queued[0]]) else l
    case Flush(fails, bytes) =>
      if !FlushDue(l) then l
      else if fails then l.(partial := FirstBytes(Frames(l.batched), bytes), done := true, stopped := true)
      else l.(written := l.written + l.batched, batched := [])
    case Close => l.(done := true)
    case WriterStops => if l.done && l.batched == [] then l.(stopped := true) else l
  }

  lemma ApplySound(l: Link, e: Event)
    requires Sound(l)
    ensures Sound(Apply(l, e))
  {
  }

  lemma {:induction false} AfterSound(events: seq<Event>, k: nat)
    requires k <= |events|
    ensures Sound(After(events, k))
  {
    if k > 0 {
      AfterSound(events, k - 1);
      ApplySound(After(events, k - 1), events[k - 1]);
    }
  }

  // ----- The steps in numbers -----

  /** A send is queued at the end if the queue holds fewer than 256 frames and the connection is
      open, or the select does not pick its closing; otherwise nothing changes. */
  lemma SendMeaning(l: Link, p: Framed, picksDone: bool)
    ensures Apply(l, Send(p, picksDone)) ==
            if |l.queued| < 256 && (!l.done || !picksDone) then l.(queued := l.queued + [p]) else l
  {
  }

  /** The link after `n` takes. */
  ghost function TakeMany(l: Link, n: nat): Link {
    if n == 0 then l else Apply(TakeMany(l, n - 1), Take)
  }

  /** `n` takes on a running writer with an empty batch move the first packets of the queue into
      it, in order: `n` of them, or 16, or all there are, whichever is least. */
  lemma {:induction false} TakesMeaning(l: Link, n: nat, m: nat)
    requires !l.stopped && l.batched == []
    requires m <= n && m <= 16 && m <= |l.queued| && (m == n || m == 16 || m == |l.queued|)
    ensures TakeMany(l, n) == l.(queued := l.queued[m..], batched := l.queued[..m])
  {
    if n == 0 {
      assert l.queued[0..] == l.queued && l.queued[..0] == [];
    } else if m == n {
      TakesMeaning(l, n - 1, m - 1);
      assert l.queued[m - 1..][0] == l.queued[m - 1] && l.queued[m - 1..][1..] == l.queued[m..];
      assert l.queued[..m - 1] + [l.queued[m - 1]] == l.queued[..m];
    } else {
      TakesMeaning(l, n - 1, m);
    }
  }

  /** A full batch, or one that has emptied the queue, is then written whole, and the batch is
      empty again; a write that fails leaves a part of its bytes and closes the link. */
  lemma TakenIsWritten(l: Link, n: nat, m: nat, fails: bool, bytes: nat)
    requires !l.stopped && l.batched == [] && 1 <= m <= n && m <= |l.queued|
    requires m == 16 || (m < 16 && m == |l.queued|)
    ensures var l' := Apply(TakeMany(l, n), Flush(fails, bytes));
            if fails then l'.done && l'.stopped && l'.written == l.written && l'.partial == FirstBytes(Frames(l.queued[..m]), bytes)
            else l' == l.(queued := l.queued[m..], written := l.written + l.queued[..m])
  {
    TakesMeaning(l, n, m);
  }

  ghost function ApplyAll(l: Link, events: seq<Event>): Link {
    if events == [] then l else Apply(ApplyAll(l, events[..|events| - 1]), events[|events| - 1])
  }

  lemma ApplyOne(l: Link, events: seq<Event>, e: Event)
    ensures ApplyAll(l, events + [e]) == Apply(ApplyAll(l, events), e)
  {
    assert (events + [e])[..|events|] == events;
  }

  lemma {:induction false} ApplyConcat(l: Link, a: seq<Event>, b: seq<Event>)
    ensures ApplyAll(l, a + b) == ApplyAll(ApplyAll(l, a), b)
    decreases |b|
  {
    if b == [] {
      assert a + b == a;
    } else {
      assert (a + b)[..|a + b| - 1] == a + b[..|b| - 1];
      ApplyConcat(l, a, b[..|b| - 1]);
    }
  }

  lemma {:induction false} TakeManyIsRun(l: Link, n: nat) returns (events: seq<Event>)
    ensures ApplyAll(l, events) == TakeMany(l, n)
  {
    if n == 0 {
      events := [];
    } else {
      var before := TakeManyIsRun(l, n - 1);
      events := before + [Take];
      ApplyOne(l, before, Take);
      assert ApplyAll(l, events) == Apply(TakeMany(l, n - 1), Take);
    }
  }

  /** A running writer can always catch up: from any such link some run of takes and flushes
      writes everything that is queued, in order. */
  lemma {:induction false} WriterCatchesUp(l: Link) returns (events: seq<Event>)
    requires !l.stopped && l.batched == []
    ensures ApplyAll(l, events) == l.(queued := [], written := l.written + l.queued)
    decreases |l.queued|
  {
    if l.queued == [] {
      events := [];
      assert l.written + [] == l.written;
    } else {
      var m := if |l.queued| < 16 then |l.queued| else 16;
      var takes := TakeManyIsRun(l, m);
      TakenIsWritten(l, m, m, false, 0);
      var batch := takes + [Flush(false, 0)];
      ApplyOne(l, takes, Flush(false, 0));
      var l1 := ApplyAll(l, batch);
      var rest := WriterCatchesUp(l1);
      events := batch + rest;
      ApplyConcat(l, batch, rest);
      assert l.written + l.queued[..m] + l.queued[m..] == l.written + l.queued;
    }
  }

  function FirstBytes(b: seq<byte>, n: nat): seq<byte> {
    b[..if n < |b| then n else |b|]
  }

  ghost predicate Carries(frames: seq<seq<byte>>, ps: seq<Framed>) {
    |frames| == |ps| && forall i :: 0 <= i < |ps| ==> frames[i] == Frame(ps[i])
  }

  class TcpConn {
    var sendCh: seq<seq<byte>>       // queued frames
    var batch: seq<byte>             // the writer's buffer
    var drained: nat                 // frames in the buffer
    var wire: seq<byte>              // bytes handed to the socket
    var done: bool
    var stopped: bool
    ghost var link: Link

    /** The buffers hold the frames of the packets the link says they hold. */
    ghost predicate Valid()
      reads this
    {
      && Sound(link)
      && Carries(sendCh, link.queued)
      && batch == Frames(link.batched) && drained == |link.batched|
      && wire == Frames(link.written) + link.partial
      && done == link.done && stopped == link.stopped
    }

    constructor ()
      ensures Valid() && link == NEW_LINK
    {
      sendCh, batch, drained, wire, done, stopped := [], [], 0, [], false, false;
      link := NEW_LINK;
    }

    /** Queues a whole frame or drops it whole. */
    method Send(p: Framed, picksDone: bool) returns (queued: bool)
      requires Valid()
      modifies this
      ensures Valid() && link == Apply(old(link), Event.Send(p, picksDone))
      ensures queued <==> Accepts(old(link), picksDone)
    {
      link := Apply(link, Event.Send(p, picksDone));
      queued := !(done && picksDone) && |sendCh| < SEND_QUEUE_SIZE;
      if queued {
        sendCh := sendCh + [Frame(p)];
      }
    }

    /** The writer takes one more frame into its batch, if there is one and it has room. */
    method Take()
      requires Valid()
      modifies this
      ensures Valid() && link == Apply(old(link), Event.Take)
    {
      link := Apply(link, Event.Take);
      if stopped || sendCh == [] || drained >= BATCH_MAX_FRAMES {
        return;
      }
      AppendFrame(old(link.batched), old(link.queued)[0]);
      batch := batch + sendCh[0];
      drained := drained + 1;
      sendCh := sendCh[1..];
    }

    static lemma AppendFrame(ps: seq<Framed>, p: Framed)
      ensures Frames(ps + [p]) == Frames(ps) + Frame(p)
    {
      FramesConcat(ps, [p]);
      assert Frames([p]) == Frame(p);
    }

    /** Writes the batch if it is due. A failing write puts only its first bytes on the wire
        and closes the connection. */
    method Flush(fails: bool, bytes: nat)
      requires Valid()
      modifies this
      ensures Valid() && link == Apply(old(link), Event.Flush(fails, bytes))
    {
      ApplySound(link, Event.Flush(fails, bytes));
      link := Apply(link, Event.Flush(fails, bytes));
      if stopped || drained < 1 || !(drained == BATCH_MAX_FRAMES || sendCh == []) {
        return;
      }
      if fails {
        wire := wire + FirstBytes(batch, bytes);
        done, stopped := true, true;
      } else {
        WriteBatch(old(link));
        wire := wire + batch;
        batch, drained := [], 0;
      }
    }

    static lemma WriteBatch(l: Link)
      requires Sound(l) && !l.stopped
      ensures Frames(l.written) + l.partial + Frames(l.batched) == Frames(l.written + l.batched) + l.partial
    {
      FramesConcat(l.written, l.batched);
      assert l.partial == [];
      assert Frames(l.written) + l.partial == Frames(l.written);
      assert Frames(l.written + l.batched) + l.partial == Frames(l.written + l.batched);
    }

    method Close()
      requires Valid()
      modifies this
      ensures Valid() && link == Apply(old(link), Event.Close)
    {
      done := true;
      link := Apply(link, Event.Close);
    }

    /** Between batches the writer's select may find the connection closed. */
    method WriterStops()
      requires Valid()
      modifies this
      ensures Valid() && link == Apply(old(link), Event.WriterStops)
    {
      link := Apply(link, Event.WriterStops);
      if done && drained == 0 {
        stopped := true;
      }
    }

    method Perform(e: Event) returns (queued: bool)
      requires Valid()
      modifies this
      ensures Valid() && link == Apply(old(link), e)
      ensures queued <==> e.Send? && Accepts(old(link), e.picksDone)
    {
      queued := false;
      match e {
        case Send(p, picksDone) => queued := Send(p, picksDone);
        case Take => Take();
        case Flush(fails, bytes) => Flush(fails, bytes);
        case Close => Close();
        case WriterStops => WriterStops();
      }
    }
  }

  // ----- Runs -----

  /** The link after the first `k` steps of a run. */
  ghost function After(events: seq<Event>, k: nat): Link
    requires k <= |events|
  {
    if k == 0 then NEW_LINK else Apply(After(events, k - 1), events[k - 1])
  }

  /** Step `k` is a send that the connection accepts. */
  ghost predicate AcceptedAt(events: seq<Event>, k: nat)
    requires k < |events|
  {
    events[k].Send? && Accepts(After(events, k), events[k].picksDone)
  }

  /** A verdict for each of the first steps: was it an accepted send? */
  ghost predicate Told(events: seq<Event>, verdicts: seq<bool>) {
    |verdicts| <= |events| &&
    forall k {:trigger AcceptedAt(events, k)} :: 0 <= k < |verdicts| ==> (verdicts[k] <==> AcceptedAt(events, k))
  }

  lemma TellNext(events: seq<Event>, verdicts: seq<bool>, queued: bool)
    requires |verdicts| < |events| && Told(events, verdicts)
    requires queued <==> AcceptedAt(events, |verdicts|)
    ensures Told(events, verdicts + [queued])
  {
  }

  /** The packets of the accepted sends among the first `k` steps, in order. */
  ghost function Accepted(events: seq<Event>, k: nat): seq<Framed>
    requires k <= |events|
  {
    if k == 0 then []
    else Accepted(events, k - 1) + if AcceptedAt(events, k - 1) then [events[k - 1].p] else []
  }

  /** All packets of a link, in the order they will reach the wire. */
  ghost function Held(l: Link): seq<Framed> {
    l.written + (l.batched + l.queued)
  }

  lemma ApplyHeld(l: Link, e: Event)
    ensures Held(Apply(l, e)) == Held(l) + if e.Send? && Accepts(l, e.picksDone) then [e.p] else []
  {
    match e
    case Send(p, picksDone) => Regroup(l.written, l.batched, l.queued, [p]);
    case Take =>
      if CanTake(l) {
        assert l.queued == [l.queued[0]] + l.queued[1..];
        assert l.batched + [l.queued[0]] + l.queued[1..] == l.batched + l.queued;
      }
    case Flush(fails, bytes) =>
      assert l.written + (l.batched + l.queued) == (l.written + l.batched) + ([] + l.queued);
    case Close =>
    case WriterStops =>
  }

  lemma Regroup(a: seq<Framed>, b: seq<Framed>, c: seq<Framed>, d: seq<Framed>)
    ensures a + (b + (c + d)) == a + (b + c) + d
  {
  }

  /** Every accepted packet is written, in the batch or in the queue, in the order of the
      sends: none is lost, doubled, overtaken or invented, whatever the batches. */
  lemma {:induction false} NoPacketLost(events: seq<Event>, k: nat)
    requires k <= |events|
    ensures Held(After(events, k)) == Accepted(events, k)
  {
    if k > 0 {
      NoPacketLost(events, k - 1);
      ApplyHeld(After(events, k - 1), events[k - 1]);
    }
  }

  /** What is on the wire is a prefix of the frames of the accepted packets, and all of them
      once queue and batch are empty. */
  lemma WireIsPrefix(l: Link, accepted: seq<Framed>)
    requires Sound(l) && Held(l) == accepted
    ensures Frames(l.written) + l.partial <= Frames(accepted)
    ensures l.batched == l.queued == [] ==> Frames(l.written) + l.partial == Frames(accepted)
  {
    FramesConcat(l.batched, l.queued);
    FramesConcat(l.written, l.batched + l.queued);
    assert l.partial <= Frames(l.batched) <= Frames(l.batched + l.queued);
  }

  /** The packets are the accepted ones whose frames are complete within the bytes seen. */
  ghost predicate CompleteWithin(packets: seq<Framed>, accepted: seq<Framed>, seen: seq<byte>)
  {
    && packets <= accepted && Frames(packets) <= seen
    && (|packets| < |accepted| ==> |seen| < |Frames(packets)| + |Frame(accepted[|packets|])|)
  }

  /** Steps of senders, writer and closers: each send is accepted or dropped by the state it
      meets. */
  method Perform(events: seq<Event>) returns (verdicts: seq<bool>, wire: seq<byte>)
    ensures |verdicts| == |events| && Told(events, verdicts)
    ensures var l := After(events, |events|); wire == Frames(l.written) + l.partial
  {
    var c := new TcpConn();
    verdicts := [];
    while |verdicts| < |events|
      invariant fresh(c) && c.Valid() && Told(events, verdicts)
      invariant c.link == After(events, |verdicts|)
      decreases |events| - |verdicts|
    {
      var queued := c.Perform(events[|verdicts|]);
      TellNext(events, verdicts, queued);
      verdicts := verdicts + [queued];
    }
    wire := c.wire;
  }

  /** Every run of senders, writer and closers, however frames fall into batches, whichever
      sends are dropped and wherever the connection breaks: the wire carries the frames of the
      accepted packets up to some byte, and a reader that has received any prefix of it has
      exactly the accepted packets whose frames are complete in that prefix - all of them,
      once the writer has caught up and everything has arrived. */
  method Run(events: seq<Event>, received: nat)
    returns (verdicts: seq<bool>, wire: seq<byte>, packets: seq<Framed>)
    ensures |verdicts| == |events| && Told(events, verdicts)
    ensures var l := After(events, |events|); wire == Frames(l.written) + l.partial
    ensures CompleteWithin(packets, Accepted(events, |events|), FirstBytes(wire, received))
    ensures var l := After(events, |events|);
            received >= |wire| && l.batched == l.queued == [] ==> packets == Accepted(events, |events|)
  {
    verdicts, wire := Perform(events);
    NoPacketLost(events, |events|);
    AfterSound(events, |events|);
    WireIsPrefix(After(events, |events|), Accepted(events, |events|));
    var left: seq<byte>;
    packets, left := ReadLoop(FirstBytes(wire, received));
    ghost var k := ReaderRecovers(Accepted(events, |events|), FirstBytes(wire, received));
  }
}
