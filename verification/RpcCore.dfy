/** The RPC engine: registered calls, the races between responses, send failures and the
    timeout scan, and the posting of callbacks. */
module RpcCore {
  import opened Basics
  import Codec

  type SeqId = nat
  type Time = nat
  type Code = Codec.int32
  type Payload = seq<byte>
  type ReleaseId = nat

  const OK: Code := 0
  const ERR_INTERNAL: Code := 1
  const ERR_TIMEOUT: Code := 2

  datatype Inflight = Inflight(deadline: Option<Time>)

  type Pending = map<SeqId, Inflight>

  /** A completion that has been claimed: the one call of one callback. */
  datatype Job = Job(seqId: SeqId, payload: Payload, code: Code, release: Option<ReleaseId>)

  // ----- The engine's own operations -----

  /** The timeout of a request: the context's remaining time, else the default; shortened
      by the target's own deadline. */
  function RequestTimeout(remaining: int, default: int, override: int): int {
    var t := if remaining <= 0 then default else remaining;
    if override > 0 && override < t then override else t
  }

  function DeadlineOf(now: Time, timeout: int): Option<Time> {
    if timeout > 0 then Some(now + timeout) else None
  }

  /** The deadline in numbers: the base is the context's remaining time, or the default if none
      remains. Without a positive base there is no deadline; otherwise it is now plus the
      smaller of the base and a positive override. */
  lemma DeadlineMeaning(now: Time, remaining: int, default: int, override: int)
    ensures var base := if remaining > 0 then remaining else default;
            var d := DeadlineOf(now, RequestTimeout(remaining, default, override));
            && (d.None? <==> base <= 0)
            && (d.Some? ==>
                  var t := d.value - now;
                  0 < t <= base && (override > 0 ==> t <= override) && (t == base || t == override))
  {
  }

  predicate IsExpired(f: Inflight, now: Time) {
    f.deadline.Some? && now > f.deadline.value
  }

  function ExpiredKeys(pending: Pending, now: Time): set<SeqId> {
    set s | s in pending && IsExpired(pending[s], now)
  }

  function SendFailureCode(code: Code): Code {
    if code == OK then ERR_INTERNAL else code
  }

  lemma ScanStep(m: Pending, gone: set<SeqId>, id: SeqId, expired: seq<SeqId>)
    requires id !in gone && multiset(expired) == multiset(gone)
    ensures (m - gone) - {id} == m - (gone + {id})
    ensures multiset(expired + [id]) == multiset(gone + {id})
  {
  }

  class Core {
    const timeout: int
    var seqNo: nat
    var pending: Pending

    constructor (timeout: int)
      ensures seqNo == 0 && pending == map[] && this.timeout == timeout
    {
      this.timeout := timeout;
      seqNo, pending := 0, map[];
    }

    /** The engine's part of a system state. */
    ghost predicate Views(s: State)
      reads this
    {
      s.seqNo == seqNo && s.pending == pending
    }

    /** The first half of Call: take a number and register the callback under it. */
    method Register(now: Time, remaining: int, override: int, ghost s: State) returns (id: SeqId)
      requires Views(s)
      modifies this
      ensures Views(OnRegister(s, DeadlineOf(now, RequestTimeout(remaining, timeout, override))))
      ensures id == seqNo == old(seqNo) + 1
      ensures pending == old(pending)[id := Inflight(DeadlineOf(now, RequestTimeout(remaining, timeout, override)))]
    {
      seqNo := seqNo + 1;
      id := seqNo;
      var reqTimeout := remaining;
      if reqTimeout <= 0 {
        reqTimeout := timeout;
      }
      if override > 0 && override < reqTimeout {
        reqTimeout := override;
      }
      pending := pending[id := Inflight(if reqTimeout > 0 then Some(now + reqTimeout) else None)];
    }

    /** The locked section shared by a failed send and a response: whoever finds the call
        pending removes it and owns its completion. */
    method Claim(id: SeqId, ghost s: State) returns (claimed: bool)
      requires Views(s)
      modifies this`pending
      ensures forall code :: Views(OnSendFailed(s, id, code))
      ensures forall payload, code, hasRelease :: Views(OnResponse(s, id, payload, code, hasRelease))
      ensures claimed <==> id in old(pending)
      ensures pending == old(pending) - {id}
    {
      claimed := id in pending;
      if claimed {
        pending := pending - {id};
      } else {
        assert pending - {id} == pending;
      }
    }

    /** The locked section of the timeout scan. */
    method ScanExpired(now: Time, ghost s: State) returns (expired: seq<SeqId>)
      requires Views(s)
      modifies this`pending
      ensures Views(OnScan(s, now, expired))
      ensures multiset(expired) == multiset(ExpiredKeys(old(pending), now))
      ensures pending == old(pending) - ExpiredKeys(old(pending), now)
    {
      expired := [];
      var todo := pending.Keys;
      ghost var hit, gone: set<SeqId> := ExpiredKeys(pending, now), {};
      while todo != {}
        invariant gone <= hit <= gone + todo && gone !! todo && todo <= old(pending).Keys
        invariant pending == old(pending) - gone
        invariant multiset(expired) == multiset(gone)
        decreases todo
      {
        var id :| id in todo;
        if IsExpired(pending[id], now) {
          ScanStep(old(pending), gone, id, expired);
          pending := pending - {id};
          expired := expired + [id];
          gone := gone + {id};
        }
        todo := todo - {id};
      }
      assert gone == hit;
    }
  }

  /** After a scan at time t no pending call has a deadline before t, and no unexpired call
      was touched. */
  lemma ScanIsExact(pending: Pending, t: Time)
    ensures var rest := pending - ExpiredKeys(pending, t);
            && (forall s :: s in rest ==> rest[s].deadline.None? || rest[s].deadline.value >= t)
            && (forall s :: s in pending && (pending[s].deadline.None? || pending[s].deadline.value >= t) ==>
                  s in rest && rest[s] == pending[s])
            && rest.Keys <= pending.Keys
  {
  }

  // ----- All interleavings -----

  datatype Effect =
    | Completed(job: Job)            // the callback ran
    | Released(id: ReleaseId)        // the payload was given back after its callback
    | Discarded(id: ReleaseId)       // the payload of an unknown sequence number was given back at once

  datatype State = State(
    seqNo: nat, pending: Pending,
    claimed: seq<Job>,               // removed from pending, not yet handed to the poster
    queue: seq<Job>,                 // posted closures, in order
    owed: seq<Job>,                  // callbacks that have run and still owe their release
    trace: seq<Effect>,
    releases: nat)                   // release actions handed in so far

  /** One atomic step of some goroutine. `Scan` carries the order in which the scan met the
      expired calls, which Go leaves open. */
  datatype Event =
    | Register(deadline: Option<Time>)
    | SendFailed(id: SeqId, code: Code)
    | Response(id: SeqId, payload: Payload, code: Code, hasRelease: bool)
    | Scan(now: Time, order: seq<SeqId>)
    | Dispatch(i: nat)
    | RunNext
    | Release(i: nat)

  function TimeoutJobs(ids: seq<SeqId>): seq<Job> {
    seq(|ids|, i requires 0 <= i < |ids| => Job(ids[i], [], ERR_TIMEOUT, None))
  }

  function Owes(job: Job): seq<Job> {
    if job.release.Some? then [job] else []
  }

  /** Running a callback; its release action is deferred until after it. */
  function RunJob(s: State, job: Job): State {
    s.(trace := s.trace + [Completed(job)], owed := s.owed + Owes(job))
  }

  function OnRegister(s: State, deadline: Option<Time>): State {
    s.(seqNo := s.seqNo + 1, pending := s.pending[s.seqNo + 1 := Inflight(deadline)])
  }

  function OnSendFailed(s: State, id: SeqId, code: Code): State {
    if id !in s.pending then s
    else s.(pending := s.pending - {id}, claimed := s.claimed + [Job(id, [], SendFailureCode(code), None)])
  }

  function OnResponse(s: State, id: SeqId, payload: Payload, code: Code, hasRelease: bool): State {
    var r := if hasRelease then Some(s.releases + 1) else None;
    var s1 := if hasRelease then s.(releases := s.releases + 1) else s;
    if id in s.pending then s1.(pending := s.pending - {id}, claimed := s.claimed + [Job(id, payload, code, r)])
    else if hasRelease then s1.(trace := s.trace + [Discarded(s.releases + 1)])
    else s1
  }

  function OnScan(s: State, now: Time, order: seq<SeqId>): State {
    if multiset(order) != multiset(ExpiredKeys(s.pending, now)) then s
    else s.(pending := s.pending - ExpiredKeys(s.pending, now), claimed := s.claimed + TimeoutJobs(order))
  }

  /** Hands one claimed completion to the poster; without one, the callback runs on the spot. */
  function OnDispatch(s: State, hasPoster: bool, i: nat): State {
    if i >= |s.claimed| then s
    else
      var s1 := s.(claimed := s.claimed[..i] + s.claimed[i + 1..]);
      if hasPoster then s1.(queue := s.queue + [s.claimed[i]])
      else RunJob(s1, s.claimed[i])
  }

  function OnRunNext(s: State): State {
    if s.queue == [] then s
    else RunJob(s.(queue := s.queue[1..]), s.queue[0])
  }

  /** A goroutine whose callback has run gives its payload back. */
  function OnRelease(s: State, i: nat): State {
    if i >= |s.owed| || s.owed[i].release.None? then s
    else s.(owed := s.owed[..i] + s.owed[i + 1..], trace := s.trace + [Released(s.owed[i].release.value)])
  }

  function Next(s: State, hasPoster: bool, e: Event): State {
    match e
    case Register(deadline) => OnRegister(s, deadline)
    case SendFailed(id, code) => OnSendFailed(s, id, code)
    case Response(id, payload, code, hasRelease) => OnResponse(s, id, payload, code, hasRelease)
    case Scan(now, order) => OnScan(s, now, order)
    case Dispatch(i) => OnDispatch(s, hasPoster, i)
    case RunNext => OnRunNext(s)
    case Release(i) => OnRelease(s, i)
  }

  const INIT: State := State(0, map[], [], [], [], [], 0)

  function Run(hasPoster: bool, events: seq<Event>): State {
    if events == [] then INIT
    else Next(Run(hasPoster, events[..|events| - 1]), hasPoster, events[|events| - 1])
  }

  // ----- Counting -----

  /** How often a call occurs among claimed or posted completions. */
  ghost function CallCount(jobs: seq<Job>, id: SeqId): nat {
    if jobs == [] then 0 else CallCount(jobs[..|jobs| - 1], id) + if jobs[|jobs| - 1].seqId == id then 1 else 0
  }

  /** How often a call's callback ran. */
  ghost function RunCount(trace: seq<Effect>, id: SeqId): nat {
    if trace == [] then 0 else
      var e := trace[|trace| - 1];
      RunCount(trace[..|trace| - 1], id) + if e.Completed? && e.job.seqId == id then 1 else 0
  }

  ghost function HeldCount(jobs: seq<Job>, r: ReleaseId): nat {
    if jobs == [] then 0 else HeldCount(jobs[..|jobs| - 1], r) + if jobs[|jobs| - 1].release == Some(r) then 1 else 0
  }

  ghost function GivenBackCount(trace: seq<Effect>, r: ReleaseId): nat {
    if trace == [] then 0 else
      var e := trace[|trace| - 1];
      GivenBackCount(trace[..|trace| - 1], r) + if !e.Completed? && e.id == r then 1 else 0
  }

  /** The number of places a call is in: pending, claimed by a goroutine, posted, completed. */
  ghost function Places(s: State, id: SeqId): nat {
    (if id in s.pending then 1 else 0) + CallCount(s.claimed, id) + CallCount(s.queue, id) + RunCount(s.trace, id)
  }

  ghost function ReleasePlaces(s: State, r: ReleaseId): nat {
    HeldCount(s.claimed, r) + HeldCount(s.queue, r) + HeldCount(s.owed, r) + GivenBackCount(s.trace, r)
  }

  ghost function OneUpTo(n: nat, id: nat): nat {
    if 1 <= id <= n then 1 else 0
  }

  /** Call `n`, if issued, is in exactly one place, exactly once, and likewise release `n`. */
  ghost predicate Counted(s: State, n: nat) {
    Places(s, n) == OneUpTo(s.seqNo, n) && ReleasePlaces(s, n) == OneUpTo(s.releases, n)
  }

  /** The callback that a release action belongs to has run within the first `k` effects. */
  ghost predicate CallbackRan(trace: seq<Effect>, r: ReleaseId, k: nat)
    requires k <= |trace|
  {
    exists j :: 0 <= j < k && trace[j].Completed? && trace[j].job.release == Some(r)
  }

  /** A release that belongs to a callback comes after that callback. */
  ghost predicate ReleaseFollowsCallback(trace: seq<Effect>) {
    forall k {:trigger trace[k]} :: 0 <= k < |trace| && trace[k].Released? ==> CallbackRan(trace, trace[k].id, k)
  }

  ghost predicate OwedAfterCallback(s: State) {
    forall i {:trigger s.owed[i]} :: 0 <= i < |s.owed| && s.owed[i].release.Some? ==>
      CallbackRan(s.trace, s.owed[i].release.value, |s.trace|)
  }

  ghost predicate Inv(s: State) {
    (forall n {:trigger Counted(s, n)} :: Counted(s, n)) && ReleaseFollowsCallback(s.trace) && OwedAfterCallback(s)
  }

  lemma RanStays(trace: seq<Effect>, more: Effect, r: ReleaseId, k: nat)
    requires k <= |trace| && CallbackRan(trace, r, k)
    ensures CallbackRan(trace + [more], r, k) && CallbackRan(trace + [more], r, |trace| + 1)
  {
    var j :| 0 <= j < k && trace[j].Completed? && trace[j].job.release == Some(r);
    assert (trace + [more])[j] == trace[j];
  }

  /** One more effect, and other owed releases, keep the order of callbacks and releases. */
  lemma OrderStep(s: State, s': State, e: Effect)
    requires ReleaseFollowsCallback(s.trace) && OwedAfterCallback(s) && s'.trace == s.trace + [e]
    requires e.Released? ==> exists j :: j in s.owed && j.release == Some(e.id)
    requires forall j :: j in s'.owed ==> j in s.owed || e == Completed(j)
    ensures ReleaseFollowsCallback(s'.trace) && OwedAfterCallback(s')
  {
    forall k | 0 <= k < |s'.trace| && s'.trace[k].Released? ensures CallbackRan(s'.trace, s'.trace[k].id, k) {
      if k < |s.trace| {
        assert s.trace[k] == s'.trace[k];
        RanStays(s.trace, e, s.trace[k].id, k);
      } else {
        RanStays(s.trace, e, e.id, |s.trace|);
      }
    }
    forall i | 0 <= i < |s'.owed| && s'.owed[i].release.Some?
      ensures CallbackRan(s'.trace, s'.owed[i].release.value, |s'.trace|)
    {
      if s'.owed[i] in s.owed {
        RanStays(s.trace, e, s'.owed[i].release.value, |s.trace|);
      } else {
        assert s'.trace[|s.trace|] == e;
      }
    }
  }

  lemma {:induction false} CountConcat(a: seq<Job>, b: seq<Job>, n: nat)
    ensures CallCount(a + b, n) == CallCount(a, n) + CallCount(b, n)
    ensures HeldCount(a + b, n) == HeldCount(a, n) + HeldCount(b, n)
    decreases |b|
  {
    if b == [] {
      assert a + b == a;
    } else {
      assert (a + b)[..|a + b| - 1] == a + b[..|b| - 1];
      CountConcat(a, b[..|b| - 1], n);
    }
  }

  lemma CountOne(a: seq<Job>, j: Job, n: nat)
    ensures CallCount(a + [j], n) == CallCount(a, n) + if j.seqId == n then 1 else 0
    ensures HeldCount(a + [j], n) == HeldCount(a, n) + if j.release == Some(n) then 1 else 0
  {
    assert (a + [j])[..|a|] == a;
  }

  lemma CountRemove(jobs: seq<Job>, i: nat, n: nat)
    requires i < |jobs|
    ensures CallCount(jobs, n) == CallCount(jobs[..i] + jobs[i + 1..], n) + if jobs[i].seqId == n then 1 else 0
    ensures HeldCount(jobs, n) == HeldCount(jobs[..i] + jobs[i + 1..], n) + if jobs[i].release == Some(n) then 1 else 0
  {
    assert jobs == (jobs[..i] + [jobs[i]]) + jobs[i + 1..];
    CountConcat(jobs[..i] + [jobs[i]], jobs[i + 1..], n);
    CountOne(jobs[..i], jobs[i], n);
    CountConcat(jobs[..i], jobs[i + 1..], n);
  }

  lemma {:induction false} CountTimeouts(ids: seq<SeqId>, n: nat)
    ensures CallCount(TimeoutJobs(ids), n) == multiset(ids)[n]
    ensures HeldCount(TimeoutJobs(ids), n) == 0
  {
    if ids != [] {
      var rest := ids[..|ids| - 1];
      CountTimeouts(rest, n);
      assert TimeoutJobs(ids)[..|ids| - 1] == TimeoutJobs(rest);
      assert ids == rest + [ids[|ids| - 1]];
    }
  }

  lemma TraceAppend(trace: seq<Effect>, e: Effect, n: nat)
    ensures RunCount(trace + [e], n) == RunCount(trace, n) + if e.Completed? && e.job.seqId == n then 1 else 0
    ensures GivenBackCount(trace + [e], n) == GivenBackCount(trace, n) + if !e.Completed? && e.id == n then 1 else 0
  {
    assert (trace + [e])[..|trace|] == trace;
  }

  /** Running a job completes its call and leaves its release owed. */
  lemma RunJobCounts(trace: seq<Effect>, owed: seq<Job>, j: Job, n: nat)
    ensures RunCount(trace + [Completed(j)], n) == RunCount(trace, n) + if j.seqId == n then 1 else 0
    ensures GivenBackCount(trace + [Completed(j)], n) == GivenBackCount(trace, n)
    ensures HeldCount(owed + Owes(j), n) == HeldCount(owed, n) + if j.release == Some(n) then 1 else 0
  {
    TraceAppend(trace, Completed(j), n);
    CountOne(owed, j, n);
    assert owed + [] == owed;
  }

  lemma FailureCounts(s: State, id: SeqId, code: Code, n: nat)
    requires Counted(s, n)
    ensures Counted(OnSendFailed(s, id, code), n)
  {
    if id in s.pending {
      ClaimCounts(s, OnSendFailed(s, id, code), Job(id, [], SendFailureCode(code), None), n);
    }
  }

  lemma ClaimCounts(s: State, s': State, j: Job, n: nat)
    requires Counted(s, n) && j.seqId in s.pending
    requires s'.pending == s.pending - {j.seqId} && s'.claimed == s.claimed + [j]
    requires s'.queue == s.queue && s'.owed == s.owed && s'.trace == s.trace && s'.seqNo == s.seqNo
    requires s'.releases == s.releases + (if j.release.Some? then 1 else 0)
    requires j.release.Some? ==> j.release.value == s'.releases
    ensures Counted(s', n)
  {
    CountOne(s.claimed, j, n);
  }

  lemma ResponseCounts(s: State, id: SeqId, payload: Payload, code: Code, hasRelease: bool, n: nat)
    requires Counted(s, n)
    ensures Counted(OnResponse(s, id, payload, code, hasRelease), n)
  {
    var s' := OnResponse(s, id, payload, code, hasRelease);
    if id in s.pending {
      ClaimCounts(s, s', Job(id, payload, code, if hasRelease then Some(s.releases + 1) else None), n);
    } else if hasRelease {
      DiscardCounts(s, s', n);
    }
  }

  lemma DiscardCounts(s: State, s': State, n: nat)
    requires Counted(s, n) && s' == s.(releases := s.releases + 1, trace := s.trace + [Discarded(s.releases + 1)])
    ensures Counted(s', n)
  {
    TraceAppend(s.trace, Discarded(s.releases + 1), n);
  }

  lemma ScanCounts(s: State, now: Time, order: seq<SeqId>, n: nat)
    requires Counted(s, n)
    ensures Counted(OnScan(s, now, order), n)
  {
    CountConcat(s.claimed, TimeoutJobs(order), n);
    CountTimeouts(order, n);
    assert multiset(ExpiredKeys(s.pending, now))[n] == if n in ExpiredKeys(s.pending, now) then 1 else 0;
  }

  lemma DispatchCounts(s: State, hasPoster: bool, i: nat, n: nat)
    requires Counted(s, n)
    ensures Counted(OnDispatch(s, hasPoster, i), n)
  {
    if i < |s.claimed| {
      CountRemove(s.claimed, i, n);
      CountOne(s.queue, s.claimed[i], n);
      RunJobCounts(s.trace, s.owed, s.claimed[i], n);
    }
  }

  lemma CountHead(jobs: seq<Job>, n: nat)
    requires jobs != []
    ensures CallCount(jobs, n) == CallCount(jobs[1..], n) + if jobs[0].seqId == n then 1 else 0
    ensures HeldCount(jobs, n) == HeldCount(jobs[1..], n) + if jobs[0].release == Some(n) then 1 else 0
  {
    CountRemove(jobs, 0, n);
    assert jobs[..0] + jobs[0 + 1..] == jobs[1..];
  }

  lemma RunNextCounts(s: State, n: nat)
    requires Counted(s, n)
    ensures Counted(OnRunNext(s), n)
  {
    if s.queue != [] {
      CountHead(s.queue, n);
      RunJobCounts(s.trace, s.owed, s.queue[0], n);
    }
  }

  lemma ReleaseCounts(s: State, i: nat, n: nat)
    requires Counted(s, n)
    ensures Counted(OnRelease(s, i), n)
  {
    if i < |s.owed| && s.owed[i].release.Some? {
      TraceAppend(s.trace, Released(s.owed[i].release.value), n);
      CountRemove(s.owed, i, n);
    }
  }

  /** Every step keeps the count of every call and of every release. */
  lemma NextCounts(s: State, hasPoster: bool, e: Event, n: nat)
    requires Counted(s, n)
    ensures Counted(Next(s, hasPoster, e), n)
  {
    match e
    case Register(deadline) =>
    case SendFailed(id, code) => FailureCounts(s, id, code, n);
    case Response(id, payload, code, hasRelease) => ResponseCounts(s, id, payload, code, hasRelease, n);
    case Scan(now, order) => ScanCounts(s, now, order, n);
    case Dispatch(i) => DispatchCounts(s, hasPoster, i, n);
    case RunNext => RunNextCounts(s, n);
    case Release(i) => ReleaseCounts(s, i, n);
  }

  /** Every step of every goroutine keeps the invariant. */
  lemma NextKeepsInv(s: State, hasPoster: bool, e: Event)
    requires Inv(s)
    ensures Inv(Next(s, hasPoster, e))
  {
    var s' := Next(s, hasPoster, e);
    forall n: nat ensures Counted(s', n) {
      assert Counted(s, n);
      NextCounts(s, hasPoster, e, n);
    }
    NextKeepsOrder(s, hasPoster, e);
  }

  lemma NextKeepsOrder(s: State, hasPoster: bool, e: Event)
    requires ReleaseFollowsCallback(s.trace) && OwedAfterCallback(s)
    ensures var s' := Next(s, hasPoster, e); ReleaseFollowsCallback(s'.trace) && OwedAfterCallback(s')
  {
    var s' := Next(s, hasPoster, e);
    if e.Dispatch? && e.i < |s.claimed| && !hasPoster {
      OrderStep(s, s', Completed(s.claimed[e.i]));
    } else if e.RunNext? && s.queue != [] {
      OrderStep(s, s', Completed(s.queue[0]));
    } else if e.Release? && e.i < |s.owed| && s.owed[e.i].release.Some? {
      OrderStep(s, s', Released(s.owed[e.i].release.value));
    } else if e.Response? && e.hasRelease && e.id !in s.pending {
      OrderStep(s, s', Discarded(s.releases + 1));
    }
  }

  lemma {:induction false} RunKeepsInv(hasPoster: bool, events: seq<Event>)
    ensures Inv(Run(hasPoster, events))
  {
    if events != [] {
      RunKeepsInv(hasPoster, events[..|events| - 1]);
      NextKeepsInv(Run(hasPoster, events[..|events| - 1]), hasPoster, events[|events| - 1]);
    }
  }

  /** In every interleaving each call completes at most once, and exactly once if it is no
      longer pending, claimed or posted; nothing else ever completes. */
  lemma ExactlyOnce(hasPoster: bool, events: seq<Event>, id: SeqId)
    ensures var s := Run(hasPoster, events);
            && RunCount(s.trace, id) <= 1
            && (RunCount(s.trace, id) == 1 ==> 1 <= id <= s.seqNo && id !in s.pending)
            && (1 <= id <= s.seqNo && id !in s.pending && CallCount(s.claimed, id) == 0 && CallCount(s.queue, id) == 0 ==>
                  RunCount(s.trace, id) == 1)
  {
    RunKeepsInv(hasPoster, events);
    assert Counted(Run(hasPoster, events), id);
  }

  /** In every interleaving each release action runs at most once, exactly once when no
      claimed or posted completion holds it and none is owed, and never before its callback. */
  lemma ReleasedOnce(hasPoster: bool, events: seq<Event>, r: ReleaseId)
    ensures var s := Run(hasPoster, events);
            && GivenBackCount(s.trace, r) <= 1
            && (1 <= r <= s.releases && HeldCount(s.claimed, r) == 0 && HeldCount(s.queue, r) == 0 &&
                HeldCount(s.owed, r) == 0 ==>
                  GivenBackCount(s.trace, r) == 1)
            && ReleaseFollowsCallback(s.trace)
  {
    RunKeepsInv(hasPoster, events);
    assert Counted(Run(hasPoster, events), r);
  }

  /** In any reachable state, the release action of a response to a number that is not pending
      runs in the same step, for the first and only time. */
  lemma UnknownReleasedAtOnce(s: State, hasPoster: bool, id: SeqId, payload: Payload, code: Code)
    requires Inv(s) && id !in s.pending
    ensures var s' := Next(s, hasPoster, Response(id, payload, code, true));
            && GivenBackCount(s.trace, s.releases + 1) == 0 && GivenBackCount(s'.trace, s.releases + 1) == 1
            && s'.releases == s.releases + 1
  {
    assert Counted(s, s.releases + 1);
    DiscardGivesBack(s, id, payload, code);
  }

  lemma DiscardGivesBack(s: State, id: SeqId, payload: Payload, code: Code)
    requires id !in s.pending && Counted(s, s.releases + 1)
    ensures GivenBackCount(s.trace, s.releases + 1) == 0
    ensures GivenBackCount(OnResponse(s, id, payload, code, true).trace, s.releases + 1) == 1
  {
    TraceAppend(s.trace, Discarded(s.releases + 1), s.releases + 1);
  }

  /** A call leaves `pending` exactly in the step in which its one completion is claimed. */
  lemma LeavesPendingWhenClaimed(s: State, hasPoster: bool, e: Event, id: SeqId)
    requires Inv(s) && id in s.pending
    ensures var s' := Next(s, hasPoster, e);
            && CallCount(s.claimed, id) == 0
            && (id in s'.pending <==> CallCount(s'.claimed, id) == 0)
            && CallCount(s'.claimed, id) <= 1
  {
    NextKeepsInv(s, hasPoster, e);
    var s' := Next(s, hasPoster, e);
    assert Counted(s, id) && Counted(s', id);
    PendingOrCompletions(s, hasPoster, e, id);
    OnePlace(s, s', id);
  }

  lemma OnePlace(s: State, s': State, id: SeqId)
    requires Counted(s, id) && Counted(s', id) && id in s.pending
    requires s'.pending == s.pending ||
             (CallCount(s'.queue, id) == CallCount(s.queue, id) && RunCount(s'.trace, id) == RunCount(s.trace, id))
    requires s.seqNo <= s'.seqNo
    ensures CallCount(s.claimed, id) == 0 && CallCount(s'.claimed, id) <= 1
    ensures id in s'.pending <==> CallCount(s'.claimed, id) == 0
  {
  }

  /** A step changes `pending`, or the posted and completed calls, never both. */
  lemma PendingOrCompletions(s: State, hasPoster: bool, e: Event, id: SeqId)
    ensures var s' := Next(s, hasPoster, e);
            && s.seqNo <= s'.seqNo
            && (s'.pending == s.pending ||
                (CallCount(s'.queue, id) == CallCount(s.queue, id) && RunCount(s'.trace, id) == RunCount(s.trace, id)))
  {
    if e.Response? {
      TraceAppend(s.trace, Discarded(s.releases + 1), id);
    }
  }

  // ----- What a callback is told -----

  /** The completion is on its way or has run. */
  ghost predicate Has(s: State, job: Job) {
    job in s.claimed || job in s.queue || Completed(job) in s.trace
  }

  /** The event, met by a state in which the call is pending, is what the completion reports: a
      response with exactly its payload and code; a failed send, with no payload and the
      transport's code, or 1 if that is 0; or a scan after the deadline, with no payload and
      code 2. */
  ghost predicate Reports(s: State, e: Event, job: Job) {
    && job.seqId in s.pending
    && match e
       case Response(id, payload, code, hasRelease) =>
         id == job.seqId && payload == job.payload && code == job.code && (job.release.Some? <==> hasRelease)
       case SendFailed(id, code) =>
         id == job.seqId && job.payload == [] && job.release.None? && job.code == if code == 0 then 1 else code
       case Scan(now, _) =>
         && s.pending[job.seqId].deadline.Some? && now > s.pending[job.seqId].deadline.value
         && job.payload == [] && job.release.None? && job.code == 2
       case _ => false
  }

  lemma TimeoutJobIn(ids: seq<SeqId>, job: Job)
    requires job in TimeoutJobs(ids)
    ensures job.seqId in ids && job == Job(job.seqId, [], ERR_TIMEOUT, None)
  {
  }

  /** A completion that is there after a step was there before, or reports that step. */
  lemma NewJobReports(s: State, hasPoster: bool, e: Event, job: Job)
    requires Has(Next(s, hasPoster, e), job)
    ensures Has(s, job) || Reports(s, e, job)
  {
    if e.Scan? && job in TimeoutJobs(e.order) && multiset(e.order) == multiset(ExpiredKeys(s.pending, e.now)) {
      TimeoutJobIn(e.order, job);
      assert job.seqId in multiset(e.order);
    }
  }

  lemma {:induction false} JobReports(hasPoster: bool, events: seq<Event>, job: Job) returns (k: nat)
    requires Has(Run(hasPoster, events), job)
    ensures k < |events| && Reports(Run(hasPoster, events[..k]), events[k], job)
  {
    var before := events[..|events| - 1];
    NewJobReports(Run(hasPoster, before), hasPoster, events[|events| - 1], job);
    if Has(Run(hasPoster, before), job) {
      k := JobReports(hasPoster, before, job);
      assert before[..k] == events[..k];
    } else {
      k := |events| - 1;
    }
  }

  /** In every interleaving each completion reports an event that met its call pending. */
  lemma CompletionReports(hasPoster: bool, events: seq<Event>, job: Job) returns (k: nat)
    requires Completed(job) in Run(hasPoster, events).trace
    ensures k < |events| && Reports(Run(hasPoster, events[..k]), events[k], job)
  {
    k := JobReports(hasPoster, events, job);
  }

  ghost function CompletedJobs(trace: seq<Effect>): seq<Job> {
    if trace == [] then [] else
      var e := trace[|trace| - 1];
      CompletedJobs(trace[..|trace| - 1]) + if e.Completed? then [e.job] else []
  }

  lemma CompletedJobsOne(trace: seq<Effect>, e: Effect)
    ensures CompletedJobs(trace + [e]) == CompletedJobs(trace) + if e.Completed? then [e.job] else []
  {
    assert (trace + [e])[..|trace|] == trace;
  }

  /** Everything ever posted, in order: what has run, and what is queued. */
  ghost function Posted(s: State): seq<Job> {
    CompletedJobs(s.trace) + s.queue
  }

  lemma RunNextPosts(s: State)
    ensures Posted(OnRunNext(s)) == Posted(s)
  {
    if s.queue != [] {
      CompletedJobsOne(s.trace, Completed(s.queue[0]));
      var done := CompletedJobs(s.trace);
      assert done + [s.queue[0]] + s.queue[1..] == done + s.queue;
    }
  }

  lemma DispatchPosts(s: State, i: nat)
    requires i < |s.claimed|
    ensures Posted(OnDispatch(s, true, i)) == Posted(s) + [s.claimed[i]]
  {
    var done := CompletedJobs(s.trace);
    assert done + (s.queue + [s.claimed[i]]) == done + s.queue + [s.claimed[i]];
  }

  lemma ResponsePosts(s: State, id: SeqId, payload: Payload, code: Code, hasRelease: bool)
    ensures Posted(OnResponse(s, id, payload, code, hasRelease)) == Posted(s)
  {
    CompletedJobsOne(s.trace, Discarded(s.releases + 1));
  }

  lemma ReleasePosts(s: State, i: nat)
    ensures Posted(OnRelease(s, i)) == Posted(s)
  {
    if i < |s.owed| && s.owed[i].release.Some? {
      CompletedJobsOne(s.trace, Released(s.owed[i].release.value));
    }
  }

  /** The completion that a step posts, if any. */
  ghost function PostedBy(s: State, e: Event): seq<Job> {
    if e.Dispatch? && e.i < |s.claimed| then [s.claimed[e.i]] else []
  }

  /** With a poster, callbacks run in the order in which their completions were posted. */
  lemma RunInPostingOrder(s: State, e: Event)
    ensures Posted(Next(s, true, e)) == Posted(s) + PostedBy(s, e)
  {
    match e
    case Dispatch(i) =>
      if i < |s.claimed| {
        DispatchPosts(s, i);
      }
    case Response(id, payload, code, hasRelease) => ResponsePosts(s, id, payload, code, hasRelease);
    case RunNext => RunNextPosts(s);
    case Release(i) => ReleasePosts(s, i);
    case _ =>
  }

  // ----- Late responses -----

  /** What a call's callback is told. */
  datatype Outcome = Outcome(seqId: SeqId, payload: Payload, code: Code)

  /** Everything about a state but the release actions. */
  datatype View = View(seqNo: nat, pending: Pending, claimed: seq<Outcome>, queue: seq<Outcome>, completed: seq<Outcome>)

  function OutcomeOf(job: Job): Outcome {
    Outcome(job.seqId, job.payload, job.code)
  }

  function Outcomes(jobs: seq<Job>): seq<Outcome> {
    seq(|jobs|, i requires 0 <= i < |jobs| => OutcomeOf(jobs[i]))
  }

  function CompletedIn(trace: seq<Effect>): seq<Outcome> {
    if trace == [] then [] else
      var e := trace[|trace| - 1];
      CompletedIn(trace[..|trace| - 1]) + if e.Completed? then [OutcomeOf(e.job)] else []
  }

  function ViewOf(s: State): View {
    View(s.seqNo, s.pending, Outcomes(s.claimed), Outcomes(s.queue), CompletedIn(s.trace))
  }

  lemma CompletedOne(trace: seq<Effect>, e: Effect)
    ensures CompletedIn(trace + [e]) == CompletedIn(trace) + if e.Completed? then [OutcomeOf(e.job)] else []
  {
    assert (trace + [e])[..|trace|] == trace;
  }

  lemma OutcomesOne(a: seq<Job>, j: Job)
    ensures Outcomes(a + [j]) == Outcomes(a) + [OutcomeOf(j)]
  {
  }

  lemma OutcomesConcat(a: seq<Job>, b: seq<Job>)
    ensures Outcomes(a + b) == Outcomes(a) + Outcomes(b)
  {
  }

  lemma OutcomesRemove(jobs: seq<Job>, i: nat)
    requires i < |jobs|
    ensures Outcomes(jobs[..i] + jobs[i + 1..]) == Outcomes(jobs)[..i] + Outcomes(jobs)[i + 1..]
    ensures Outcomes(jobs[1..]) == Outcomes(jobs)[1..]
  {
  }

  /** The release actions have no influence on anything else. */
  lemma SameViewNext(s: State, t: State, hasPoster: bool, e: Event)
    requires ViewOf(s) == ViewOf(t)
    ensures ViewOf(Next(s, hasPoster, e)) == ViewOf(Next(t, hasPoster, e))
  {
    match e
    case Register(deadline) =>
    case SendFailed(id, code) =>
      SameViewClaim(s, t, Job(id, [], SendFailureCode(code), None), Job(id, [], SendFailureCode(code), None));
    case Response(id, payload, code, hasRelease) => SameViewResponse(s, t, id, payload, code, hasRelease);
    case Scan(now, order) =>
      OutcomesConcat(s.claimed, TimeoutJobs(order));
      OutcomesConcat(t.claimed, TimeoutJobs(order));
    case Dispatch(i) => SameViewDispatch(s, t, hasPoster, i);
    case RunNext => SameViewRunNext(s, t);
    case Release(i) => SameViewRelease(s, i); SameViewRelease(t, i);
  }

  lemma SameViewClaim(s: State, t: State, j: Job, j': Job)
    requires Outcomes(s.claimed) == Outcomes(t.claimed) && OutcomeOf(j) == OutcomeOf(j')
    ensures Outcomes(s.claimed + [j]) == Outcomes(t.claimed + [j'])
  {
    OutcomesOne(s.claimed, j);
    OutcomesOne(t.claimed, j');
  }

  lemma SameViewResponse(s: State, t: State, id: SeqId, payload: Payload, code: Code, hasRelease: bool)
    requires ViewOf(s) == ViewOf(t)
    ensures ViewOf(OnResponse(s, id, payload, code, hasRelease)) == ViewOf(OnResponse(t, id, payload, code, hasRelease))
  {
    if id in s.pending {
      SameViewClaim(s, t, Job(id, payload, code, if hasRelease then Some(s.releases + 1) else None),
                    Job(id, payload, code, if hasRelease then Some(t.releases + 1) else None));
    } else {
      Discarding(s, id, payload, code, hasRelease);
      Discarding(t, id, payload, code, hasRelease);
    }
  }

  lemma Discarding(s: State, id: SeqId, payload: Payload, code: Code, hasRelease: bool)
    requires id !in s.pending
    ensures ViewOf(OnResponse(s, id, payload, code, hasRelease)) == ViewOf(s)
  {
    CompletedOne(s.trace, Discarded(s.releases + 1));
  }

  lemma SameHead(s: seq<Job>, t: seq<Job>, i: nat)
    requires Outcomes(s) == Outcomes(t)
    ensures |s| == |t| && (i < |s| ==> OutcomeOf(s[i]) == OutcomeOf(t[i]))
  {
    assert |Outcomes(s)| == |s| && |Outcomes(t)| == |t|;
    if i < |s| {
      assert Outcomes(s)[i] == OutcomeOf(s[i]) && Outcomes(t)[i] == OutcomeOf(t[i]);
    }
  }

  lemma SameViewDispatch(s: State, t: State, hasPoster: bool, i: nat)
    requires ViewOf(s) == ViewOf(t)
    ensures ViewOf(OnDispatch(s, hasPoster, i)) == ViewOf(OnDispatch(t, hasPoster, i))
  {
    SameHead(s.claimed, t.claimed, i);
    if i < |s.claimed| {
      OutcomesRemove(s.claimed, i);
      OutcomesRemove(t.claimed, i);
      OutcomesOne(s.queue, s.claimed[i]);
      OutcomesOne(t.queue, t.claimed[i]);
      CompletedOne(s.trace, Completed(s.claimed[i]));
      CompletedOne(t.trace, Completed(t.claimed[i]));
    }
  }

  lemma SameViewRunNext(s: State, t: State)
    requires ViewOf(s) == ViewOf(t)
    ensures ViewOf(OnRunNext(s)) == ViewOf(OnRunNext(t))
  {
    SameHead(s.queue, t.queue, 0);
    if s.queue != [] {
      OutcomesRemove(s.queue, 0);
      OutcomesRemove(t.queue, 0);
      CompletedOne(s.trace, Completed(s.queue[0]));
      CompletedOne(t.trace, Completed(t.queue[0]));
    }
  }

  lemma SameViewRelease(s: State, i: nat)
    ensures ViewOf(OnRelease(s, i)) == ViewOf(s)
  {
    if i < |s.owed| && s.owed[i].release.Some? {
      CompletedOne(s.trace, Released(s.owed[i].release.value));
    }
  }

  /** The events of a run continued from a state. */
  function RunFrom(s: State, hasPoster: bool, events: seq<Event>): State {
    if events == [] then s
    else Next(RunFrom(s, hasPoster, events[..|events| - 1]), hasPoster, events[|events| - 1])
  }

  lemma {:induction false} SameViewRun(s: State, t: State, hasPoster: bool, events: seq<Event>)
    requires ViewOf(s) == ViewOf(t)
    ensures ViewOf(RunFrom(s, hasPoster, events)) == ViewOf(RunFrom(t, hasPoster, events))
  {
    if events != [] {
      var before := events[..|events| - 1];
      SameViewRun(s, t, hasPoster, before);
      SameViewNext(RunFrom(s, hasPoster, before), RunFrom(t, hasPoster, before), hasPoster, events[|events| - 1]);
    }
  }

  /** A call that is issued and no longer pending is never pending again. */
  lemma {:induction false} NeverPendingAgain(s: State, hasPoster: bool, events: seq<Event>, id: SeqId)
    requires id <= s.seqNo && id !in s.pending
    ensures var s' := RunFrom(s, hasPoster, events); id <= s'.seqNo && id !in s'.pending
  {
    if events != [] {
      NeverPendingAgain(s, hasPoster, events[..|events| - 1], id);
    }
  }

  /** A response to a sequence number that is not pending - late, duplicate or unknown -
      changes nothing that any call ever sees: the rest of the run goes exactly as if it had
      not come. */
  lemma LateResponseIsInert(s: State, hasPoster: bool, response: Event, rest: seq<Event>)
    requires response.Response? && response.id !in s.pending
    ensures ViewOf(RunFrom(Next(s, hasPoster, response), hasPoster, rest)) == ViewOf(RunFrom(s, hasPoster, rest))
  {
    Discarding(s, response.id, response.payload, response.code, response.hasRelease);
    SameViewRun(Next(s, hasPoster, response), s, hasPoster, rest);
  }

  /** So once a call has been answered, further responses to it are absorbed, however much
      later they come. */
  lemma DuplicateResponseIsInert(
    s: State, hasPoster: bool, first: Event, between: seq<Event>, second: Event, rest: seq<Event>)
    requires first.Response? && second.Response? && first.id == second.id <= s.seqNo
    ensures var s' := RunFrom(Next(s, hasPoster, first), hasPoster, between);
            ViewOf(RunFrom(Next(s', hasPoster, second), hasPoster, rest)) == ViewOf(RunFrom(s', hasPoster, rest))
  {
    NeverPendingAgain(Next(s, hasPoster, first), hasPoster, between, first.id);
    LateResponseIsInert(RunFrom(Next(s, hasPoster, first), hasPoster, between), hasPoster, second, rest);
  }
}
