/** The connection rate limiter: a ring of the times of the last accepted messages. */
module RateLimiter {

  type Time = int

  /** An accepted message and the one accepted `limit` places later are an interval apart. */
  ghost predicate Spaced(accepted: seq<Time>, limit: int, interval: int)
    requires limit >= 1
  {
    forall i {:trigger Apart(accepted, i, limit, interval)} ::
      0 <= i < |accepted| - limit ==> Apart(accepted, i, limit, interval)
  }

  ghost predicate Apart(accepted: seq<Time>, i: int, limit: int, interval: int)
    requires limit >= 1 && 0 <= i < |accepted| - limit
  {
    accepted[i + limit] - accepted[i] >= interval
  }

  lemma SpacedAppend(accepted: seq<Time>, limit: int, interval: int, now: Time)
    requires limit >= 1 && Spaced(accepted, limit, interval)
    requires |accepted| >= limit ==> now - accepted[|accepted| - limit] >= interval
    ensures Spaced(accepted + [now], limit, interval)
  {
    var accepted' := accepted + [now];
    forall i | 0 <= i < |accepted'| - limit ensures Apart(accepted', i, limit, interval) {
      if i < |accepted| - limit {
        assert Apart(accepted, i, limit, interval);
      }
    }
  }

  class Limiter {
    const limit: int
    const interval: int
    var times: seq<Time>
    ghost var accepted: seq<Time>    // every accepted message, in order

    /** The ring holds the last `limit` accepted times, oldest first. */
    ghost predicate Valid()
      reads this
    {
      && limit >= 1
      && times == (if |accepted| <= limit then accepted else accepted[|accepted| - limit..])
      && Spaced(accepted, limit, interval)
    }

    /** A limit below one would make the original panic on its empty list. */
    constructor (limit: int, interval: int)
      requires limit >= 1
      ensures Valid() && accepted == [] && this.limit == limit && this.interval == interval
    {
      this.limit, this.interval := limit, interval;
      times, accepted := [], [];
    }

    /** Rejects exactly when the message accepted `limit` places ago is less than an interval
        old. */
    method ShouldRateLimit(now: Time) returns (limited: bool)
      requires Valid()
      modifies this
      ensures Valid()
      ensures limited <==> |old(accepted)| >= limit && now - old(accepted)[|old(accepted)| - limit] < interval
      ensures accepted == if limited then old(accepted) else old(accepted) + [now]
    {
      if |times| < limit {
        SpacedAppend(accepted, limit, interval, now);
        times := times + [now];
        accepted := accepted + [now];
        return false;
      }
      var front := times[0];
      if now - front < interval {
        return true;
      }
      SpacedAppend(accepted, limit, interval, now);
      times := times[1..] + [now];
      accepted := accepted + [now];
      limited := false;
    }
  }

  // ----- Runs -----

  /** The messages among the first `k` that were let through, in order. */
  function Kept(clock: seq<Time>, verdicts: seq<bool>, k: nat): seq<Time>
    requires k <= |clock| && k <= |verdicts|
  {
    if k == 0 then [] else Kept(clock, verdicts, k - 1) + if verdicts[k - 1] then [] else [clock[k - 1]]
  }

  lemma {:induction false} KeptSoFar(clock: seq<Time>, verdicts: seq<bool>, more: bool, k: nat)
    requires k <= |clock| && k <= |verdicts|
    ensures Kept(clock, verdicts + [more], k) == Kept(clock, verdicts, k)
  {
    if k > 0 {
      KeptSoFar(clock, verdicts, more, k - 1);
    }
  }

  /** The message accepted `limit` places ago is less than an interval old. */
  ghost predicate TooSoon(accepted: seq<Time>, limit: int, interval: int, now: Time)
    requires limit >= 1
  {
    |accepted| >= limit && now - accepted[|accepted| - limit] < interval
  }

  /** The last `limit` messages were accepted less than `interval` before `now`. */
  ghost predicate AllRecent(accepted: seq<Time>, limit: int, interval: int, now: Time) {
    0 <= limit <= |accepted| && forall i :: |accepted| - limit <= i < |accepted| ==> now - accepted[i] < interval
  }

  ghost predicate Ordered(clock: seq<Time>) {
    forall i, j :: 0 <= i < j < |clock| ==> clock[i] <= clock[j]
  }

  /** Message `k` was judged by the messages let through before it. */
  ghost predicate JudgedAt(limit: int, interval: int, clock: seq<Time>, verdicts: seq<bool>, k: nat)
    requires limit >= 1 && k < |clock| && k < |verdicts|
  {
    verdicts[k] <==> TooSoon(Kept(clock, verdicts, k), limit, interval, clock[k])
  }

  ghost predicate Judged(limit: int, interval: int, clock: seq<Time>, verdicts: seq<bool>)
    requires limit >= 1
  {
    |verdicts| <= |clock| &&
    forall k {:trigger JudgedAt(limit, interval, clock, verdicts, k)} ::
      0 <= k < |verdicts| ==> JudgedAt(limit, interval, clock, verdicts, k)
  }

  lemma JudgedNext(limit: int, interval: int, clock: seq<Time>, verdicts: seq<bool>, limited: bool)
    requires limit >= 1 && |verdicts| < |clock| && Judged(limit, interval, clock, verdicts)
    requires limited <==> TooSoon(Kept(clock, verdicts, |verdicts|), limit, interval, clock[|verdicts|])
    ensures Judged(limit, interval, clock, verdicts + [limited])
    ensures Kept(clock, verdicts + [limited], |verdicts| + 1) ==
            Kept(clock, verdicts, |verdicts|) + if limited then [] else [clock[|verdicts|]]
  {
    forall j | 0 <= j <= |verdicts| ensures JudgedAt(limit, interval, clock, verdicts + [limited], j) {
      KeptSoFar(clock, verdicts, limited, j);
      if j < |verdicts| {
        assert JudgedAt(limit, interval, clock, verdicts, j);
      }
    }
    KeptSoFar(clock, verdicts, limited, |verdicts|);
  }

  lemma {:induction false} KeptIsOrdered(clock: seq<Time>, verdicts: seq<bool>, k: nat)
    requires k <= |clock| && k <= |verdicts| && Ordered(clock)
    ensures Ordered(Kept(clock, verdicts, k))
    ensures forall i, m :: 0 <= i < |Kept(clock, verdicts, k)| && k <= m < |clock| ==> Kept(clock, verdicts, k)[i] <= clock[m]
  {
    if k > 0 {
      KeptIsOrdered(clock, verdicts, k - 1);
    }
  }

  /** On a clock that does not go back, a message is rejected exactly when the last `limit`
      accepted messages are all less than an interval old. */
  lemma RejectedIffAllRecent(limit: int, interval: int, clock: seq<Time>, verdicts: seq<bool>, k: nat)
    requires limit >= 1 && Judged(limit, interval, clock, verdicts) && k < |verdicts| && Ordered(clock)
    ensures verdicts[k] <==> AllRecent(Kept(clock, verdicts, k), limit, interval, clock[k])
  {
    assert JudgedAt(limit, interval, clock, verdicts, k);
    KeptIsOrdered(clock, verdicts, k);
  }

  /** Every run: one verdict per message, each decided by the messages let through before it,
      and messages let through `limit` places apart are at least an interval apart. */
  method Run(limit: int, interval: int, clock: seq<Time>) returns (verdicts: seq<bool>)
    requires limit >= 1
    ensures |verdicts| == |clock| && Judged(limit, interval, clock, verdicts)
    ensures Spaced(Kept(clock, verdicts, |clock|), limit, interval)
  {
    var r := new Limiter(limit, interval);
    verdicts := [];
    while |verdicts| < |clock|
      invariant |verdicts| <= |clock| && fresh(r)
      invariant r.Valid() && r.limit == limit && r.interval == interval
      invariant r.accepted == Kept(clock, verdicts, |verdicts|)
      invariant Judged(limit, interval, clock, verdicts)
      decreases |clock| - |verdicts|
    {
      var limited := r.ShouldRateLimit(clock[|verdicts|]);
      JudgedNext(limit, interval, clock, verdicts, limited);
      verdicts := verdicts + [limited];
    }
  }
}
