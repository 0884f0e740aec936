/** The timing wheel seen from outside: a flat map from timer id to deadline and period,
    and its runs. Nothing here knows about levels, slots or buckets. */
module TimerSpec {
  import opened Basics
  import opened WheelMath

  const TWO_63: int := 0x8000_0000_0000_0000
  const TWO_64: int := 0x1_0000_0000_0000_0000

  /** time.Duration: a signed 64-bit count of nanoseconds. */
  type Duration = d: int | -TWO_63 <= d < TWO_63

  type TimerId = nat

  datatype Entry = Entry(deadline: nat, interval: nat)

  datatype Timers = Timers(now: nat, lastId: nat, live: map<TimerId, Entry>)

  // ----- Durations -----

  function WrapInt64(x: int): Duration
    requires -TWO_64 <= x < TWO_64
  {
    if x >= TWO_63 then x - TWO_64 else if x < -TWO_63 then x + TWO_64 else x
  }

  /** Go's integer division by a positive divisor, which truncates toward zero. */
  function TruncDiv(a: int, b: int): int
    requires b > 0
  {
    if a >= 0 then a / b else -((-a) / b)
  }

  function DurationToTicks(d: Duration, tick: Duration): nat
    requires tick > 0
  {
    if d <= 0 then 0 else
      var q := TruncDiv(WrapInt64(d + tick - 1), tick);
      if q >= 0 then q else (assert q + TWO_64 >= 0 by { TruncDivBound(WrapInt64(d + tick - 1), tick); } q + TWO_64)
  }

  lemma TruncDivBound(a: int, b: int)
    requires b > 0
    ensures a < 0 ==> a <= TruncDiv(a, b) <= 0
    ensures a >= 0 ==> 0 <= TruncDiv(a, b) <= a
  {
    QuotientBound(if a < 0 then -a else a, b);
  }

  lemma QuotientBound(n: nat, b: nat)
    requires b > 0
    ensures 0 <= n / b <= n
    ensures n / b == 0 <==> n < b
  {
    var q := n / b;
    assert n == b * q + n % b;
    MulMono(q, 1, b);
    assert b * q == q * b;
  }

  /** `k` ticks are the fewest that last at least `d`. */
  ghost predicate IsCeiling(d: int, tick: int, k: int) {
    (k - 1) * tick < d <= k * tick
  }

  /** The tick count is the duration rounded up exactly when `d + tick - 1` does not
      overflow int64; past that it is 0 or at least 2^63, never the ceiling. */
  lemma TicksAreCeilingIffNoOverflow(d: Duration, tick: Duration)
    requires d > 0 && tick > 0
    ensures IsCeiling(d, tick, DurationToTicks(d, tick)) <==> d + tick - 1 < TWO_63
    ensures d + tick - 1 >= TWO_63 ==> DurationToTicks(d, tick) == 0 || DurationToTicks(d, tick) >= TWO_63
  {
    var s: nat := d + tick - 1;
    if s < TWO_63 {
      var k := s / tick;
      assert s == tick * k + s % tick;
      assert DurationToTicks(d, tick) == k;
      assert (k - 1) * tick == tick * k - tick;
      assert k * tick == tick * k;
    } else {
      OverflowedTicks(d, tick);
      var k: nat := DurationToTicks(d, tick);
      if k >= TWO_63 {
        MulMono(k - 1, 1, tick);
        assert (k - 1) * 1 == k - 1;
      } else {
        assert k == 0;
      }
    }
  }

  lemma OverflowedTicks(d: Duration, tick: Duration)
    requires d > 0 && tick > 0 && d + tick - 1 >= TWO_63
    ensures DurationToTicks(d, tick) == 0 <==> d + 2 * tick > TWO_64 + 1
    ensures DurationToTicks(d, tick) == 0 || DurationToTicks(d, tick) >= TWO_63
  {
    var w: int := WrapInt64(d + tick - 1);
    assert w == d + tick - 1 - TWO_64;
    QuotientBound(-w, tick);
  }

  /** An overflow can also make a timer late: two nanoseconds on a wheel with the longest tick. */
  lemma OverflowingDurationExample()
    ensures DurationToTicks(2, 0x7FFF_FFFF_FFFF_FFFF) == 0xFFFF_FFFF_FFFF_FFFF
  {
    var w := WrapInt64(2 + 0x7FFF_FFFF_FFFF_FFFF - 1);
    assert w == -0x8000_0000_0000_0000;
    assert 0x8000_0000_0000_0000 / 0x7FFF_FFFF_FFFF_FFFF == 1;
  }

  /** A positive duration takes at least one tick exactly unless it overflows too far. */
  ghost predicate TicksArePositive(d: Duration, tick: Duration) {
    d + tick - 1 < TWO_63 || d + 2 * tick <= TWO_64 + 1
  }

  lemma PositiveTicksIff(d: Duration, tick: Duration)
    requires d > 0 && tick > 0
    ensures DurationToTicks(d, tick) >= 1 <==> TicksArePositive(d, tick)
  {
    if d + tick - 1 < TWO_63 {
      QuotientBound(d + tick - 1, tick);
    } else {
      OverflowedTicks(d, tick);
    }
  }

  /** Delay in ticks of a new timer: at least one. */
  function DelayTicks(d: Duration, tick: Duration): (k: nat)
    requires tick > 0
    ensures k >= 1
  {
    var k := DurationToTicks(d, tick);
    if k < 1 then 1 else k
  }

  // ----- Operations on the flat map -----

  datatype Op = AfterFunc(d: Duration) | Tick(d: Duration) | Stop(handle: Option<TimerId>) | Advance

  function Due(live: map<TimerId, Entry>, n: nat): set<TimerId> {
    set id | id in live && live[id].deadline == n
  }

  /** Due one-shots are gone, due periodic timers are due again one period later. */
  function AfterFiring(live: map<TimerId, Entry>, n: nat): map<TimerId, Entry> {
    map id | id in live && (live[id].deadline == n ==> live[id].interval > 0) ::
      if live[id].deadline == n then Entry(n + live[id].interval, live[id].interval) else live[id]
  }

  function PeriodOf(d: Duration, tick: Duration): Duration {
    if d <= 0 then tick else d
  }

  function Add(s: Timers, delay: nat, interval: nat): Timers {
    Timers(s.now, s.lastId + 1, s.live[s.lastId + 1 := Entry(s.now + delay, interval)])
  }

  function Apply(s: Timers, tick: Duration, op: Op): Timers
    requires tick > 0
  {
    match op
    case AfterFunc(d) => Add(s, DelayTicks(d, tick), 0)
    case Tick(d) =>
      var p := PeriodOf(d, tick);
      Add(s, DelayTicks(p, tick), DurationToTicks(p, tick))
    case Stop(handle) => if handle.Some? then s.(live := s.live - {handle.value}) else s
    case Advance => Timers(s.now + 1, s.lastId, AfterFiring(s.live, s.now + 1))
  }

  /** The timers a step fires. */
  function Fires(s: Timers, op: Op): set<TimerId> {
    if op.Advance? then Due(s.live, s.now + 1) else {}
  }

  /** No tick value of the step reaches 2^64 - 1. */
  ghost predicate Fits(s: Timers, tick: Duration, op: Op)
    requires tick > 0
  {
    match op
    case AfterFunc(d) => s.now + DelayTicks(d, tick) < MAX_TICK
    case Tick(d) => s.now + DelayTicks(PeriodOf(d, tick), tick) < MAX_TICK
    case Stop(_) => true
    case Advance =>
      s.now + 1 < MAX_TICK &&
      forall id :: id in s.live && s.live[id].deadline == s.now + 1 ==> s.now + 1 + s.live[id].interval < MAX_TICK
  }

  // ----- Runs -----

  function After(s: Timers, tick: Duration, ops: seq<Op>): Timers
    requires tick > 0
  {
    if ops == [] then s
    else Apply(After(s, tick, ops[..|ops| - 1]), tick, ops[|ops| - 1])
  }

  ghost predicate RunFits(s: Timers, tick: Duration, ops: seq<Op>)
    requires tick > 0
  {
    forall i {:trigger FitsAt(s, tick, ops, i)} :: 0 <= i < |ops| ==> FitsAt(s, tick, ops, i)
  }

  ghost predicate FitsAt(s: Timers, tick: Duration, ops: seq<Op>, i: nat)
    requires tick > 0 && i < |ops|
  {
    Fits(After(s, tick, ops[..i]), tick, ops[i])
  }

  /** What a reachable flat state satisfies: ids were handed out, deadlines are ahead. */
  ghost predicate Sane(s: Timers) {
    forall id :: id in s.live ==> id <= s.lastId && s.live[id].deadline > s.now
  }

  lemma ApplySane(s: Timers, tick: Duration, op: Op)
    requires tick > 0 && Sane(s)
    ensures Sane(Apply(s, tick, op))
    ensures Apply(s, tick, op).lastId >= s.lastId
  {
  }

  lemma {:induction false} AfterSane(s: Timers, tick: Duration, ops: seq<Op>)
    requires tick > 0 && Sane(s)
    ensures Sane(After(s, tick, ops)) && After(s, tick, ops).lastId >= s.lastId
  {
    if ops != [] {
      AfterSane(s, tick, ops[..|ops| - 1]);
      ApplySane(After(s, tick, ops[..|ops| - 1]), tick, ops[|ops| - 1]);
    }
  }

  ghost predicate Stops(op: Op, id: TimerId) {
    op == Stop(Some(id))
  }

  /** Number of `Advance` steps in a run. */
  function Advances(ops: seq<Op>): nat {
    if ops == [] then 0
    else Advances(ops[..|ops| - 1]) + if ops[|ops| - 1].Advance? then 1 else 0
  }

  lemma {:induction false} NowCountsAdvances(s: Timers, tick: Duration, ops: seq<Op>)
    requires tick > 0
    ensures After(s, tick, ops).now == s.now + Advances(ops)
  {
    if ops != [] {
      NowCountsAdvances(s, tick, ops[..|ops| - 1]);
    }
  }

  /** The first multiple of `p` after `k`. */
  function NextMultiple(k: nat, p: nat): nat
    requires p >= 1
  {
    (k / p + 1) * p
  }

  lemma NextMultipleStep(k: nat, p: nat)
    requires p >= 1
    ensures NextMultiple(k, p) > k
    ensures NextMultiple(k, p) == k + 1 <==> (k + 1) % p == 0
    ensures NextMultiple(k + 1, p) == if (k + 1) % p == 0 then k + 1 + p else NextMultiple(k, p)
  {
    DivTick(k + 1, p);
    var q := k / p;
    assert (q + 1) * p == p * q + p;
    assert (q + 2) * p == p * q + p + p;
    assert k == p * q + k % p;
    assert k + 1 == p * ((k + 1) / p) + (k + 1) % p;
    assert p * (q + 1) == p * q + p;
  }

  ghost predicate Unstopped(ops: seq<Op>, id: TimerId) {
    forall i :: 0 <= i < |ops| ==> !Stops(ops[i], id)
  }

  /** A periodic timer, `j` ticks after a state in which it was due one period ahead and
      with no stop of it in between, is live with the next multiple of its period ahead. */
  lemma {:induction false} PeriodicDeadline(s: Timers, tick: Duration, ops: seq<Op>, id: TimerId, p: nat)
    requires tick > 0 && Sane(s) && p >= 1
    requires id in s.live && s.live[id] == Entry(s.now + p, p)
    requires Unstopped(ops, id)
    ensures var s' := After(s, tick, ops);
            id in s'.live && s'.live[id] == Entry(s.now + NextMultiple(Advances(ops), p), p)
  {
    if ops != [] {
      var before := ops[..|ops| - 1];
      PeriodicDeadline(s, tick, before, id, p);
      NowCountsAdvances(s, tick, before);
      AfterSane(s, tick, before);
      NextMultipleStep(Advances(before), p);
    }
  }

  /** A one-shot timer waits for its single deadline. */
  lemma {:induction false} OneShotDeadline(s: Timers, tick: Duration, ops: seq<Op>, id: TimerId, k: nat)
    requires tick > 0 && Sane(s) && k >= 1
    requires id in s.live && s.live[id] == Entry(s.now + k, 0)
    requires Unstopped(ops, id)
    ensures var s' := After(s, tick, ops);
            if Advances(ops) < k then id in s'.live && s'.live[id] == Entry(s.now + k, 0) else id !in s'.live
  {
    if ops != [] {
      var before := ops[..|ops| - 1];
      OneShotDeadline(s, tick, before, id, k);
      NowCountsAdvances(s, tick, before);
      AfterSane(s, tick, before);
    }
  }

  /** A timer created by `create`, followed by `ops`, fires at the next tick. */
  ghost predicate FiresAfter(s: Timers, tick: Duration, create: Op, ops: seq<Op>)
    requires tick > 0
  {
    s.lastId + 1 in Fires(After(Apply(s, tick, create), tick, ops), Advance)
  }

  /** A periodic timer created now fires at exactly the ticks now + k * period, k >= 1, for
      as long as nobody stops it, where the period is the tick count of the duration - unless
      that count overflows to zero, which makes it fire once, at the next tick. */
  lemma PeriodicFiresExactly(s: Timers, tick: Duration, d: Duration, ops: seq<Op>)
    requires tick > 0 && Sane(s) && Unstopped(ops, s.lastId + 1)
    ensures var p := PeriodOf(d, tick);
            if TicksArePositive(p, tick)
            then DurationToTicks(p, tick) >= 1 &&
                 (FiresAfter(s, tick, Tick(d), ops) <==> (Advances(ops) + 1) % DurationToTicks(p, tick) == 0)
            else FiresAfter(s, tick, Tick(d), ops) <==> Advances(ops) == 0
  {
    var s1 := Apply(s, tick, Tick(d));
    var k := DurationToTicks(PeriodOf(d, tick), tick);
    PositiveTicksIff(PeriodOf(d, tick), tick);
    ApplySane(s, tick, Tick(d));
    NowCountsAdvances(s1, tick, ops);
    if k >= 1 {
      PeriodicDeadline(s1, tick, ops, s.lastId + 1, k);
      NextMultipleStep(Advances(ops), k);
    } else {
      OneShotDeadline(s1, tick, ops, s.lastId + 1, 1);
    }
  }

  /** The duration in ticks, rounded up. */
  function CeilDiv(d: Duration, tick: Duration): (k: nat)
    requires d > 0 && tick > 0
    ensures 1 <= k <= d && IsCeiling(d, tick, k)
  {
    CeilingBounds(d, tick);
    (d + tick - 1) / tick
  }

  lemma CeilingBounds(d: Duration, tick: Duration)
    requires d > 0 && tick > 0
    ensures var k := (d + tick - 1) / tick; 1 <= k <= d && IsCeiling(d, tick, k)
  {
    var s: nat := d + tick - 1;
    var k := s / tick;
    QuotientBound(s, tick);
    assert s == tick * k + s % tick;
    assert (k - 1) * tick == tick * k - tick && k * tick == tick * k;
    MulMono(k - 1, 1, tick);
    assert (k - 1) * 1 == k - 1;
  }

  /** The timer fires after `ops` exactly if the ticks since its creation are a multiple of
      its period rounded up. */
  ghost predicate OnSchedule(s: Timers, tick: Duration, d: Duration, ops: seq<Op>)
    requires tick > 0
  {
    FiresAfter(s, tick, Tick(d), ops) <==> (Advances(ops) + 1) % CeilDiv(PeriodOf(d, tick), tick) == 0
  }

  /** A periodic timer keeps to the ticks now + k * ceil(period / tick) in every run exactly
      when the int64 sum does not overflow. */
  lemma PeriodIsCeilingIff(s: Timers, tick: Duration, d: Duration)
    requires tick > 0 && Sane(s)
    ensures (forall ops {:trigger OnSchedule(s, tick, d, ops)} :: Unstopped(ops, s.lastId + 1) ==> OnSchedule(s, tick, d, ops))
            <==> PeriodOf(d, tick) + tick - 1 < TWO_63
  {
    var p := PeriodOf(d, tick);
    var k, c := DurationToTicks(p, tick), CeilDiv(p, tick);
    if p + tick - 1 < TWO_63 {
      assert k == c;
      forall ops | Unstopped(ops, s.lastId + 1) ensures OnSchedule(s, tick, d, ops) {
        PeriodicFiresExactly(s, tick, d, ops);
      }
    } else {
      var ops := OffSchedule(s, tick, d);
      assert !OnSchedule(s, tick, d, ops);
    }
  }

  /** A run in which an overflowing period shows. */
  lemma OffSchedule(s: Timers, tick: Duration, d: Duration) returns (ops: seq<Op>)
    requires tick > 0 && Sane(s) && PeriodOf(d, tick) + tick - 1 >= TWO_63
    ensures Unstopped(ops, s.lastId + 1) && !OnSchedule(s, tick, d, ops)
  {
    var p := PeriodOf(d, tick);
    var k, c := DurationToTicks(p, tick), CeilDiv(p, tick);
    TicksAreCeilingIffNoOverflow(p, tick);
    PositiveTicksIff(p, tick);
    ops := Ticking(if k > 0 then c - 1 else if c == 1 then 1 else 0);
    PeriodicFiresExactly(s, tick, d, ops);
    Multiples(c, k);
    Multiples(1, c);
  }

  lemma Multiples(a: nat, k: nat)
    requires a > 0
    ensures a % a == 0 && 2 % 1 == 0
    ensures a < k ==> a % k != 0
  {
  }

  /** `n` ticks and nothing else. */
  lemma {:induction false} Ticking(n: nat) returns (ops: seq<Op>)
    ensures Advances(ops) == n && forall id :: Unstopped(ops, id)
  {
    if n == 0 {
      ops := [];
    } else {
      var before := Ticking(n - 1);
      ops := before + [Advance];
      assert ops[..|ops| - 1] == before;
      forall id ensures Unstopped(ops, id) {
        assert Unstopped(before, id);
      }
    }
  }

  /** A one-shot timer fires at exactly one tick, its delay after creation. */
  lemma OneShotFiresOnce(s: Timers, tick: Duration, d: Duration, ops: seq<Op>)
    requires tick > 0 && Sane(s) && Unstopped(ops, s.lastId + 1)
    ensures FiresAfter(s, tick, AfterFunc(d), ops) <==> Advances(ops) + 1 == DelayTicks(d, tick)
  {
    var s1 := Apply(s, tick, AfterFunc(d));
    ApplySane(s, tick, AfterFunc(d));
    OneShotDeadline(s1, tick, ops, s.lastId + 1, DelayTicks(d, tick));
    NowCountsAdvances(s1, tick, ops);
  }

  /** The tick a one-shot timer fires at, in numbers: the next one for a duration that is not
      positive, and otherwise its duration rounded up to whole ticks, as long as the int64 sum
      does not overflow; past that the next one, or one at least 2^63 ticks away. */
  lemma OneShotFiresAtCeiling(s: Timers, tick: Duration, d: Duration, ops: seq<Op>)
    requires tick > 0 && Sane(s) && Unstopped(ops, s.lastId + 1)
    ensures d <= 0 ==> (FiresAfter(s, tick, AfterFunc(d), ops) <==> Advances(ops) == 0)
    ensures d > 0 && d + tick - 1 < TWO_63 ==>
              (FiresAfter(s, tick, AfterFunc(d), ops) <==> Advances(ops) + 1 == CeilDiv(d, tick))
    ensures d > 0 && d + tick - 1 >= TWO_63 && d + 2 * tick > TWO_64 + 1 ==>
              (FiresAfter(s, tick, AfterFunc(d), ops) <==> Advances(ops) == 0)
    ensures d > 0 && d + tick - 1 >= TWO_63 && d + 2 * tick <= TWO_64 + 1 ==>
              (FiresAfter(s, tick, AfterFunc(d), ops) ==> Advances(ops) + 1 >= TWO_63)
  {
    OneShotFiresOnce(s, tick, d, ops);
    if d > 0 && d + tick - 1 >= TWO_63 {
      OverflowedTicks(d, tick);
    }
  }

  /** A period that is not positive is the tick of the wheel: the timer fires at every tick,
      as long as twice the tick fits. */
  lemma TickOfNothingFiresAlways(s: Timers, tick: Duration, d: Duration, ops: seq<Op>)
    requires tick > 0 && Sane(s) && Unstopped(ops, s.lastId + 1) && d <= 0
    ensures 2 * tick - 1 < TWO_63 ==> FiresAfter(s, tick, Tick(d), ops)
    ensures 3 * tick > TWO_64 + 1 ==> (FiresAfter(s, tick, Tick(d), ops) <==> Advances(ops) == 0)
  {
    PeriodicFiresExactly(s, tick, d, ops);
    if 2 * tick - 1 < TWO_63 {
      OneTickIsOne(tick);
    }
  }

  lemma OneTickIsOne(tick: Duration)
    requires tick > 0 && 2 * tick - 1 < TWO_63
    ensures DurationToTicks(tick, tick) == 1
  {
    assert tick * 1 == tick;
    DivUnique(2 * tick - 1, tick, 1);
  }

  /** A positive period, in numbers. */
  lemma PeriodicFiresAtCeilings(s: Timers, tick: Duration, d: Duration, ops: seq<Op>)
    requires tick > 0 && Sane(s) && Unstopped(ops, s.lastId + 1) && d > 0 && d + tick - 1 < TWO_63
    ensures FiresAfter(s, tick, Tick(d), ops) <==> (Advances(ops) + 1) % CeilDiv(d, tick) == 0
  {
    PeriodicFiresExactly(s, tick, d, ops);
  }

  /** `d + tick - 1` overflows so far that the quotient truncates to zero, for a duration
      longer than one tick. */
  ghost predicate OverflowsToOneTick(d: Duration, tick: Duration) {
    d + tick - 1 >= TWO_63 && d > tick && d + 2 * tick > TWO_64 + 1
  }

  lemma DelayCoversIff(d: Duration, tick: Duration)
    requires tick > 0
    ensures d <= DelayTicks(d, tick) * tick <==> !OverflowsToOneTick(d, tick)
  {
    var ticks := DurationToTicks(d, tick);
    if d <= 0 {
      assert 1 * tick == tick;
    } else if d + tick - 1 < TWO_63 {
      TicksAreCeilingIffNoOverflow(d, tick);
      assert 0 * tick == 0;
    } else {
      OverflowedTicks(d, tick);
      if ticks == 0 {
        assert 1 * tick == tick;
      } else {
        MulMono(ticks, 1, tick);
      }
    }
  }

  /** A one-shot timer whose deadline fits never fires early - the ticks it waits last at
      least the duration asked for - in any run, exactly unless its tick count overflows
      to a single tick. */
  lemma OneShotNeverEarlyIff(s: Timers, tick: Duration, d: Duration)
    requires tick > 0 && Sane(s) && Fits(s, tick, AfterFunc(d))
    ensures (forall ops {:trigger FiresAfter(s, tick, AfterFunc(d), ops)} ::
               Unstopped(ops, s.lastId + 1) && FiresAfter(s, tick, AfterFunc(d), ops) ==> d <= (Advances(ops) + 1) * tick)
            <==> !OverflowsToOneTick(d, tick)
  {
    DelayCoversIff(d, tick);
    var ops := Ticking(DelayTicks(d, tick) - 1);
    OneShotFiresOnce(s, tick, d, ops);
    if !OverflowsToOneTick(d, tick) {
      forall ops | Unstopped(ops, s.lastId + 1) && FiresAfter(s, tick, AfterFunc(d), ops) ensures d <= (Advances(ops) + 1) * tick {
        OneShotFiresOnce(s, tick, d, ops);
      }
    }
  }

  /** Both failures are real, on a wheel whose tick is one nanosecond short of the longest
      duration: asked for that duration, a one-shot fires early, after a single tick, and a
      periodic timer fires once and never again. So does Tick(0) on a wheel with the longest
      tick. */
  lemma OverflowExamples(s: Timers, ops: seq<Op>)
    requires Sane(s) && Unstopped(ops, s.lastId + 1)
    ensures var longest: Duration := TWO_63 - 1;
            var tick: Duration := TWO_63 - 2;
            && (FiresAfter(s, tick, AfterFunc(longest), ops) <==> Advances(ops) == 0)
            && 1 * tick < longest
            && (FiresAfter(s, tick, Tick(longest), ops) <==> Advances(ops) == 0)
            && (FiresAfter(s, longest, Tick(0), ops) <==> Advances(ops) == 0)
  {
    var longest: Duration := TWO_63 - 1;
    var tick: Duration := TWO_63 - 2;
    PositiveTicksIff(longest, tick);
    OneShotFiresOnce(s, tick, longest, ops);
    PeriodicFiresExactly(s, tick, longest, ops);
    PeriodicFiresExactly(s, longest, 0, ops);
  }

  /** A dead id stays dead: once stopped (or fired), a timer never fires again. */
  lemma {:induction false} DeadStaysDead(s: Timers, tick: Duration, ops: seq<Op>, id: TimerId)
    requires tick > 0 && Sane(s) && id <= s.lastId && id !in s.live
    ensures id !in After(s, tick, ops).live
    ensures id !in Fires(After(s, tick, ops), Advance)
  {
    if ops != [] {
      DeadStaysDead(s, tick, ops[..|ops| - 1], id);
      AfterSane(s, tick, ops[..|ops| - 1]);
    }
  }

  /** Stopping a timer means no firing at any later tick and touches no other timer. */
  lemma StopIsFinalAndLocal(s: Timers, tick: Duration, id: TimerId, ops: seq<Op>)
    requires tick > 0 && Sane(s) && id <= s.lastId
    ensures var s1 := Apply(s, tick, Stop(Some(id)));
            && id !in Fires(After(s1, tick, ops), Advance)
            && s1.now == s.now
            && forall other :: other != id ==>
                 (other in s1.live <==> other in s.live) && (other in s.live ==> s1.live[other] == s.live[other])
  {
    ApplySane(s, tick, Stop(Some(id)));
    DeadStaysDead(Apply(s, tick, Stop(Some(id))), tick, ops, id);
  }
}
