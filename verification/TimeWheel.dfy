/** The hierarchical timing wheel. Every operation is proved to refine the flat timers of
    TimerSpec; the mutex of the original makes each of them one atomic step. */
module TimeWheels {
  import opened Basics
  import opened WheelMath
  import opened WheelPlacement
  import opened WheelIndex
  import Spec = TimerSpec
  import opened TimerSpec

  const DEFAULT_TICK: Duration := 100_000_000
  const DEFAULT_SLOTS: nat := 512
  const DEFAULT_LEVEL_COUNT: nat := 4

  /** The flat timers that a task map stands for. */
  function Live(m: TaskMap): map<TimerId, Entry> {
    map id | id in m :: Entry(m[id].expire, m[id].interval)
  }

  lemma LivePut(m: TaskMap, t: Task)
    ensures Live(m[t.id := t]) == Live(m)[t.id := Entry(t.expire, t.interval)]
  {
  }

  lemma LiveDrop(m: TaskMap, id: TaskId)
    ensures Live(m - {id}) == Live(m) - {id}
  {
  }

  lemma LiveOfSameTimers(m: TaskMap, m': TaskMap)
    requires SameTimers(m, m')
    ensures Live(m) == Live(m')
  {
  }

  /** After the pass, the drained bucket's expired tasks are the due timers of the flat
      map, and draining is one flat firing. */
  lemma DrainIsFlat(g: seq<nat>, slots: nat, now: nat, m: TaskMap)
    requires Chain(g, slots) && forall i :: 0 <= i < |g| ==> g[i] >= 1
    requires AllPlaced(g, slots, now, 1, m)
    ensures FiredBy(g, slots, now, m) == Due(Live(m), now)
    ensures Live(DrainMap(g, slots, now, m)) == AfterFiring(Live(m), now)
  {
    var hand := Hand(g, slots, now, 0);
    forall id | id in m
      ensures InBucket(m[id], 0, hand) && m[id].expire <= now <==> m[id].expire == now
    {
      assert PlacedAt(g, slots, now, 1, m, id);
      DrainedBucketIsDue(g, slots, now, m[id]);
    }
    DrainExpiredIsFlat(g, slots, now, m, hand);
  }

  lemma DrainExpiredIsFlat(g: seq<nat>, slots: nat, now: nat, m: TaskMap, hand: nat)
    requires slots >= 1 && |g| >= 1 && forall i :: 0 <= i < |g| ==> g[i] >= 1
    requires hand == Hand(g, slots, now, 0)
    requires forall id :: id in m ==> (InBucket(m[id], 0, hand) && m[id].expire <= now <==> m[id].expire == now)
    ensures FiredBy(g, slots, now, m) == Due(Live(m), now)
    ensures Live(DrainMap(g, slots, now, m)) == AfterFiring(Live(m), now)
  {
    var left, right := Live(DrainMap(g, slots, now, m)), AfterFiring(Live(m), now);
    assert left.Keys == right.Keys;
    forall id | id in left ensures left[id] == right[id] {
      DrainedTimer(g, slots, now, m[id], hand);
    }
  }

  lemma DrainedTimer(g: seq<nat>, slots: nat, now: nat, t: Task, hand: nat)
    requires slots >= 1 && |g| >= 1 && forall i :: 0 <= i < |g| ==> g[i] >= 1
    requires hand == Hand(g, slots, now, 0)
    ensures var t' := Drained(g, slots, now, t);
            t'.interval == t.interval &&
            t'.expire == if InBucket(t, 0, hand) && t.expire <= now then now + t.interval else t.expire
  {
  }

  /** One tick of the wheel is one tick of the flat timers: the pass and the drain fire
      exactly the timers due, and leave every other task where it will be found in time. */
  lemma AdvanceRefines(g: seq<nat>, slots: nat, now: nat, m: TaskMap)
    requires Chain(g, slots) && forall i :: 0 <= i < |g| ==> g[i] >= 1
    requires AllPlaced(g, slots, now, 0, m)
    requires forall id :: id in Live(m) && Live(m)[id].deadline == now + 1 ==> now + 1 + Live(m)[id].interval < MAX_TICK
    ensures var passed := PassMap(g, slots, now + 1, |g| - 1, m);
            var drained := DrainMap(g, slots, now + 1, passed);
            && AllPlaced(g, slots, now + 1, |g|, m)
            && AllPlaced(g, slots, now + 1, 1, passed)
            && AllPlaced(g, slots, now + 1, 0, drained)
            && FiredBy(g, slots, now + 1, passed) == Due(Live(m), now + 1)
            && Live(drained) == AfterFiring(Live(m), now + 1)
            && drained.Keys <= m.Keys
  {
    var passed := PassMap(g, slots, now + 1, |g| - 1, m);
    AllTickKeepsPlaced(g, slots, now, m);
    PassKeepsPlaced(g, slots, now + 1, |g| - 1, m);
    LiveOfSameTimers(m, passed);
    forall id | id in passed && passed[id].expire == now + 1 ensures now + 1 + passed[id].interval < MAX_TICK {
      assert Live(m)[id] == Live(passed)[id];
    }
    DrainKeepsPlaced(g, slots, now + 1, passed);
    DrainIsFlat(g, slots, now + 1, passed);
  }

  /** The ids that draining level 0 fires. */
  ghost function FiredBy(g: seq<nat>, slots: nat, now: nat, m: TaskMap): set<TimerId>
    requires slots >= 1 && |g| >= 1 && g[0] >= 1
  {
    set id | id in m && InBucket(m[id], 0, Hand(g, slots, now, 0)) && m[id].expire <= now
  }

  lemma ReplaceAfterRemove(m: TaskMap, id: TaskId, t: Task)
    ensures (m - {id})[id := t] == m[id := t]
  {
  }

  ghost function Expired(m: TaskMap, ids: set<TaskId>, now: nat): set<TimerId> {
    set id | id in ids && id in m && m[id].expire <= now
  }

  lemma ExpiredStep(m: TaskMap, bucket: set<TaskId>, todo: set<TaskId>, id: TaskId, now: nat, ready: seq<TaskId>)
    requires id in todo && todo <= bucket <= m.Keys
    requires multiset(ready) == multiset(Expired(m, bucket - todo, now))
    ensures multiset(if m[id].expire <= now then ready + [id] else ready) ==
            multiset(Expired(m, bucket - (todo - {id}), now))
  {
    assert Expired(m, bucket - (todo - {id}), now) ==
           Expired(m, bucket - todo, now) + if m[id].expire <= now then {id} else {};
    assert id !in Expired(m, bucket - todo, now);
  }

  lemma MergeStep(m: TaskMap, placed: TaskMap, rest: set<TaskId>, id: TaskId)
    requires id in rest && rest <= placed.Keys
    ensures (m + (placed - rest))[id := placed[id]] == m + (placed - (rest - {id}))
  {
  }

  class TimeWheel {
    const tick: Duration
    const slots: nat
    const granularity: seq<nat>
    var levels: Levels
    var currentTick: nat
    var taskMap: TaskMap
    var nextID: nat

    ghost predicate Shape()
      reads this`levels
    {
      && tick > 0
      && Chain(granularity, slots)
      && (forall i :: 0 <= i < |granularity| ==> granularity[i] >= 1)
      && Rectangular(levels, |granularity|, slots)
    }

    /** Consistent up to the tasks in `detached`, which are in the task map only. */
    ghost predicate Consistent(detached: set<TaskId>)
      reads this`levels, this`taskMap
    {
      Shape() && Indexed(levels, taskMap, detached)
    }

    ghost predicate Valid()
      reads this
    {
      && Consistent({})
      && AllPlaced(granularity, slots, currentTick, 0, taskMap)
      && forall id :: id in taskMap ==> id <= nextID
    }

    ghost function State(): Timers
      reads this
    {
      Timers(currentTick, nextID, Live(taskMap))
    }

    constructor (tick0: Duration, slots0: int, levelCount0: int)
      ensures Valid()
      ensures State() == Timers(0, 0, map[])
      ensures tick == if tick0 <= 0 then 100_000_000 else tick0
      ensures slots == if slots0 <= 0 then 512 else slots0
      ensures |granularity| == if levelCount0 <= 0 then 4 else levelCount0
    {
      var n: nat := if slots0 <= 0 then DEFAULT_SLOTS else slots0;
      var count: nat := if levelCount0 <= 0 then DEFAULT_LEVEL_COUNT else levelCount0;
      var g: seq<nat> := [1];
      var i := 1;
      while i < count
        invariant 1 <= i <= count && |g| == i
        invariant Chain(g, n)
      {
        ghost var g0 := g;
        g := g + [MulClamp(g[i - 1], n)];
        assert forall k :: 1 <= k < i ==> Link(g0, n, k) ==> Link(g, n, k);
        i := i + 1;
      }
      ChainPositive(g, n);
      tick := if tick0 <= 0 then DEFAULT_TICK else tick0;
      slots := n;
      granularity := g;
      levels := seq(count, _ => seq(n, _ => map[]));
      currentTick, taskMap, nextID := 0, map[], 0;
    }

    /** The level loop stops at the highest level whose granularity is within the delay. */
    method PickLevel(delayTicks: nat) returns (level: nat)
      requires Shape()
      ensures level == LevelAtMost(granularity, |granularity| - 1, delayTicks)
    {
      level := 0;
      var last := |granularity| - 1;
      while level < last
        invariant level <= last
        invariant LevelAtMost(granularity, last, delayTicks) >= level
      {
        var limit := MulClamp(granularity[level], slots);
        assert Link(granularity, slots, level + 1);
        if limit == 0 || delayTicks < limit {
          LevelBelow(granularity, slots, level + 1, delayTicks);
          break;
        }
        level := level + 1;
      }
    }

    method InsertLocked(t: Task, ghost detached: set<TaskId>)
      requires Consistent(detached)
      requires t.id in detached || t.id !in taskMap
      requires currentTick <= t.expire
      modifies this`taskMap, this`levels
      ensures Consistent(detached - {t.id})
      ensures taskMap == old(taskMap)[t.id := Place(granularity, slots, currentTick, t)]
    {
      var delayTicks := 0;
      if t.expire > currentTick {
        delayTicks := t.expire - currentTick;
      }
      var level := 0;
      assert granularity[0] == 1;
      var slot := (currentTick / granularity[0]) % slots;
      if delayTicks > 0 {
        level := PickLevel(delayTicks);
        slot := (t.expire / granularity[level]) % slots;
      }
      var t' := t.(level := level, slot := slot);
      PutKeepsIndex(levels, taskMap, detached, t');
      levels := SetBucket(levels, level, slot, levels[level][slot][t.id := t']);
      taskMap := taskMap[t.id := t'];
    }

    /** Inserts detached tasks again, in any order. */
    method Reinsert(tasks: TaskMap, ghost placed: TaskMap)
      requires Consistent(tasks.Keys) && placed.Keys == tasks.Keys
      requires forall id :: id in tasks ==> placed[id] == Place(granularity, slots, currentTick, tasks[id])
      requires forall id :: id in tasks ==> tasks[id].id == id && currentTick <= tasks[id].expire
      modifies this`taskMap, this`levels
      ensures Consistent({})
      ensures taskMap == old(taskMap) + placed
    {
      var pending := tasks;
      assert old(taskMap) + (placed - placed.Keys) == old(taskMap);
      while pending.Keys != {}
        invariant pending.Keys <= tasks.Keys && forall id :: id in pending ==> pending[id] == tasks[id]
        invariant Consistent(pending.Keys)
        invariant taskMap == old(taskMap) + (placed - pending.Keys)
        decreases pending.Keys
      {
        var id :| id in pending.Keys;
        MergeStep(old(taskMap), placed, pending.Keys, id);
        InsertLocked(pending[id], pending.Keys);
        pending := pending - {id};
      }
      assert placed - {} == placed;
    }

    /** Empties the current bucket of a level and inserts its tasks again. */
    method CascadeLocked(level: nat)
      requires Consistent({}) && level < |granularity|
      requires forall id :: id in taskMap ==> taskMap[id].id == id && currentTick <= taskMap[id].expire
      modifies this`taskMap, this`levels
      ensures Consistent({})
      ensures taskMap == CascadeMap(granularity, slots, currentTick, level, old(taskMap))
    {
      var idx := Hand(granularity, slots, currentTick, level);
      var pending := levels[level][idx];
      BucketIsSlice(levels, taskMap, level, idx);
      EmptyKeepsIndex(levels, taskMap, level, idx);
      CascadeReplacesBucket(granularity, slots, currentTick, level, taskMap);
      levels := SetBucket(levels, level, idx, map[]);
      Reinsert(pending, PlaceAll(granularity, slots, currentTick, pending));
    }

    method RemoveTask(id: TaskId)
      requires Consistent({}) && id in taskMap
      modifies this`taskMap, this`levels
      ensures Consistent({}) && taskMap == old(taskMap) - {id}
    {
      var t := taskMap[id];
      assert Filed(levels, t, id);
      TakeKeepsIndex(levels, taskMap, id);
      levels := SetBucket(levels, t.level, t.slot, levels[t.level][t.slot] - {id});
      taskMap := taskMap - {id};
    }

    /** A task of the drained bucket that is not due goes back into the wheel. */
    method PutBack(id: TaskId)
      requires Consistent({}) && id in taskMap && taskMap[id].id == id
      requires currentTick < taskMap[id].expire
      modifies this`taskMap, this`levels
      ensures Consistent({})
      ensures taskMap == old(taskMap)[id := Place(granularity, slots, currentTick, old(taskMap)[id])]
    {
      var t := taskMap[id];
      assert Filed(levels, t, id);
      TakeKeepsIndex(levels, taskMap, id);
      levels := SetBucket(levels, t.level, t.slot, levels[t.level][t.slot] - {id});
      InsertLocked(t, {id});
      assert {id} - {id} == {};
    }

    /** A due task leaves the wheel; a periodic one starts again. */
    method Fire(id: TaskId)
      requires Consistent({}) && id in taskMap && taskMap[id].id == id
      modifies this`taskMap, this`levels
      ensures Consistent({})
      ensures taskMap ==
        if old(taskMap)[id].interval == 0 then old(taskMap) - {id}
        else old(taskMap)[id := Place(granularity, slots, currentTick, old(taskMap)[id].(expire := currentTick + old(taskMap)[id].interval))]
    {
      var t := taskMap[id];
      RemoveTask(id);
      if t.interval > 0 {
        var t' := t.(expire := currentTick + t.interval);
        ReplaceAfterRemove(old(taskMap), id, Place(granularity, slots, currentTick, t'));
        InsertLocked(t', {});
        assert {} - {id} == {};
      }
    }

    /** Handles one task of the drained bucket. */
    method DrainOne(id: TaskId, ghost m: TaskMap, ghost drained: TaskMap) returns (fired: bool)
      requires Consistent({}) && id in taskMap && id in m && taskMap[id] == m[id] && m[id].id == id
      requires id in BucketOf(m, 0, Hand(granularity, slots, currentTick, 0))
      requires if m[id].expire > currentTick then id in drained && drained[id] == Place(granularity, slots, currentTick, m[id])
               else if m[id].interval == 0 then id !in drained
               else id in drained && drained[id] == Place(granularity, slots, currentTick, m[id].(expire := currentTick + m[id].interval))
      modifies this`taskMap, this`levels
      ensures Consistent({}) && taskMap == DrainedAt(old(taskMap), drained, id)
      ensures fired <==> m[id].expire <= currentTick
    {
      fired := taskMap[id].expire <= currentTick;
      if fired {
        Fire(id);
      } else {
        PutBack(id);
      }
    }

    /** Drains the current level-0 bucket, of which it takes a snapshot. */
    method DrainReadyLocked() returns (ready: seq<TaskId>)
      requires Consistent({})
      requires forall id :: id in taskMap ==> taskMap[id].id == id
      modifies this`taskMap, this`levels
      ensures Consistent({})
      ensures taskMap == DrainMap(granularity, slots, currentTick, old(taskMap))
      ensures multiset(ready) == multiset(FiredBy(granularity, slots, currentTick, old(taskMap)))
    {
      var hand := Hand(granularity, slots, currentTick, 0);
      BucketIsSlice(levels, taskMap, 0, hand);
      var todo := levels[0][hand].Keys;
      ghost var m, bucket, drained := taskMap, todo, DrainMap(granularity, slots, currentTick, taskMap);
      HalfDrainedEnds(granularity, slots, currentTick, m);
      ready := [];
      while todo != {}
        invariant todo <= bucket && Consistent({})
        invariant taskMap == HalfDrained(m, drained, todo)
        invariant multiset(ready) == multiset(Expired(m, bucket - todo, currentTick))
        decreases todo
      {
        var id :| id in todo;
        HalfDrainedStep(m, drained, todo, id);
        DrainMapAt(granularity, slots, currentTick, m, id);
        ExpiredStep(m, bucket, todo, id, currentTick, ready);
        var fired := DrainOne(id, m, drained);
        if fired {
          ready := ready + [id];
        }
        todo := todo - {id};
      }
      assert Expired(m, bucket - {}, currentTick) == FiredBy(granularity, slots, currentTick, m);
    }

    /** Registers a timer `delayTicks` ahead under the next id. */
    method Add(delayTicks: nat, intervalTicks: nat) returns (id: TimerId)
      requires Valid() && delayTicks >= 1 && currentTick + delayTicks < MAX_TICK
      modifies this
      ensures Valid() && id == old(nextID) + 1
      ensures State() == Spec.Add(old(State()), delayTicks, intervalTicks)
    {
      nextID := nextID + 1;
      id := nextID;
      var t := Task(id, currentTick + delayTicks, intervalTicks, 0, 0);
      ghost var t' := Place(granularity, slots, currentTick, t);
      PlaceAhead(granularity, slots, currentTick, t);
      PlaceKeepsTimer(granularity, slots, currentTick, t);
      LivePut(taskMap, t');
      AllPlacedPut(granularity, slots, currentTick, taskMap, t');
      InsertLocked(t, {});
      assert {} - {id} == {};
    }

    method AfterFunc(d: Duration) returns (id: TimerId)
      requires Valid() && Fits(State(), tick, Op.AfterFunc(d))
      modifies this
      ensures Valid() && id == old(nextID) + 1
      ensures State() == Apply(old(State()), tick, Op.AfterFunc(d))
    {
      id := Add(DelayTicks(d, tick), DurationToTicks(0, tick));
    }

    method Tick(d0: Duration) returns (id: TimerId)
      requires Valid() && Fits(State(), tick, Op.Tick(d0))
      modifies this
      ensures Valid() && id == old(nextID) + 1
      ensures State() == Apply(old(State()), tick, Op.Tick(d0))
    {
      var d := d0;
      if d <= 0 {
        d := tick;
      }
      id := Add(DelayTicks(d, tick), DurationToTicks(d, tick));
    }

    method Stop(handle: Option<TimerId>)
      requires Valid()
      modifies this`taskMap, this`levels
      ensures Valid()
      ensures State() == Apply(old(State()), tick, Op.Stop(handle))
    {
      if handle.None? {
        return;
      }
      var id := handle.value;
      LiveDrop(taskMap, id);
      AllPlacedDrop(granularity, slots, currentTick, taskMap, id);
      if id in taskMap {
        RemoveTask(id);
      } else {
        assert taskMap - {id} == taskMap;
      }
    }

    method Len() returns (n: nat)
      requires Valid()
      ensures n == |State().live|
    {
      n := |taskMap|;
      assert Live(taskMap).Keys == taskMap.Keys;
    }

    /** The cascades of one tick. */
    method CascadeLevels()
      requires Consistent({})
      requires AllPlaced(granularity, slots, currentTick, |granularity|, taskMap)
      modifies this`taskMap, this`levels
      ensures Consistent({})
      ensures taskMap == PassMap(granularity, slots, currentTick, |granularity| - 1, old(taskMap))
    {
      var level := |granularity| - 1;
      while level >= 1
        invariant 0 <= level < |granularity| && Consistent({})
        invariant AllPlaced(granularity, slots, currentTick, level + 1, taskMap)
        invariant PassMap(granularity, slots, currentTick, |granularity| - 1, old(taskMap)) ==
                  PassMap(granularity, slots, currentTick, level, taskMap)
      {
        VisitKeepsPlaced(granularity, slots, currentTick, level, taskMap);
        PlacedBasics(granularity, slots, currentTick, level + 1, taskMap);
        if currentTick % granularity[level] == 0 {
          CascadeLocked(level);
        }
        level := level - 1;
      }
    }

    /** Moves the clock one tick, visits the levels from the top down, and drains the
        current level-0 bucket; the result lists the fired timers. */
    method Advance() returns (ready: seq<TimerId>)
      requires Valid() && Fits(State(), tick, Op.Advance)
      modifies this`currentTick, this`taskMap, this`levels
      ensures Valid()
      ensures State() == Apply(old(State()), tick, Op.Advance)
      ensures multiset(ready) == multiset(Fires(old(State()), Op.Advance))
      ensures taskMap == DrainMap(granularity, slots, currentTick,
                           PassMap(granularity, slots, currentTick, |granularity| - 1, old(taskMap)))
    {
      AdvanceRefines(granularity, slots, currentTick, taskMap);
      currentTick := currentTick + 1;
      CascadeLevels();
      PlacedBasics(granularity, slots, currentTick, 1, taskMap);
      ready := DrainReadyLocked();
    }

    method Perform(op: Op) returns (fired: seq<TimerId>)
      requires Valid() && Fits(State(), tick, op)
      modifies this
      ensures Valid() && State() == Apply(old(State()), tick, op)
      ensures multiset(fired) == multiset(Fires(old(State()), op))
    {
      fired := [];
      match op {
        case AfterFunc(d) => var _ := AfterFunc(d);
        case Tick(d) => var _ := Tick(d);
        case Stop(handle) => Stop(handle);
        case Advance => fired := Advance();
      }
    }
  }

  /** The timers that step `i` of a flat run fires. */
  ghost function FiresAt(s: Timers, tick: Duration, ops: seq<Op>, i: nat): set<TimerId>
    requires tick > 0 && i < |ops|
  {
    Fires(After(s, tick, ops[..i]), ops[i])
  }

  /** Any run of a fresh wheel, whatever its slot and level counts: after every operation
      the wheel is the flat timers, and each Advance fires exactly the timers whose
      deadline is the tick it reaches, each of them once. */
  method Run(tick0: Duration, slots0: int, levelCount0: int, ops: seq<Op>)
    returns (wheel: TimeWheel, log: seq<seq<TimerId>>)
    requires RunFits(Timers(0, 0, map[]), if tick0 <= 0 then DEFAULT_TICK else tick0, ops)
    ensures wheel.Valid() && |log| == |ops| && wheel.tick == if tick0 <= 0 then 100_000_000 else tick0
    ensures wheel.State() == After(Timers(0, 0, map[]), wheel.tick, ops)
    ensures forall i :: 0 <= i < |ops| ==>
              multiset(log[i]) == multiset(FiresAt(Timers(0, 0, map[]), wheel.tick, ops, i))
  {
    wheel := new TimeWheel(tick0, slots0, levelCount0);
    log := [];
    ghost var s0 := Timers(0, 0, map[]);
    var i := 0;
    while i < |ops|
      invariant 0 <= i <= |ops| && |log| == i
      invariant wheel.Valid() && fresh(wheel)
      invariant wheel.State() == After(s0, wheel.tick, ops[..i])
      invariant forall j :: 0 <= j < i ==> multiset(log[j]) == multiset(FiresAt(s0, wheel.tick, ops, j))
    {
      assert ops[..i + 1][..i] == ops[..i];
      assert FitsAt(s0, wheel.tick, ops, i);
      var fired := wheel.Perform(ops[i]);
      log := log + [fired];
      i := i + 1;
    }
    assert ops[..i] == ops;
  }
}
