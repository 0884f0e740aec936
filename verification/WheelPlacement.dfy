/** Where the wheel puts a task, and why visiting one bucket per level per tick finds
    every task in time. Tasks are values here; the class in TimeWheel.dfy keeps the
    buckets and the task map in step with these definitions. */
module WheelPlacement {
  import opened WheelMath

  type TaskId = nat

  datatype Task = Task(id: TaskId, expire: nat, interval: nat, level: nat, slot: nat)

  type TaskMap = map<TaskId, Task>

  /** The highest level whose granularity does not exceed the delay (level 0 if none). */
  function LevelAtMost(g: seq<nat>, top: nat, delay: nat): (level: nat)
    requires top < |g|
    ensures level <= top
    ensures level > 0 ==> g[level] <= delay
    ensures forall k :: level < k <= top ==> delay < g[k]
  {
    if top == 0 || g[top] <= delay then top else LevelAtMost(g, top - 1, delay)
  }

  /** The bucket chosen for a task at tick `now`. */
  function Place(g: seq<nat>, slots: nat, now: nat, t: Task): Task
    requires slots >= 1 && |g| >= 1 && forall i :: 0 <= i < |g| ==> g[i] >= 1
  {
    var level := if t.expire > now then LevelAtMost(g, |g| - 1, t.expire - now) else 0;
    t.(level := level, slot := (t.expire / g[level]) % slots)
  }

  /** The positional invariant at tick `now`, with the levels from `k` up already visited:
      the slot is the one covering the deadline, the level's granularity is not clamped,
      and the granule of the deadline has not been passed - for a visited level, and for one
      whose boundary is elsewhere, it is still ahead - and below the top level the deadline
      is less than one revolution away. */
  ghost predicate Placed(g: seq<nat>, slots: nat, now: nat, k: nat, t: Task)
    requires Chain(g, slots)
  {
    && t.level < |g|
    && 1 <= g[t.level] < MAX_TICK
    && t.slot == (t.expire / g[t.level]) % slots
    && now <= t.expire < MAX_TICK
    && now / g[t.level] <= t.expire / g[t.level]
    && (t.level >= k || now % g[t.level] != 0 ==> now / g[t.level] < t.expire / g[t.level])
    && (t.level < |g| - 1 ==> t.expire < now + g[t.level] * slots)
  }

  ghost predicate AllPlaced(g: seq<nat>, slots: nat, now: nat, k: nat, m: TaskMap)
    requires Chain(g, slots)
  {
    forall id {:trigger PlacedAt(g, slots, now, k, m, id)} :: id in m ==> PlacedAt(g, slots, now, k, m, id)
  }

  ghost predicate PlacedAt(g: seq<nat>, slots: nat, now: nat, k: nat, m: TaskMap, id: TaskId)
    requires Chain(g, slots) && id in m
  {
    m[id].id == id && Placed(g, slots, now, k, m[id])
  }

  lemma PlacedBasics(g: seq<nat>, slots: nat, now: nat, k: nat, m: TaskMap)
    requires Chain(g, slots) && AllPlaced(g, slots, now, k, m)
    ensures forall id :: id in m ==> m[id].id == id && now <= m[id].expire
  {
    forall id | id in m ensures m[id].id == id && now <= m[id].expire {
      assert PlacedAt(g, slots, now, k, m, id);
    }
  }

  lemma PlaceKeepsTimer(g: seq<nat>, slots: nat, now: nat, t: Task)
    requires slots >= 1 && |g| >= 1 && forall i :: 0 <= i < |g| ==> g[i] >= 1
    ensures var t' := Place(g, slots, now, t);
            t'.id == t.id && t'.expire == t.expire && t'.interval == t.interval
  {
  }

  lemma AllPlacedPut(g: seq<nat>, slots: nat, now: nat, m: TaskMap, t: Task)
    requires Chain(g, slots) && AllPlaced(g, slots, now, 0, m) && Placed(g, slots, now, 0, t)
    ensures AllPlaced(g, slots, now, 0, m[t.id := t])
  {
    var m' := m[t.id := t];
    forall id | id in m' ensures PlacedAt(g, slots, now, 0, m', id) {
      if id != t.id {
        assert PlacedAt(g, slots, now, 0, m, id);
      }
    }
  }

  lemma AllPlacedDrop(g: seq<nat>, slots: nat, now: nat, m: TaskMap, id: TaskId)
    requires Chain(g, slots) && AllPlaced(g, slots, now, 0, m)
    ensures AllPlaced(g, slots, now, 0, m - {id})
  {
    forall k | k in m - {id} ensures PlacedAt(g, slots, now, 0, m - {id}, k) {
      assert PlacedAt(g, slots, now, 0, m, k);
    }
  }

  /** A bucket of a non-top level is next visited in the granule of its tasks' deadline:
      the granule is ahead, by at most one revolution. */
  lemma NextVisitIsDeadlineGranule(g: seq<nat>, slots: nat, now: nat, t: Task)
    requires Chain(g, slots) && Placed(g, slots, now, 0, t) && t.level < |g| - 1
    ensures now / g[t.level] < t.expire / g[t.level] <= now / g[t.level] + slots
  {
    var gl := g[t.level];
    var q, p := now / gl, t.expire / gl;
    assert now < gl * q + gl && gl * p <= t.expire;
    assert gl * (q + slots + 1) == gl * q + gl * slots + gl;
    MulMono(gl, q + slots + 1, p);
  }

  /** Saturation is harmless: up to the level of any stored task the granularities are the
      exact powers of the slot count, each a multiple of the one below. */
  lemma StoredLevelsAreExact(g: seq<nat>, slots: nat, now: nat, k: nat, t: Task, i: nat)
    requires Chain(g, slots) && Placed(g, slots, now, k, t) && i <= t.level
    ensures g[i] == Pow(slots, i) < MAX_TICK
    ensures i > 0 ==> g[i] == g[i - 1] * slots
  {
    ChainMono(g, slots, i, t.level);
    GranularityIsClampedPower(g, slots, i);
    if i > 0 {
      ChainMono(g, slots, i - 1, i);
      ChainStep(g, slots, i - 1);
    }
  }

  lemma ChainPositive(g: seq<nat>, slots: nat)
    requires Chain(g, slots)
    ensures forall i :: 0 <= i < |g| ==> 1 <= g[i] <= MAX_TICK
  {
    forall i | 0 <= i < |g| ensures 1 <= g[i] <= MAX_TICK {
      ChainMono(g, slots, i, i);
    }
  }

  /** A task that is not yet due is placed ahead of every level's hand, at an unclamped
      level, whatever the slot and level counts. */
  lemma PlaceAhead(g: seq<nat>, slots: nat, now: nat, t: Task)
    requires Chain(g, slots) && forall i :: 0 <= i < |g| ==> g[i] >= 1
    requires now < t.expire < MAX_TICK
    ensures Placed(g, slots, now, 0, Place(g, slots, now, t))
  {
    var delay := t.expire - now;
    var level := LevelAtMost(g, |g| - 1, delay);
    if level > 0 {
      DivGap(now, t.expire, g[level]);
    }
    if level < |g| - 1 {
      ChainMono(g, slots, level, level);
      ChainStep(g, slots, level);
    }
    DivMono(now, t.expire, g[level]);
  }

  /** A task that is due goes to the level-0 bucket that this tick drains. */
  lemma PlaceDue(g: seq<nat>, slots: nat, now: nat, t: Task)
    requires Chain(g, slots) && forall i :: 0 <= i < |g| ==> g[i] >= 1
    requires now == t.expire < MAX_TICK
    ensures Place(g, slots, now, t).level == 0 && Place(g, slots, now, t).slot == now % slots
    ensures Placed(g, slots, now, 1, Place(g, slots, now, t))
  {
    assert g[0] == 1;
    assert t.expire / 1 == t.expire;
    assert now + g[0] * slots == now + slots;
  }

  /** Moving the clock one tick, before any bucket is visited, keeps the weak invariant. */
  lemma TickKeepsPlaced(g: seq<nat>, slots: nat, now: nat, t: Task)
    requires Chain(g, slots) && Placed(g, slots, now, 0, t)
    ensures Placed(g, slots, now + 1, |g|, t)
  {
    DivTick(now + 1, g[t.level]);
    assert now < t.expire by {
      assert now / g[t.level] < t.expire / g[t.level];
      if t.expire <= now { DivMono(t.expire, now, g[t.level]); }
    }
  }

  lemma AllTickKeepsPlaced(g: seq<nat>, slots: nat, now: nat, m: TaskMap)
    requires Chain(g, slots) && AllPlaced(g, slots, now, 0, m)
    ensures AllPlaced(g, slots, now + 1, |g|, m)
  {
    forall id | id in m ensures PlacedAt(g, slots, now + 1, |g|, m, id) {
      assert PlacedAt(g, slots, now, 0, m, id);
      TickKeepsPlaced(g, slots, now, m[id]);
    }
  }

  /** A level whose boundary this tick does not cross needs no visit. */
  lemma SkipKeepsPlaced(g: seq<nat>, slots: nat, now: nat, level: nat, m: TaskMap)
    requires Chain(g, slots) && level < |g| && g[level] >= 1
    requires AllPlaced(g, slots, now, level + 1, m) && now % g[level] != 0
    ensures AllPlaced(g, slots, now, level, m)
  {
    forall id | id in m ensures PlacedAt(g, slots, now, level, m, id) {
      assert PlacedAt(g, slots, now, level + 1, m, id);
    }
  }

  predicate InBucket(t: Task, level: nat, slot: nat) {
    t.level == level && t.slot == slot
  }

  function Hand(g: seq<nat>, slots: nat, now: nat, level: nat): nat
    requires slots >= 1 && level < |g| && g[level] >= 1
  {
    (now / g[level]) % slots
  }

  /** On a level's boundary, a waiting task outside the current bucket is ahead of it;
      one inside it either reaches this granule now or, on the top level only, is whole
      revolutions away. */
  lemma BoundaryBucket(g: seq<nat>, slots: nat, now: nat, k: nat, t: Task)
    requires Chain(g, slots) && Placed(g, slots, now, k, t) && now % g[t.level] == 0
    ensures t.slot != Hand(g, slots, now, t.level) ==> now / g[t.level] < t.expire / g[t.level]
    ensures t.slot == Hand(g, slots, now, t.level) && t.level < |g| - 1 ==>
              now / g[t.level] == t.expire / g[t.level] && t.expire < now + g[t.level]
    ensures t.slot == Hand(g, slots, now, t.level) && now / g[t.level] != t.expire / g[t.level] ==>
              t.expire >= now + g[t.level] * slots
  {
    var gl := g[t.level];
    var q, p := now / gl, t.expire / gl;
    if t.level < |g| - 1 {
      WithinRevolution(now, t.expire, gl, slots);
    }
    if q < p && t.slot == q % slots {
      SameSlot(q, p, slots);
      RevolutionTicks(now, t.expire, gl, slots);
    }
    if q == p {
      SameGranule(now, t.expire, gl);
    }
  }

  /** A cascaded task leaves its level, or goes back to the very bucket it was in: it never
      lands in a bucket of a lower level that this same pass has yet to visit. */
  lemma CascadeLandsClear(g: seq<nat>, slots: nat, now: nat, k: nat, t: Task)
    requires Chain(g, slots) && forall i :: 0 <= i < |g| ==> g[i] >= 1
    requires Placed(g, slots, now, k, t) && t.level >= 1
    requires now % g[t.level] == 0 && t.slot == Hand(g, slots, now, t.level)
    ensures var t' := Place(g, slots, now, t);
            || (t' == t && t.level == |g| - 1)
            || (t'.level < t.level &&
                (t'.level >= 1 ==> now % g[t'.level] == 0 && t'.slot != Hand(g, slots, now, t'.level)))
  {
    BoundaryBucket(g, slots, now, k, t);
    var gl := g[t.level];
    var t' := Place(g, slots, now, t);
    if now / gl == t.expire / gl {
      SameGranule(now, t.expire, gl);
      if t.expire > now {
        LevelBelow(g, slots, t.level, t.expire - now);
        if t'.level >= 1 {
          PlaceAhead(g, slots, now, t);
          ChainDivides(g, slots, t'.level, t.level, now);
          BoundaryBucket(g, slots, now, 0, t');
        }
      }
    } else {
      MulMono(gl, 1, slots);
      TopStaysTop(g, slots, t.expire - now);
    }
  }

  lemma LevelBelow(g: seq<nat>, slots: nat, level: nat, delay: nat)
    requires Chain(g, slots) && 1 <= level < |g| && delay < g[level]
    ensures LevelAtMost(g, |g| - 1, delay) < level
  {
    var l := LevelAtMost(g, |g| - 1, delay);
    if l >= level {
      ChainMono(g, slots, level, l);
    }
  }

  lemma TopStaysTop(g: seq<nat>, slots: nat, delay: nat)
    requires Chain(g, slots) && delay >= g[|g| - 1]
    ensures LevelAtMost(g, |g| - 1, delay) == |g| - 1
  {
  }

  /** Visiting one level: every task of the current bucket is placed again. */
  function CascadeMap(g: seq<nat>, slots: nat, now: nat, level: nat, m: TaskMap): TaskMap
    requires slots >= 1 && level < |g| && forall i :: 0 <= i < |g| ==> g[i] >= 1
  {
    map id | id in m ::
      if InBucket(m[id], level, Hand(g, slots, now, level)) then Place(g, slots, now, m[id]) else m[id]
  }

  function BucketOf(m: TaskMap, level: nat, slot: nat): TaskMap {
    map id | id in m && InBucket(m[id], level, slot) :: m[id]
  }

  function PlaceAll(g: seq<nat>, slots: nat, now: nat, ts: TaskMap): TaskMap
    requires slots >= 1 && |g| >= 1 && forall i :: 0 <= i < |g| ==> g[i] >= 1
  {
    map id | id in ts :: Place(g, slots, now, ts[id])
  }

  lemma CascadeReplacesBucket(g: seq<nat>, slots: nat, now: nat, level: nat, m: TaskMap)
    requires slots >= 1 && level < |g| && forall i :: 0 <= i < |g| ==> g[i] >= 1
    ensures m + PlaceAll(g, slots, now, BucketOf(m, level, Hand(g, slots, now, level)))
         == CascadeMap(g, slots, now, level, m)
  {
    var left := m + PlaceAll(g, slots, now, BucketOf(m, level, Hand(g, slots, now, level)));
    var right := CascadeMap(g, slots, now, level, m);
    assert left.Keys == m.Keys == right.Keys;
    forall id | id in m ensures left[id] == right[id] {}
  }

  /** The same deadlines and periods in both maps. */
  ghost predicate SameTimers(m: TaskMap, m': TaskMap) {
    m.Keys == m'.Keys &&
    forall id :: id in m ==> m'[id].id == m[id].id && m'[id].expire == m[id].expire && m'[id].interval == m[id].interval
  }

  /** Visiting a level on its boundary advances the invariant by that level. */
  lemma CascadeKeepsPlaced(g: seq<nat>, slots: nat, now: nat, level: nat, m: TaskMap)
    requires Chain(g, slots) && 1 <= level < |g| && forall i :: 0 <= i < |g| ==> g[i] >= 1
    requires AllPlaced(g, slots, now, level + 1, m) && now % g[level] == 0
    ensures AllPlaced(g, slots, now, level, CascadeMap(g, slots, now, level, m))
    ensures SameTimers(m, CascadeMap(g, slots, now, level, m))
  {
    var m' := CascadeMap(g, slots, now, level, m);
    forall id | id in m' ensures PlacedAt(g, slots, now, level, m', id) {
      var t := m[id];
      assert PlacedAt(g, slots, now, level + 1, m, id);
      if InBucket(t, level, Hand(g, slots, now, level)) {
        if t.expire > now { PlaceAhead(g, slots, now, t); } else { PlaceDue(g, slots, now, t); }
      } else if t.level == level {
        BoundaryBucket(g, slots, now, level + 1, t);
      }
    }
  }

  /** Visiting one level at a tick: a cascade on its boundary, nothing elsewhere. */
  function VisitMap(g: seq<nat>, slots: nat, now: nat, level: nat, m: TaskMap): TaskMap
    requires slots >= 1 && level < |g| && forall i :: 0 <= i < |g| ==> g[i] >= 1
  {
    if now % g[level] != 0 then m else CascadeMap(g, slots, now, level, m)
  }

  lemma VisitKeepsPlaced(g: seq<nat>, slots: nat, now: nat, level: nat, m: TaskMap)
    requires Chain(g, slots) && 1 <= level < |g| && forall i :: 0 <= i < |g| ==> g[i] >= 1
    requires AllPlaced(g, slots, now, level + 1, m)
    ensures AllPlaced(g, slots, now, level, VisitMap(g, slots, now, level, m))
    ensures SameTimers(m, VisitMap(g, slots, now, level, m))
  {
    if now % g[level] == 0 {
      CascadeKeepsPlaced(g, slots, now, level, m);
    } else {
      SkipKeepsPlaced(g, slots, now, level, m);
    }
  }

  /** The pass of one tick: the levels from `level` down to 1, in that order. */
  function PassMap(g: seq<nat>, slots: nat, now: nat, level: nat, m: TaskMap): TaskMap
    requires slots >= 1 && level < |g| && forall i :: 0 <= i < |g| ==> g[i] >= 1
    decreases level
  {
    if level == 0 then m else PassMap(g, slots, now, level - 1, VisitMap(g, slots, now, level, m))
  }

  /** The whole pass brings every task ahead of its level's hand, or to level 0 if due. */
  lemma {:induction false} PassKeepsPlaced(g: seq<nat>, slots: nat, now: nat, level: nat, m: TaskMap)
    requires Chain(g, slots) && level < |g| && forall i :: 0 <= i < |g| ==> g[i] >= 1
    requires AllPlaced(g, slots, now, level + 1, m)
    ensures AllPlaced(g, slots, now, 1, PassMap(g, slots, now, level, m))
    ensures SameTimers(m, PassMap(g, slots, now, level, m))
    decreases level
  {
    if level > 0 {
      VisitKeepsPlaced(g, slots, now, level, m);
      PassKeepsPlaced(g, slots, now, level - 1, VisitMap(g, slots, now, level, m));
    }
  }

  /** How many cascades of the pass move a task. */
  ghost function Moves(g: seq<nat>, slots: nat, now: nat, level: nat, m: TaskMap, id: TaskId): nat
    requires slots >= 1 && level < |g| && forall i :: 0 <= i < |g| ==> g[i] >= 1
    requires id in m
    decreases level
  {
    if level == 0 then 0 else
      (if now % g[level] == 0 && InBucket(m[id], level, Hand(g, slots, now, level)) then 1 else 0)
      + Moves(g, slots, now, level - 1, VisitMap(g, slots, now, level, m), id)
  }

  /** A task at rest for the remainder of the pass: it is above the levels still to visit,
      on level 0, or in a bucket that is not the current one. */
  ghost predicate Settled(g: seq<nat>, slots: nat, now: nat, level: nat, t: Task)
    requires slots >= 1 && forall i :: 0 <= i < |g| ==> g[i] >= 1
  {
    1 <= t.level <= level && t.level < |g| ==> t.slot != Hand(g, slots, now, t.level)
  }

  lemma {:induction false} SettledNeverMoves(g: seq<nat>, slots: nat, now: nat, level: nat, m: TaskMap, id: TaskId)
    requires slots >= 1 && level < |g| && forall i :: 0 <= i < |g| ==> g[i] >= 1
    requires id in m && Settled(g, slots, now, level, m[id])
    ensures Moves(g, slots, now, level, m, id) == 0
    decreases level
  {
    if level > 0 {
      var m' := VisitMap(g, slots, now, level, m);
      assert m'[id] == m[id];
      SettledNeverMoves(g, slots, now, level - 1, m', id);
    }
  }

  /** One top-down pass is enough and moves each task at most once. */
  lemma {:induction false} AtMostOneMovePerTick(g: seq<nat>, slots: nat, now: nat, level: nat, m: TaskMap, id: TaskId)
    requires Chain(g, slots) && level < |g| && forall i :: 0 <= i < |g| ==> g[i] >= 1
    requires AllPlaced(g, slots, now, level + 1, m) && id in m
    ensures Moves(g, slots, now, level, m, id) <= 1
    decreases level
  {
    if level > 0 {
      var m' := VisitMap(g, slots, now, level, m);
      if now % g[level] == 0 && InBucket(m[id], level, Hand(g, slots, now, level)) {
        assert PlacedAt(g, slots, now, level + 1, m, id);
        CascadeLandsClear(g, slots, now, level + 1, m[id]);
        SettledNeverMoves(g, slots, now, level - 1, m', id);
      } else {
        VisitKeepsPlaced(g, slots, now, level, m);
        AtMostOneMovePerTick(g, slots, now, level - 1, m', id);
      }
    }
  }

  /** Draining level 0: due tasks are removed, periodic ones among them start again. */
  function DrainMap(g: seq<nat>, slots: nat, now: nat, m: TaskMap): TaskMap
    requires slots >= 1 && |g| >= 1 && forall i :: 0 <= i < |g| ==> g[i] >= 1
  {
    map id | id in m && (InBucket(m[id], 0, Hand(g, slots, now, 0)) && m[id].expire <= now ==> m[id].interval > 0) ::
      Drained(g, slots, now, m[id])
  }

  function Drained(g: seq<nat>, slots: nat, now: nat, t: Task): Task
    requires slots >= 1 && |g| >= 1 && forall i :: 0 <= i < |g| ==> g[i] >= 1
  {
    if !InBucket(t, 0, Hand(g, slots, now, 0)) then t
    else if t.expire > now then Place(g, slots, now, t)
    else Place(g, slots, now, t.(expire := now + t.interval))
  }

  /** The task map halfway through draining, with the tasks of `todo` still to handle. */
  function HalfDrained(m: TaskMap, drained: TaskMap, todo: set<TaskId>): TaskMap {
    map id | id in m && (id in todo || id in drained) :: if id in todo then m[id] else drained[id]
  }

  function DrainedAt(m: TaskMap, drained: TaskMap, id: TaskId): TaskMap {
    if id in drained then m[id := drained[id]] else m - {id}
  }

  lemma HalfDrainedStep(m: TaskMap, drained: TaskMap, todo: set<TaskId>, id: TaskId)
    requires id in todo && todo <= m.Keys
    ensures id in HalfDrained(m, drained, todo) && HalfDrained(m, drained, todo)[id] == m[id]
    ensures HalfDrained(m, drained, todo - {id}) == DrainedAt(HalfDrained(m, drained, todo), drained, id)
  {
  }

  lemma DrainMapAt(g: seq<nat>, slots: nat, now: nat, m: TaskMap, id: TaskId)
    requires slots >= 1 && |g| >= 1 && forall i :: 0 <= i < |g| ==> g[i] >= 1
    requires id in BucketOf(m, 0, Hand(g, slots, now, 0))
    ensures var drained := DrainMap(g, slots, now, m);
            if m[id].expire > now then id in drained && drained[id] == Place(g, slots, now, m[id])
            else if m[id].interval == 0 then id !in drained
            else id in drained && drained[id] == Place(g, slots, now, m[id].(expire := now + m[id].interval))
  {
  }

  lemma HalfDrainedEnds(g: seq<nat>, slots: nat, now: nat, m: TaskMap)
    requires slots >= 1 && |g| >= 1 && forall i :: 0 <= i < |g| ==> g[i] >= 1
    ensures var drained := DrainMap(g, slots, now, m);
            && HalfDrained(m, drained, BucketOf(m, 0, Hand(g, slots, now, 0)).Keys) == m
            && HalfDrained(m, drained, {}) == drained
  {
    var drained := DrainMap(g, slots, now, m);
    var whole := HalfDrained(m, drained, BucketOf(m, 0, Hand(g, slots, now, 0)).Keys);
    assert whole.Keys == m.Keys;
    forall id | id in m ensures whole[id] == m[id] {}
    assert HalfDrained(m, drained, {}).Keys == drained.Keys;
  }

  /** After the pass the drained bucket holds every due task, and with two or more levels
      nothing else. */
  lemma DrainedBucketIsDue(g: seq<nat>, slots: nat, now: nat, t: Task)
    requires Chain(g, slots) && Placed(g, slots, now, 1, t)
    ensures t.expire == now ==> InBucket(t, 0, Hand(g, slots, now, 0))
    ensures InBucket(t, 0, Hand(g, slots, now, 0)) && |g| >= 2 ==> t.expire == now
  {
    assert g[0] == 1 && now / 1 == now && t.expire / 1 == t.expire;
    if InBucket(t, 0, Hand(g, slots, now, 0)) && |g| >= 2 && now < t.expire {
      SameSlot(now, t.expire, slots);
    }
  }

  /** Draining restores the full invariant of the new tick. */
  lemma DrainKeepsPlaced(g: seq<nat>, slots: nat, now: nat, m: TaskMap)
    requires Chain(g, slots) && forall i :: 0 <= i < |g| ==> g[i] >= 1
    requires AllPlaced(g, slots, now, 1, m)
    requires forall id :: id in m && m[id].expire == now && m[id].interval > 0 ==> now + m[id].interval < MAX_TICK
    ensures AllPlaced(g, slots, now, 0, DrainMap(g, slots, now, m))
  {
    var m' := DrainMap(g, slots, now, m);
    forall id | id in m' ensures PlacedAt(g, slots, now, 0, m', id) {
      var t := m[id];
      assert PlacedAt(g, slots, now, 1, m, id);
      DrainedBucketIsDue(g, slots, now, t);
      if InBucket(t, 0, Hand(g, slots, now, 0)) {
        var u := if t.expire > now then t else t.(expire := now + t.interval);
        PlaceAhead(g, slots, now, u);
      } else if t.level == 0 {
        assert g[0] == 1 && now / 1 == now && t.expire / 1 == t.expire;
      }
    }
  }
}
