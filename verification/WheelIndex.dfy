/** The buckets of the wheel as an index of the task map. */
module WheelIndex {
  import opened WheelPlacement

  type Levels = seq<seq<TaskMap>>

  ghost predicate Rectangular(levels: Levels, depth: nat, slots: nat) {
    |levels| == depth && forall l :: 0 <= l < depth ==> |levels[l]| == slots
  }

  /** Every live task outside `detached` is in the one bucket its own fields name, and a
      bucket holds nothing else: the task map is the disjoint union of the buckets. */
  ghost predicate Indexed(levels: Levels, m: TaskMap, detached: set<TaskId>) {
    && (forall id {:trigger Filed(levels, m[id], id)} :: id in m && id !in detached ==> Filed(levels, m[id], id))
    && (forall l, s, id {:trigger Owned(m, detached, levels[l][s][id], l, s, id)} ::
          0 <= l < |levels| && 0 <= s < |levels[l]| && id in levels[l][s] ==>
          Owned(m, detached, levels[l][s][id], l, s, id))
  }

  ghost predicate Filed(levels: Levels, t: Task, id: TaskId) {
    t.level < |levels| && t.slot < |levels[t.level]| && id in levels[t.level][t.slot]
  }

  ghost predicate Owned(m: TaskMap, detached: set<TaskId>, t: Task, l: nat, s: nat, id: TaskId) {
    id in m && id !in detached && t == m[id] && t.level == l && t.slot == s
  }

  /** A live task is in exactly one bucket, the one its own fields name, and no bucket holds
      anything else. */
  lemma OneBucketPerTask(levels: Levels, m: TaskMap, id: TaskId)
    requires Indexed(levels, m, {})
    ensures id in m ==> m[id].level < |levels| && m[id].slot < |levels[m[id].level]|
    ensures forall l, s :: 0 <= l < |levels| && 0 <= s < |levels[l]| ==>
              (id in levels[l][s] <==> id in m && m[id].level == l && m[id].slot == s)
    ensures forall l, s :: 0 <= l < |levels| && 0 <= s < |levels[l]| && id in levels[l][s] ==> levels[l][s][id] == m[id]
  {
    if id in m {
      assert Filed(levels, m[id], id);
    }
    forall l, s | 0 <= l < |levels| && 0 <= s < |levels[l]| && id in levels[l][s]
      ensures id in m && m[id].level == l && m[id].slot == s && levels[l][s][id] == m[id]
    {
      assert Owned(m, {}, levels[l][s][id], l, s, id);
    }
  }

  function SetBucket(levels: Levels, l: nat, s: nat, bucket: TaskMap): (r: Levels)
    requires l < |levels| && s < |levels[l]|
    ensures |r| == |levels| && forall k :: 0 <= k < |r| ==> |r[k]| == |levels[k]|
    ensures forall k, j :: 0 <= k < |r| && 0 <= j < |r[k]| ==> r[k][j] == if k == l && j == s then bucket else levels[k][j]
  {
    levels[l := levels[l][s := bucket]]
  }

  lemma PutKeepsIndex(levels: Levels, m: TaskMap, detached: set<TaskId>, t: Task)
    requires Indexed(levels, m, detached)
    requires t.id in detached || t.id !in m
    requires t.level < |levels| && t.slot < |levels[t.level]|
    ensures Indexed(SetBucket(levels, t.level, t.slot, levels[t.level][t.slot][t.id := t]), m[t.id := t], detached - {t.id})
  {
    var r := SetBucket(levels, t.level, t.slot, levels[t.level][t.slot][t.id := t]);
    var m', d' := m[t.id := t], detached - {t.id};
    forall id | id in m' && id !in d' ensures Filed(r, m'[id], id) {
      if id != t.id {
        assert Filed(levels, m[id], id);
      }
    }
    forall l, s, id | 0 <= l < |r| && 0 <= s < |r[l]| && id in r[l][s] ensures Owned(m', d', r[l][s][id], l, s, id) {
      if id != t.id || !(l == t.level && s == t.slot) {
        assert id in levels[l][s];
        assert Owned(m, detached, levels[l][s][id], l, s, id);
      }
    }
  }

  /** Taking a task out of its bucket detaches it. */
  lemma TakeKeepsIndex(levels: Levels, m: TaskMap, id: TaskId)
    requires Indexed(levels, m, {}) && id in m && Filed(levels, m[id], id)
    ensures var r := SetBucket(levels, m[id].level, m[id].slot, levels[m[id].level][m[id].slot] - {id});
            Indexed(r, m, {id}) && Indexed(r, m - {id}, {})
  {
    var r := SetBucket(levels, m[id].level, m[id].slot, levels[m[id].level][m[id].slot] - {id});
    forall k | k in m && k != id ensures Filed(r, m[k], k) {
      assert Filed(levels, m[k], k);
    }
    forall l, s, k | 0 <= l < |r| && 0 <= s < |r[l]| && k in r[l][s] ensures Owned(m, {id}, r[l][s][k], l, s, k) {
      assert Owned(m, {}, levels[l][s][k], l, s, k);
    }
    forall l, s, k | 0 <= l < |r| && 0 <= s < |r[l]| && k in r[l][s] ensures Owned(m - {id}, {}, r[l][s][k], l, s, k) {
      assert Owned(m, {id}, r[l][s][k], l, s, k);
    }
  }

  /** A bucket is the part of the task map whose fields name it. */
  lemma BucketIsSlice(levels: Levels, m: TaskMap, l: nat, s: nat)
    requires Indexed(levels, m, {}) && l < |levels| && s < |levels[l]|
    ensures levels[l][s] == BucketOf(m, l, s)
  {
    forall id ensures id in levels[l][s] <==> id in BucketOf(m, l, s) {
      if id in levels[l][s] {
        assert Owned(m, {}, levels[l][s][id], l, s, id);
      } else if id in m {
        assert Filed(levels, m[id], id);
      }
    }
    forall id | id in levels[l][s] ensures levels[l][s][id] == BucketOf(m, l, s)[id] {
      assert Owned(m, {}, levels[l][s][id], l, s, id);
    }
  }

  /** Emptying a bucket detaches all of its tasks. */
  lemma EmptyKeepsIndex(levels: Levels, m: TaskMap, l: nat, s: nat)
    requires Indexed(levels, m, {}) && l < |levels| && s < |levels[l]|
    ensures Indexed(SetBucket(levels, l, s, map[]), m, levels[l][s].Keys)
  {
    var r, d := SetBucket(levels, l, s, map[]), levels[l][s].Keys;
    forall id | id in m && id !in d ensures Filed(r, m[id], id) {
      assert Filed(levels, m[id], id);
    }
    forall l', s', id | 0 <= l' < |r| && 0 <= s' < |r[l']| && id in r[l'][s'] ensures Owned(m, d, r[l'][s'][id], l', s', id) {
      assert Owned(m, {}, levels[l'][s'][id], l', s', id);
      if id in d {
        OneBucketPerTask(levels, m, id);
      }
    }
  }
}
