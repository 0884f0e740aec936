/** Directed multigraphs over names: walks, cycles, and the two halves of the argument
    that a topological order exists exactly when there is no cycle. */
module Digraph {
  import opened Strings

  type Name = string

  datatype Edge = Edge(from: Name, to: Name)

  ghost predicate Linked(edges: seq<Edge>, u: Name, v: Name) {
    Edge(u, v) in edges
  }

  ghost predicate IsWalk(edges: seq<Edge>, p: seq<Name>) {
    |p| >= 1 && forall i :: 0 <= i < |p| - 1 ==> Linked(edges, p[i], p[i + 1])
  }

  lemma WalkPrefix(edges: seq<Edge>, p: seq<Name>, n: nat)
    requires IsWalk(edges, p) && 1 <= n <= |p|
    ensures IsWalk(edges, p[..n])
  {
    forall i | 0 <= i < n - 1 ensures Linked(edges, p[..n][i], p[..n][i + 1]) {
      assert Linked(edges, p[i], p[i + 1]);
    }
  }

  lemma WalkPrepend(edges: seq<Edge>, u: Name, p: seq<Name>)
    requires IsWalk(edges, p) && Linked(edges, u, p[0])
    ensures IsWalk(edges, [u] + p)
  {
    var q := [u] + p;
    forall i | 0 <= i < |q| - 1 ensures Linked(edges, q[i], q[i + 1]) {
      if i > 0 {
        assert Linked(edges, p[i - 1], p[i - 1 + 1]);
      }
    }
  }

  ghost predicate IsCycle(edges: seq<Edge>, p: seq<Name>) {
    IsWalk(edges, p) && |p| >= 2 && p[0] == p[|p| - 1]
  }

  ghost predicate Cyclic(edges: seq<Edge>) {
    exists p :: IsCycle(edges, p)
  }

  lemma ElemsAppend(s: seq<Name>, x: Name)
    ensures Elems(s + [x]) == Elems(s) + {x}
    ensures Distinct(s) && x !in s ==> Distinct(s + [x])
  {
    assert x in s + [x];
    forall y | y in s ensures y in s + [x] {}
  }

  lemma ElemsConcat(a: seq<Name>, b: seq<Name>)
    ensures Elems(a + b) == Elems(a) + Elems(b)
    ensures Distinct(a) && Distinct(b) && Elems(a) !! Elems(b) ==> Distinct(a + b)
    ensures Distinct(a + b) ==> Distinct(a) && Distinct(b) && Elems(a) !! Elems(b)
  {
    var c := a + b;
    forall x ensures x in c <==> x in a || x in b {}
    if Distinct(c) {
      forall i, j | 0 <= i < j < |a| ensures a[i] != a[j] {
        assert c[i] == a[i] && c[j] == a[j];
      }
      forall i, j | 0 <= i < j < |b| ensures b[i] != b[j] {
        assert c[|a| + i] == b[i] && c[|a| + j] == b[j];
      }
      forall i, j | 0 <= i < |a| && 0 <= j < |b| ensures a[i] != b[j] {
        assert c[i] == a[i] && c[|a| + j] == b[j];
      }
    }
    if Distinct(a) && Distinct(b) && Elems(a) !! Elems(b) {
      forall i, j | 0 <= i < j < |c| ensures c[i] != c[j] {
        if i < |a| <= j {
          assert c[i] in Elems(a) && b[j - |a|] in Elems(b);
        }
      }
    }
  }

  lemma {:induction false} DistinctSize(s: seq<Name>)
    requires Distinct(s)
    ensures |Elems(s)| == |s|
  {
    if s != [] {
      var t := s[..|s| - 1];
      DistinctSize(t);
      assert s == t + [s[|s| - 1]];
      ElemsAppend(t, s[|s| - 1]);
      assert s[|s| - 1] !in t;
    }
  }

  lemma {:induction false} DistinctMultiset(s: seq<Name>)
    requires Distinct(s)
    ensures multiset(s) == multiset(Elems(s))
  {
    if s != [] {
      var t := s[..|s| - 1];
      DistinctMultiset(t);
      assert s == t + [s[|s| - 1]];
      ElemsAppend(t, s[|s| - 1]);
      assert s[|s| - 1] !in Elems(t);
    }
  }

  lemma {:induction false} SubsetSize(a: set<Name>, b: set<Name>)
    requires a <= b
    ensures |a| <= |b|
    ensures |a| == |b| ==> a == b
  {
    assert b == a + (b - a);
    assert |b| == |a| + |b - a|;
  }

  /** Every edge goes from an earlier to a later place of the order. */
  ghost predicate Respects(order: seq<Name>, edges: seq<Edge>) {
    forall i, j :: 0 <= i < |order| && 0 <= j < |order| && Linked(edges, order[i], order[j]) ==> i < j
  }

  /** Along a walk, places in a respected order grow by at least one per step. */
  lemma {:induction false} WalkClimbs(order: seq<Name>, edges: seq<Edge>, p: seq<Name>, i: nat, j: nat)
    requires Respects(order, edges) && IsWalk(edges, p)
    requires forall k :: 0 <= k < |p| ==> p[k] in order
    requires i < |order| && order[i] == p[0]
    requires j < |order| && order[j] == p[|p| - 1]
    requires Distinct(order)
    ensures j >= i + |p| - 1
  {
    if |p| > 1 {
      var q := p[..|p| - 1];
      assert p[|p| - 2] in order;
      var k :| 0 <= k < |order| && order[k] == p[|p| - 2];
      assert Linked(edges, p[|p| - 2], p[|p| - 2 + 1]);
      WalkPrefix(edges, p, |p| - 1);
      WalkClimbs(order, edges, q, i, k);
    }
  }

  /** A graph with a respected order of all its nodes has no cycle. */
  lemma OrderRefutesCycle(order: seq<Name>, edges: seq<Edge>)
    requires Distinct(order) && Respects(order, edges)
    requires forall e :: e in edges ==> e.from in order && e.to in order
    ensures !Cyclic(edges)
  {
    forall p | IsCycle(edges, p) ensures false {
      forall k | 0 <= k < |p| ensures p[k] in order {
        var j := if k < |p| - 1 then k else 0;
        assert Linked(edges, p[j], p[j + 1]);
        assert Edge(p[j], p[j + 1]) in edges;
      }
      var i :| 0 <= i < |order| && order[i] == p[0];
      WalkClimbs(order, edges, p, i, i);
    }
  }

  ghost predicate HasPredecessor(edges: seq<Edge>, r: set<Name>, v: Name) {
    exists u :: u in r && Linked(edges, u, v)
  }

  /** Walking backwards inside a finite set in which every node has a predecessor must
      come back to a node already on the walk. */
  lemma {:induction false} BackwardsWalkCloses(edges: seq<Edge>, r: set<Name>, p: seq<Name>) returns (cycle: seq<Name>)
    requires IsWalk(edges, p) && Distinct(p) && Elems(p) <= r
    requires forall v {:trigger HasPredecessor(edges, r, v)} :: v in r ==> HasPredecessor(edges, r, v)
    ensures IsCycle(edges, cycle)
    decreases |r| - |p|
  {
    DistinctSize(p);
    SubsetSize(Elems(p), r);
    assert p[0] in Elems(p);
    assert HasPredecessor(edges, r, p[0]);
    var u :| u in r && Linked(edges, u, p[0]);
    if u in p {
      var i :| 0 <= i < |p| && p[i] == u;
      WalkPrefix(edges, p, i + 1);
      WalkPrepend(edges, u, p[..i + 1]);
      cycle := [u] + p[..i + 1];
    } else {
      var q := [u] + p;
      WalkPrepend(edges, u, p);
      assert Elems(q) == {u} + Elems(p);
      DistinctSize(q);
      SubsetSize(Elems(q), r);
      cycle := BackwardsWalkCloses(edges, r, q);
    }
  }

  lemma StuckSetHasCycle(edges: seq<Edge>, r: set<Name>)
    requires r != {}
    requires forall v {:trigger HasPredecessor(edges, r, v)} :: v in r ==> HasPredecessor(edges, r, v)
    ensures Cyclic(edges)
  {
    var v :| v in r;
    assert Elems([v]) == {v};
    var cycle := BackwardsWalkCloses(edges, r, [v]);
  }

  // ----- Ranks -----

  /** A rank that falls along every edge between nodes of a set. */
  ghost predicate Ranks(rank: map<Name, nat>, names: set<Name>, edges: seq<Edge>) {
    && names <= rank.Keys
    && forall u, v :: u in names && v in names && Linked(edges, u, v) ==> rank[v] < rank[u]
  }

  /** A graph without a cycle has such a rank: remove nodes without predecessors, highest
      first. */
  lemma {:induction false} AcyclicHasRank(names: set<Name>, edges: seq<Edge>) returns (rank: map<Name, nat>)
    requires !Cyclic(edges)
    ensures Ranks(rank, names, edges) && rank.Keys == names
    ensures forall v :: v in rank ==> rank[v] < |names|
    decreases |names|
  {
    if names == {} {
      rank := map[];
    } else {
      if forall v :: v in names ==> HasPredecessor(edges, names, v) {
        StuckSetHasCycle(edges, names);
        assert false;
      }
      var top :| top in names && !HasPredecessor(edges, names, top);
      var lower := AcyclicHasRank(names - {top}, edges);
      rank := lower[top := |names| - 1];
      forall u, v | u in names && v in names && Linked(edges, u, v) ensures rank[v] < rank[u] {
        assert v != top;
      }
    }
  }

  // ----- Degrees -----

  /** Heads of the edges that leave `u`, in order and with repetition. */
  function Out(edges: seq<Edge>, u: Name): seq<Name> {
    if edges == [] then [] else
      var e := edges[|edges| - 1];
      Out(edges[..|edges| - 1], u) + if e.from == u then [e.to] else []
  }

  /** Number of edges into `v` from nodes outside `done`, with repetition. */
  function InDegree(edges: seq<Edge>, done: set<Name>, v: Name): nat {
    if edges == [] then 0 else
      var e := edges[|edges| - 1];
      InDegree(edges[..|edges| - 1], done, v) + if e.to == v && e.from !in done then 1 else 0
  }

  lemma {:induction false} InDegreeDrops(edges: seq<Edge>, done: set<Name>, u: Name, v: Name)
    requires u !in done
    ensures InDegree(edges, done, v) == InDegree(edges, done + {u}, v) + multiset(Out(edges, u))[v]
  {
    if edges != [] {
      InDegreeDrops(edges[..|edges| - 1], done, u, v);
    }
  }

  lemma {:induction false} InDegreeZero(edges: seq<Edge>, done: set<Name>, v: Name)
    ensures InDegree(edges, done, v) == 0 <==> forall u :: Linked(edges, u, v) ==> u in done
  {
    if edges != [] {
      var rest, e := edges[..|edges| - 1], edges[|edges| - 1];
      InDegreeZero(rest, done, v);
      assert edges == rest + [e];
      forall u ensures Linked(edges, u, v) <==> Linked(rest, u, v) || e == Edge(u, v) {}
      if InDegree(edges, done, v) == 0 {
        forall u | Linked(edges, u, v) ensures u in done {}
      } else if e.to == v && e.from !in done {
        assert Linked(edges, e.from, v);
      } else {
        var u :| Linked(rest, u, v) && u !in done;
        assert Linked(edges, u, v);
      }
    }
  }

  lemma {:induction false} OutIsLinked(edges: seq<Edge>, u: Name, v: Name)
    ensures v in Out(edges, u) <==> Linked(edges, u, v)
  {
    if edges != [] {
      var rest, e := edges[..|edges| - 1], edges[|edges| - 1];
      OutIsLinked(rest, u, v);
      assert edges == rest + [e];
    }
  }
}
