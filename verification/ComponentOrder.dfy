/** Start-up order of services and modules: Kahn's algorithm over declared constraints. */
module ComponentOrder {
  import opened Basics
  import opened Digraph
  import opened Strings

  datatype Service = Service(name: Name, before: seq<Name>, after: seq<Name>)

  datatype Module = Module(name: Name, dependsOn: seq<Name>)

  datatype Resolution = Ordered(order: seq<Name>) | UnknownReference(owner: Name, target: Name) | CyclicDependency

  // ----- Kahn's algorithm -----

  /** The nodes that become free when `name` is emitted after `done`. */
  ghost function Freed(edges: seq<Edge>, done: set<Name>, name: Name): set<Name> {
    set v | v in Out(edges, name) && InDegree(edges, done + {name}, v) == 0
  }

  /** The order the queue discipline produces: first come, first served, with the nodes
      freed by one emission queued in lexicographic order. */
  ghost function QueueOrder(edges: seq<Edge>, done: set<Name>, queue: seq<Name>, steps: nat): seq<Name>
    decreases steps
  {
    if steps == 0 || queue == [] then []
    else [queue[0]] + QueueOrder(edges, done + {queue[0]}, queue[1..] + Sorted(Freed(edges, done, queue[0])), steps - 1)
  }

  lemma QueueOrderStep(edges: seq<Edge>, done: set<Name>, queue: seq<Name>, steps: nat, result: seq<Name>)
    requires steps > 0 && queue != []
    ensures result + QueueOrder(edges, done, queue, steps) ==
            (result + [queue[0]]) +
            QueueOrder(edges, done + {queue[0]}, queue[1..] + Sorted(Freed(edges, done, queue[0])), steps - 1)
  {
  }

  ghost function Roots(names: set<Name>, edges: seq<Edge>): set<Name> {
    set v | v in names && InDegree(edges, {}, v) == 0
  }

  ghost predicate Closed(names: set<Name>, edges: seq<Edge>) {
    forall e :: e in edges ==> e.from in names && e.to in names
  }

  /** The degree of `v` counts its edges from outside `done` and its places in `left`. */
  ghost predicate HasDegree(degrees: map<Name, int>, edges: seq<Edge>, done: set<Name>, left: seq<Name>, v: Name) {
    v in degrees && degrees[v] == InDegree(edges, done, v) + multiset(left)[v]
  }

  /** The degrees of a graph of which `done` is emitted, with the decrements for `left`, a
      tail of the last emitted node's successors, still to come. */
  ghost predicate Releasing(degrees: map<Name, int>, names: set<Name>, edges: seq<Edge>, done: set<Name>, left: seq<Name>) {
    degrees.Keys == names &&
    forall v {:trigger HasDegree(degrees, edges, done, left, v)} :: v in names ==> HasDegree(degrees, edges, done, left, v)
  }

  ghost predicate GraphOk(graph: map<Name, seq<Name>>, edges: seq<Edge>) {
    forall u :: Successors(graph, u) == Out(edges, u)
  }

  /** Go's reading of a missing key: the empty list. */
  function Successors(graph: map<Name, seq<Name>>, u: Name): seq<Name> {
    if u in graph then graph[u] else []
  }

  /** The nodes with no predecessor outside `done`. */
  ghost function FreeSet(names: set<Name>, edges: seq<Edge>, done: set<Name>): set<Name> {
    set v | v in names && InDegree(edges, done, v) == 0
  }

  /** The emitted and queued nodes are exactly those with no unemitted predecessor, and each
      emitted node was free when it was emitted. */
  ghost predicate Frontier(names: set<Name>, edges: seq<Edge>, result: seq<Name>, queue: seq<Name>) {
    && Distinct(result) && Distinct(queue) && Elems(result) !! Elems(queue)
    && Elems(result) + Elems(queue) == FreeSet(names, edges, Elems(result))
    && EmittedFree(edges, result)
  }

  ghost predicate EmittedFree(edges: seq<Edge>, result: seq<Name>) {
    forall i :: 0 <= i < |result| ==> InDegree(edges, Elems(result[..i]), result[i]) == 0
  }

  lemma EmittedRespects(edges: seq<Edge>, result: seq<Name>)
    requires Distinct(result) && EmittedFree(edges, result)
    ensures Respects(result, edges)
  {
    forall i, j | 0 <= i < |result| && 0 <= j < |result| && Linked(edges, result[i], result[j]) ensures i < j {
      InDegreeZero(edges, Elems(result[..j]), result[j]);
      assert result[i] in result[..j];
    }
  }

  /** An empty queue before every node is emitted leaves a set in which every node waits
      for another: a cycle. */
  lemma StuckMeansCyclic(names: set<Name>, edges: seq<Edge>, result: seq<Name>)
    requires Closed(names, edges) && Frontier(names, edges, result, [])
    requires Elems(result) != names
    ensures Cyclic(edges)
  {
    assert Elems([]) == {};
    var stuck := names - Elems(result);
    assert Elems(result) <= names;
    var w :| w in names && w !in Elems(result);
    assert w in stuck;
    forall v | v in stuck ensures HasPredecessor(edges, stuck, v) {
      InDegreeZero(edges, Elems(result), v);
      assert v !in FreeSet(names, edges, Elems(result));
      var u :| Linked(edges, u, v) && u !in Elems(result);
      assert Edge(u, v) in edges;
    }
    StuckSetHasCycle(edges, stuck);
  }

  /** Emitting a node frees exactly its successors that waited for nothing else. */
  lemma FreeSetGrows(names: set<Name>, edges: seq<Edge>, done: set<Name>, name: Name)
    requires Closed(names, edges) && name !in done
    ensures FreeSet(names, edges, done + {name}) == FreeSet(names, edges, done) + Freed(edges, done, name)
    ensures FreeSet(names, edges, done) !! Freed(edges, done, name)
  {
    SuccessorsAreNames(names, edges, name);
    forall v | v in names
      ensures InDegree(edges, done, v) == InDegree(edges, done + {name}, v) + multiset(Out(edges, name))[v]
    {
      InDegreeDrops(edges, done, name, v);
    }
  }

  /** Emitting the head of the queue and queueing what it frees keeps the frontier. */
  lemma FrontierStep(names: set<Name>, edges: seq<Edge>, result: seq<Name>, queue: seq<Name>)
    requires Closed(names, edges) && Frontier(names, edges, result, queue) && queue != []
    ensures Frontier(names, edges, result + [queue[0]], queue[1..] + Sorted(Freed(edges, Elems(result), queue[0])))
  {
    var name, done := queue[0], Elems(result);
    var freed := Sorted(Freed(edges, done, name));
    SortedSpec(Freed(edges, done, name));
    assert name in Elems(queue);
    FreeSetGrows(names, edges, done, name);
    ElemsAppend(result, name);
    assert queue == [name] + queue[1..];
    ElemsConcat([name], queue[1..]);
    assert Elems([name]) == {name};
    ElemsConcat(queue[1..], freed);
    EmittedFreeAppend(edges, result, name) by {
      assert name in FreeSet(names, edges, done);
    }
  }

  lemma EmittedFreeAppend(edges: seq<Edge>, result: seq<Name>, name: Name)
    requires EmittedFree(edges, result) && InDegree(edges, Elems(result), name) == 0
    ensures EmittedFree(edges, result + [name])
  {
    var result' := result + [name];
    forall i | 0 <= i < |result'| ensures InDegree(edges, Elems(result'[..i]), result'[i]) == 0 {
      if i < |result| {
        assert result'[..i] == result[..i];
      } else {
        assert result'[..i] == result;
      }
    }
  }

  /** The released nodes that have reached zero so far. */
  ghost predicate Reached(next: seq<Name>, degrees: map<Name, int>, released: seq<Name>) {
    Distinct(next) && forall v {:trigger v in next} :: v in next <==> v in degrees && v in released && degrees[v] == 0
  }

  lemma ReleaseOne(degrees: map<Name, int>, names: set<Name>, edges: seq<Edge>, done: set<Name>, d: Name, left: seq<Name>,
                   next: seq<Name>, released: seq<Name>)
    requires Releasing(degrees, names, edges, done, [d] + left) && d in names
    requires Reached(next, degrees, released)
    ensures var degrees' := degrees[d := degrees[d] - 1];
            && Releasing(degrees', names, edges, done, left)
            && Reached(if degrees'[d] == 0 then next + [d] else next, degrees', released + [d])
  {
    assert multiset([d] + left) == multiset{d} + multiset(left);
    var degrees' := degrees[d := degrees[d] - 1];
    assert HasDegree(degrees, edges, done, [d] + left, d);
    forall v | v in names ensures HasDegree(degrees', edges, done, left, v) {
      assert HasDegree(degrees, edges, done, [d] + left, v);
    }
    assert d !in next;
    var next' := if degrees'[d] == 0 then next + [d] else next;
    forall v ensures v in next' <==> v in degrees' && v in released + [d] && degrees'[v] == 0 {
      if v != d {
        assert v in next' <==> v in next;
      }
    }
  }

  /** Decrements the degree of every successor of an emitted node and collects those that
      reach zero. */
  method Release(name: Name, dependents: seq<Name>, degrees0: map<Name, int>,
                 ghost names: set<Name>, ghost edges: seq<Edge>, ghost done: set<Name>)
    returns (degrees: map<Name, int>, next: seq<Name>)
    requires Closed(names, edges) && name !in done && dependents == Out(edges, name)
    requires Releasing(degrees0, names, edges, done, [])
    ensures Releasing(degrees, names, edges, done + {name}, [])
    ensures Distinct(next) && Elems(next) == Freed(edges, done, name)
  {
    degrees, next := degrees0, [];
    ghost var done' := done + {name};
    SuccessorsAreNames(names, edges, name);
    ReleaseStart(degrees, names, edges, done, name);
    var left := dependents;
    ghost var released: seq<Name> := [];
    while left != []
      invariant released + left == dependents && forall v :: v in left ==> v in names
      invariant Releasing(degrees, names, edges, done', left)
      invariant Reached(next, degrees, released)
    {
      var d, rest := left[0], left[1..];
      assert left == [d] + rest;
      ReleaseOne(degrees, names, edges, done', d, rest, next, released);
      degrees := degrees[d := degrees[d] - 1];
      if degrees[d] == 0 {
        next := next + [d];
      }
      released, left := released + [d], rest;
    }
    ReleaseDone(degrees, next, names, edges, done, name);
  }

  lemma ReleaseStart(degrees: map<Name, int>, names: set<Name>, edges: seq<Edge>, done: set<Name>, name: Name)
    requires Releasing(degrees, names, edges, done, []) && name !in done
    ensures Releasing(degrees, names, edges, done + {name}, Out(edges, name))
  {
    forall v | v in names ensures HasDegree(degrees, edges, done + {name}, Out(edges, name), v) {
      assert HasDegree(degrees, edges, done, [], v);
      InDegreeDrops(edges, done, name, v);
    }
  }

  lemma ReleaseDone(degrees: map<Name, int>, next: seq<Name>, names: set<Name>, edges: seq<Edge>, done: set<Name>, name: Name)
    requires Closed(names, edges) && Releasing(degrees, names, edges, done + {name}, [])
    requires Reached(next, degrees, Out(edges, name))
    ensures Elems(next) == Freed(edges, done, name)
  {
    SuccessorsAreNames(names, edges, name);
    forall v | v in Out(edges, name) ensures v in next <==> InDegree(edges, done + {name}, v) == 0 {
      assert HasDegree(degrees, edges, done + {name}, [], v);
    }
  }

  lemma SuccessorsAreNames(names: set<Name>, edges: seq<Edge>, name: Name)
    requires Closed(names, edges)
    ensures forall v :: v in Out(edges, name) ==> v in names
  {
    forall v | v in Out(edges, name) ensures v in names {
      OutIsLinked(edges, name, v);
      assert Edge(name, v) in edges;
    }
  }

  /** The state of the queue loop: the frontier, the degrees, a fair line, and the rest of the
      order that is still to come. */
  ghost predicate Emitting(names: set<Name>, edges: seq<Edge>, degrees: map<Name, int>, result: seq<Name>, queue: seq<Name>,
                           goal: seq<Name>)
  {
    && Frontier(names, edges, result, queue) && |result| <= |names|
    && Releasing(degrees, names, edges, Elems(result), [])
    && Fair(edges, result, result + queue)
    && result + QueueOrder(edges, Elems(result), queue, |names| - |result|) == goal
  }

  /** Emits the head of the queue and queues what it frees. */
  method EmitOne(graph: map<Name, seq<Name>>, degrees0: map<Name, int>, queue0: seq<Name>, result0: seq<Name>,
                 ghost names: set<Name>, ghost edges: seq<Edge>, ghost goal: seq<Name>)
    returns (degrees: map<Name, int>, queue: seq<Name>, result: seq<Name>)
    requires Closed(names, edges) && GraphOk(graph, edges) && queue0 != []
    requires Emitting(names, edges, degrees0, result0, queue0, goal)
    ensures Emitting(names, edges, degrees, result, queue, goal)
    ensures |result| == |result0| + 1
  {
    var name := queue0[0];
    FrontierStep(names, edges, result0, queue0);
    FrontierSize(names, edges, result0, queue0);
    ElemsAppend(result0, name);
    assert Successors(graph, name) == Out(edges, name);
    QueueOrderStep(edges, Elems(result0), queue0, |names| - |result0|, result0);
    var next: seq<Name>;
    degrees, next := Release(name, Successors(graph, name), degrees0, names, edges, Elems(result0));
    var sorted := SortStrings(next);
    FairEmission(names, edges, result0, queue0, sorted);
    queue := queue0[1..] + sorted;
    result := result0 + [name];
  }

  /** The queue loop: emits free nodes until none is left. */
  method EmitAll(graph: map<Name, seq<Name>>, degrees0: map<Name, int>, queue0: seq<Name>,
                 ghost names: set<Name>, ghost edges: seq<Edge>)
    returns (result: seq<Name>)
    requires Closed(names, edges) && GraphOk(graph, edges)
    requires Releasing(degrees0, names, edges, {}, []) && Frontier(names, edges, [], queue0)
    requires Ascending(queue0)
    ensures Frontier(names, edges, result, []) && Fair(edges, result, result)
    ensures result == QueueOrder(edges, {}, queue0, |names|)
  {
    var degrees, queue := degrees0, queue0;
    ghost var goal := QueueOrder(edges, {}, queue, |names|);
    result := [];
    assert Elems(result) == {};
    assert [] + goal == goal;
    FairAtFirst(names, edges, queue);
    while queue != []
      invariant Emitting(names, edges, degrees, result, queue, goal)
      decreases |names| - |result|
    {
      degrees, queue, result := EmitOne(graph, degrees, queue, result, names, edges, goal);
    }
    assert result + [] == result;
  }

  /** Kahn's algorithm: starts from the nodes of degree zero, in lexicographic order. */
  method Drain(graph: map<Name, seq<Name>>, degrees: map<Name, int>, ghost names: set<Name>, ghost edges: seq<Edge>)
    returns (result: seq<Name>)
    requires Closed(names, edges) && GraphOk(graph, edges)
    requires Releasing(degrees, names, edges, {}, [])
    ensures Distinct(result) && Elems(result) <= names && Respects(result, edges) && Fair(edges, result, result)
    ensures result == QueueOrder(edges, {}, Sorted(Roots(names, edges)), |names|)
    ensures Elems(result) == names <==> !Cyclic(edges)
  {
    var free := set v | v in degrees.Keys && degrees[v] == 0;
    RootsByDegree(degrees, names, edges);
    var unsorted := Listing(free);
    var queue := SortStrings(unsorted);
    StartFrontier(names, edges);
    result := EmitAll(graph, degrees, queue, names, edges);
    assert Elems([]) == {};
    EmittedRespects(edges, result);
    if Elems(result) == names {
      OrderRefutesCycle(result, edges);
    } else {
      StuckMeansCyclic(names, edges, result);
    }
  }

  lemma RootsByDegree(degrees: map<Name, int>, names: set<Name>, edges: seq<Edge>)
    requires Releasing(degrees, names, edges, {}, [])
    ensures (set v | v in degrees.Keys && degrees[v] == 0) == Roots(names, edges)
  {
    forall v | v in names ensures degrees[v] == InDegree(edges, {}, v) {
      assert HasDegree(degrees, edges, {}, [], v);
    }
  }

  lemma StartFrontier(names: set<Name>, edges: seq<Edge>)
    ensures Frontier(names, edges, [], Sorted(Roots(names, edges)))
  {
    SortedSpec(Roots(names, edges));
    assert Elems([]) == {};
  }

  lemma FrontierSize(names: set<Name>, edges: seq<Edge>, result: seq<Name>, queue: seq<Name>)
    requires Frontier(names, edges, result, queue) && queue != []
    ensures queue[0] !in Elems(result) && |result| < |names|
  {
    assert queue[0] in Elems(queue);
    DistinctSize(result);
    SubsetSize(Elems(result) + {queue[0]}, names);
  }

  /** A list of the elements of a set, in any order. */
  method Listing(s: set<Name>) returns (r: seq<Name>)
    ensures Distinct(r) && Elems(r) == s
  {
    var left := s;
    r := [];
    while left != {}
      invariant Distinct(r) && Elems(r) == s - left && left <= s
      decreases left
    {
      var x :| x in left;
      ElemsAppend(r, x);
      r := r + [x];
      left := left - {x};
    }
  }

  // ----- What order that is -----

  /** Every node that must come before `v` is in the list. */
  ghost predicate Ready(edges: seq<Edge>, done: seq<Name>, v: Name) {
    forall u :: Linked(edges, u, v) ==> u in done
  }

  /** `u` is ready no later than `v` while the nodes are emitted one by one. */
  ghost predicate NoLater(edges: seq<Edge>, emitted: seq<Name>, u: Name, v: Name) {
    forall k {:trigger ReadyAfter(edges, emitted, k, v)} ::
      0 <= k <= |emitted| && ReadyAfter(edges, emitted, k, v) ==> ReadyAfter(edges, emitted, k, u)
  }

  ghost predicate ReadyAfter(edges: seq<Edge>, emitted: seq<Name>, k: nat, v: Name)
    requires k <= |emitted|
  {
    Ready(edges, emitted[..k], v)
  }

  /** First come, first served: nodes stand in the order in which they became ready, and those
      that became ready together in lexicographic order. */
  ghost predicate Fair(edges: seq<Edge>, emitted: seq<Name>, line: seq<Name>) {
    forall i, j {:trigger FairPair(edges, emitted, line[i], line[j])} ::
      0 <= i < j < |line| ==> FairPair(edges, emitted, line[i], line[j])
  }

  ghost predicate FairPair(edges: seq<Edge>, emitted: seq<Name>, u: Name, v: Name) {
    NoLater(edges, emitted, u, v) && (NoLater(edges, emitted, v, u) ==> AtOrBefore(u, v))
  }

  lemma ReadyIsDegreeZero(edges: seq<Edge>, done: seq<Name>, v: Name)
    ensures Ready(edges, done, v) <==> InDegree(edges, Elems(done), v) == 0
  {
    InDegreeZero(edges, Elems(done), v);
  }

  lemma ReadyAfterOneMore(edges: seq<Edge>, emitted: seq<Name>, name: Name, k: nat, v: Name)
    requires k <= |emitted| + 1
    ensures k <= |emitted| ==> (ReadyAfter(edges, emitted + [name], k, v) <==> ReadyAfter(edges, emitted, k, v))
    ensures k == |emitted| + 1 && Ready(edges, emitted, v) ==> ReadyAfter(edges, emitted + [name], k, v)
    ensures k == |emitted| + 1 ==> (ReadyAfter(edges, emitted + [name], k, v) <==> Ready(edges, emitted + [name], v))
  {
    if k <= |emitted| {
      assert (emitted + [name])[..k] == emitted[..k];
    } else {
      assert (emitted + [name])[..k] == emitted + [name];
    }
  }

  /** Nodes that were ready before keep their places relative to each other. */
  lemma OldPair(edges: seq<Edge>, emitted: seq<Name>, name: Name, u: Name, v: Name)
    requires FairPair(edges, emitted, u, v) && Ready(edges, emitted, u) && Ready(edges, emitted, v)
    ensures FairPair(edges, emitted + [name], u, v)
  {
    var emitted' := emitted + [name];
    forall k | 0 <= k <= |emitted'| && ReadyAfter(edges, emitted', k, v) ensures ReadyAfter(edges, emitted', k, u) {
      ReadyAfterOneMore(edges, emitted, name, k, u);
      ReadyAfterOneMore(edges, emitted, name, k, v);
    }
    if NoLater(edges, emitted', v, u) {
      forall k | 0 <= k <= |emitted| && ReadyAfter(edges, emitted, k, u) ensures ReadyAfter(edges, emitted, k, v) {
        ReadyAfterOneMore(edges, emitted, name, k, u);
        ReadyAfterOneMore(edges, emitted, name, k, v);
        assert ReadyAfter(edges, emitted', k, u);
      }
    }
  }

  /** A node freed just now is not ready before. */
  lemma FreedIsNew(edges: seq<Edge>, emitted: seq<Name>, name: Name, k: nat, v: Name)
    requires name !in emitted && Linked(edges, name, v) && k <= |emitted|
    ensures !ReadyAfter(edges, emitted + [name], k, v)
  {
    ReadyAfterOneMore(edges, emitted, name, k, v);
  }

  /** A node freed just now comes after those that were ready before, and lexicographically
      among its like. */
  lemma NewPair(edges: seq<Edge>, emitted: seq<Name>, name: Name, u: Name, v: Name)
    requires name !in emitted && Linked(edges, name, v) && Ready(edges, emitted + [name], u)
    requires Ready(edges, emitted, u) || AtOrBefore(u, v)
    ensures FairPair(edges, emitted + [name], u, v)
  {
    var emitted' := emitted + [name];
    forall k | 0 <= k <= |emitted'| && ReadyAfter(edges, emitted', k, v) ensures ReadyAfter(edges, emitted', k, u) {
      if k <= |emitted| {
        FreedIsNew(edges, emitted, name, k, v);
      }
      ReadyAfterOneMore(edges, emitted, name, k, u);
    }
    if Ready(edges, emitted, u) {
      ReadyAfterOneMore(edges, emitted, name, |emitted|, u);
      assert emitted[..|emitted|] == emitted;
      assert ReadyAfter(edges, emitted', |emitted|, u);
      FreedIsNew(edges, emitted, name, |emitted|, v);
    }
  }

  lemma FairStep(edges: seq<Edge>, emitted: seq<Name>, line: seq<Name>, name: Name, freed: seq<Name>)
    requires Fair(edges, emitted, line) && name !in emitted
    requires forall x :: x in line ==> Ready(edges, emitted, x)
    requires forall v :: v in freed ==> Linked(edges, name, v) && Ready(edges, emitted + [name], v)
    requires Ascending(freed)
    ensures Fair(edges, emitted + [name], line + freed)
  {
    var line' := line + freed;
    forall i, j | 0 <= i < j < |line'| ensures FairPair(edges, emitted + [name], line'[i], line'[j]) {
      if j < |line| {
        assert FairPair(edges, emitted, line[i], line[j]);
        OldPair(edges, emitted, name, line[i], line[j]);
      } else {
        assert line'[j] in freed;
        assert i < |line| ==> line'[i] in line;
        assert i >= |line| ==> line'[i] in freed;
        NewPair(edges, emitted, name, line'[i], line'[j]);
      }
    }
  }

  /** Emitting the head of the queue keeps the line fair. */
  lemma FairEmission(names: set<Name>, edges: seq<Edge>, result: seq<Name>, queue: seq<Name>, sorted: seq<Name>)
    requires Frontier(names, edges, result, queue) && queue != [] && Fair(edges, result, result + queue)
    requires Elems(sorted) == Freed(edges, Elems(result), queue[0])
    requires Ascending(sorted)
    ensures Fair(edges, result + [queue[0]], (result + [queue[0]]) + (queue[1..] + sorted))
  {
    var name, line := queue[0], result + queue;
    assert name in Elems(queue);
    forall x | x in line ensures Ready(edges, result, x) {
      assert x in Elems(result) || x in Elems(queue);
      ReadyIsDegreeZero(edges, result, x);
    }
    ElemsAppend(result, name);
    forall v | v in sorted ensures Linked(edges, name, v) && Ready(edges, result + [name], v) {
      assert v in Elems(sorted);
      OutIsLinked(edges, name, v);
      ReadyIsDegreeZero(edges, result + [name], v);
    }
    FairStep(edges, result, line, name, sorted);
    assert (result + [name]) + (queue[1..] + sorted) == line + sorted;
  }

  lemma FairAtFirst(names: set<Name>, edges: seq<Edge>, queue: seq<Name>)
    requires Frontier(names, edges, [], queue)
    requires Ascending(queue)
    ensures Fair(edges, [], [] + queue)
  {
    assert Elems([]) == {};
    forall i, j | 0 <= i < j < |queue| ensures FairPair(edges, [], queue[i], queue[j]) {
      assert queue[i] in Elems(queue);
      ReadyIsDegreeZero(edges, [], queue[i]);
      assert ReadyAfter(edges, [], 0, queue[i]);
    }
    assert [] + queue == queue;
  }

  // ----- Constraints -----

  /** `outward` edges go from the owner to its targets, the others from targets to owner. */
  function ConstraintEdge(owner: Name, target: Name, outward: bool): Edge {
    if outward then Edge(owner, target) else Edge(target, owner)
  }

  function TargetEdges(owner: Name, targets: seq<Name>, outward: bool): seq<Edge> {
    if targets == [] then []
    else TargetEdges(owner, targets[..|targets| - 1], outward) + [ConstraintEdge(owner, targets[|targets| - 1], outward)]
  }

  /** The constraint graph of a list of services, edge by edge in declaration order. */
  function Constraints(ss: seq<Service>): seq<Edge> {
    if ss == [] then [] else
      var s := ss[|ss| - 1];
      Constraints(ss[..|ss| - 1]) + TargetEdges(s.name, s.before, true) + TargetEdges(s.name, s.after, false)
  }

  /** Some service declares that `u` starts before `v`. */
  ghost predicate MustPrecede(ss: seq<Service>, u: Name, v: Name) {
    exists s :: s in ss && Declares(s, u, v)
  }

  ghost predicate Declares(s: Service, u: Name, v: Name) {
    (s.name == u && v in s.before) || (s.name == v && u in s.after)
  }

  lemma {:induction false} TargetEdgesMeaning(owner: Name, targets: seq<Name>, outward: bool, u: Name, v: Name)
    ensures Linked(TargetEdges(owner, targets, outward), u, v) <==>
            if outward then u == owner && v in targets else v == owner && u in targets
  {
    if targets != [] {
      TargetEdgesMeaning(owner, targets[..|targets| - 1], outward, u, v);
      assert targets == targets[..|targets| - 1] + [targets[|targets| - 1]];
    }
  }

  lemma {:induction false} ConstraintsMeaning(ss: seq<Service>, u: Name, v: Name)
    ensures Linked(Constraints(ss), u, v) <==> MustPrecede(ss, u, v)
  {
    if ss != [] {
      var rest, s := ss[..|ss| - 1], ss[|ss| - 1];
      ConstraintsMeaning(rest, u, v);
      TargetEdgesMeaning(s.name, s.before, true, u, v);
      TargetEdgesMeaning(s.name, s.after, false, u, v);
      assert ss == rest + [s];
      assert MustPrecede(ss, u, v) <==> MustPrecede(rest, u, v) || Declares(s, u, v);
    }
  }

  ghost function NamesOf(ss: seq<Service>): seq<Name> {
    seq(|ss|, i requires 0 <= i < |ss| => ss[i].name)
  }

  function FirstUnknownTarget(known: set<Name>, targets: seq<Name>): Option<Name> {
    if targets == [] then None
    else if targets[0] !in known then Some(targets[0])
    else FirstUnknownTarget(known, targets[1..])
  }

  /** The first reference to an undeclared service, in declaration order. */
  function FirstUnknown(known: set<Name>, ss: seq<Service>): Option<(Name, Name)> {
    if ss == [] then None else
      var s := ss[0];
      var b := FirstUnknownTarget(known, s.before);
      var a := FirstUnknownTarget(known, s.after);
      if b.Some? then Some((s.name, b.value))
      else if a.Some? then Some((s.name, a.value))
      else FirstUnknown(known, ss[1..])
  }

  lemma {:induction false} FirstUnknownTargetMeaning(known: set<Name>, targets: seq<Name>)
    ensures FirstUnknownTarget(known, targets).None? <==> forall t :: t in targets ==> t in known
  {
    if targets != [] {
      FirstUnknownTargetMeaning(known, targets[1..]);
      assert targets == [targets[0]] + targets[1..];
    }
  }

  /** No unknown reference is reported exactly when the constraint graph is closed. */
  lemma {:induction false} FirstUnknownMeaning(known: set<Name>, ss: seq<Service>)
    requires forall s :: s in ss ==> s.name in known
    ensures FirstUnknown(known, ss).None? <==>
            forall s :: s in ss ==> (forall t :: t in s.before ==> t in known) && (forall t :: t in s.after ==> t in known)
  {
    if ss != [] {
      FirstUnknownTargetMeaning(known, ss[0].before);
      FirstUnknownTargetMeaning(known, ss[0].after);
      FirstUnknownMeaning(known, ss[1..]);
      assert ss == [ss[0]] + ss[1..];
    }
  }

  /** `t` is the first of the targets that is not known. */
  ghost predicate FirstBadTarget(known: set<Name>, targets: seq<Name>, t: Name) {
    exists k :: 0 <= k < |targets| && targets[k] == t && t !in known && forall m :: 0 <= m < k ==> targets[m] in known
  }

  ghost predicate AllKnown(known: set<Name>, targets: seq<Name>) {
    forall m :: 0 <= m < |targets| ==> targets[m] in known
  }

  /** The reported target is the first unknown one of its owner, `before` ahead of `after`, and
      every earlier service's targets are known. */
  ghost predicate FirstBad(known: set<Name>, ss: seq<Service>, i: nat, owner: Name, target: Name) {
    && i < |ss| && ss[i].name == owner
    && (forall j :: 0 <= j < i ==> AllKnown(known, ss[j].before) && AllKnown(known, ss[j].after))
    && (FirstBadTarget(known, ss[i].before, target) ||
        (AllKnown(known, ss[i].before) && FirstBadTarget(known, ss[i].after, target)))
  }

  lemma {:induction false} FirstUnknownTargetIsFirst(known: set<Name>, targets: seq<Name>)
    ensures match FirstUnknownTarget(known, targets)
            case None => AllKnown(known, targets)
            case Some(t) => FirstBadTarget(known, targets, t)
  {
    if targets != [] && targets[0] in known {
      FirstUnknownTargetIsFirst(known, targets[1..]);
      if FirstUnknownTarget(known, targets[1..]).Some? {
        var t := FirstUnknownTarget(known, targets[1..]).value;
        var k :| 0 <= k < |targets[1..]| && targets[1..][k] == t && t !in known && forall m :: 0 <= m < k ==> targets[1..][m] in known;
        assert targets[k + 1] == t;
        forall m | 0 <= m < k + 1 ensures targets[m] in known {
          assert m > 0 ==> targets[m] == targets[1..][m - 1];
        }
      }
    }
  }

  /** The reported reference is the first unknown one in declaration order. */
  lemma {:induction false} FirstUnknownIsFirst(known: set<Name>, ss: seq<Service>) returns (i: nat)
    requires FirstUnknown(known, ss).Some?
    ensures FirstBad(known, ss, i, FirstUnknown(known, ss).value.0, FirstUnknown(known, ss).value.1)
  {
    FirstUnknownTargetIsFirst(known, ss[0].before);
    FirstUnknownTargetIsFirst(known, ss[0].after);
    if FirstUnknownTarget(known, ss[0].before).Some? || FirstUnknownTarget(known, ss[0].after).Some? {
      i := 0;
    } else {
      var k := FirstUnknownIsFirst(known, ss[1..]);
      i := k + 1;
      forall j | 0 <= j < i ensures AllKnown(known, ss[j].before) && AllKnown(known, ss[j].after) {
        assert j > 0 ==> ss[j] == ss[1..][j - 1];
      }
    }
  }

  lemma KnownIsClosed(known: set<Name>, ss: seq<Service>)
    requires forall s :: s in ss ==> s.name in known
    requires FirstUnknown(known, ss).None?
    ensures Closed(known, Constraints(ss))
  {
    FirstUnknownMeaning(known, ss);
    forall e | e in Constraints(ss) ensures e.from in known && e.to in known {
      assert e == Edge(e.from, e.to);
      ConstraintsMeaning(ss, e.from, e.to);
      assert Linked(Constraints(ss), e.from, e.to);
      var s :| s in ss && Declares(s, e.from, e.to);
    }
  }

  // ----- Building the graph -----

  function Degree(degrees: map<Name, int>, v: Name): int {
    if v in degrees then degrees[v] else 0
  }

  ghost predicate CountsOk(degrees: map<Name, int>, edges: seq<Edge>) {
    forall v :: Degree(degrees, v) == InDegree(edges, {}, v)
  }

  method AddEdge(graph0: map<Name, seq<Name>>, degrees0: map<Name, int>, e: Edge, ghost edges: seq<Edge>)
    returns (graph: map<Name, seq<Name>>, degrees: map<Name, int>)
    requires GraphOk(graph0, edges) && CountsOk(degrees0, edges)
    ensures GraphOk(graph, edges + [e]) && CountsOk(degrees, edges + [e])
    ensures degrees.Keys == degrees0.Keys + {e.to}
  {
    graph := graph0[e.from := Successors(graph0, e.from) + [e.to]];
    degrees := degrees0[e.to := Degree(degrees0, e.to) + 1];
    assert (edges + [e])[..|edges|] == edges;
    forall u ensures Successors(graph, u) == Out(edges + [e], u) {
      assert Successors(graph0, u) == Out(edges, u);
    }
    forall v ensures Degree(degrees, v) == InDegree(edges + [e], {}, v) {
      assert Degree(degrees0, v) == InDegree(edges, {}, v);
    }
  }

  /** Adds one owner's constraints, stopping at the first unknown target. */
  method AddTargets(known: set<Name>, owner: Name, targets: seq<Name>, outward: bool,
                    graph0: map<Name, seq<Name>>, degrees0: map<Name, int>, ghost edges: seq<Edge>)
    returns (graph: map<Name, seq<Name>>, degrees: map<Name, int>, unknown: Option<Name>)
    requires GraphOk(graph0, edges) && CountsOk(degrees0, edges)
    requires owner in known && degrees0.Keys <= known
    ensures unknown == FirstUnknownTarget(known, targets)
    ensures unknown.None? ==> GraphOk(graph, edges + TargetEdges(owner, targets, outward))
    ensures unknown.None? ==> CountsOk(degrees, edges + TargetEdges(owner, targets, outward))
    ensures degrees0.Keys <= degrees.Keys <= known
  {
    graph, degrees, unknown := graph0, degrees0, None;
    var left := targets;
    ghost var done, sofar: seq<Edge> := [], edges;
    assert edges + [] == edges;
    while left != []
      invariant done + left == targets && sofar == edges + TargetEdges(owner, done, outward)
      invariant FirstUnknownTarget(known, targets) == FirstUnknownTarget(known, left)
      invariant GraphOk(graph, sofar) && CountsOk(degrees, sofar)
      invariant degrees0.Keys <= degrees.Keys <= known
    {
      var target := left[0];
      if target !in known {
        unknown := Some(target);
        return;
      }
      var e := ConstraintEdge(owner, target, outward);
      TargetEdgesAppend(edges, owner, done, outward, target);
      graph, degrees := AddEdge(graph, degrees, e, sofar);
      done, sofar, left := done + [target], sofar + [e], left[1..];
    }
    assert done == targets;
  }

  lemma TargetEdgesAppend(edges: seq<Edge>, owner: Name, done: seq<Name>, outward: bool, target: Name)
    ensures edges + TargetEdges(owner, done + [target], outward) ==
            (edges + TargetEdges(owner, done, outward)) + [ConstraintEdge(owner, target, outward)]
  {
    assert (done + [target])[..|done|] == done;
  }

  // ----- Resolution -----

  /** What resolving a list of services means: an unknown reference is reported first;
      otherwise a cycle is reported exactly when the constraints have one; otherwise the
      order is a permutation of the services that obeys every constraint, in which services
      stand as they became ready, and lexicographically where they became ready together. */
  ghost predicate Resolves(ss: seq<Service>, r: Resolution) {
    var known := Elems(NamesOf(ss));
    var edges := Constraints(ss);
    match FirstUnknown(known, ss)
    case Some(bad) => r == UnknownReference(bad.0, bad.1)
    case None =>
      && (r.CyclicDependency? <==> Cyclic(edges))
      && !r.UnknownReference?
      && (r.Ordered? ==>
            && multiset(r.order) == multiset(NamesOf(ss))
            && (forall i, j :: 0 <= i < |r.order| && 0 <= j < |r.order| && MustPrecede(ss, r.order[i], r.order[j]) ==> i < j)
            && Fair(edges, r.order, r.order)
            && r.order == QueueOrder(edges, {}, Sorted(Roots(known, edges)), |ss|))
  }

  /** The end of both resolutions: drain the queue and compare lengths. */
  method Finish(graph: map<Name, seq<Name>>, degrees: map<Name, int>, ghost ss: seq<Service>, total: nat) returns (r: Resolution)
    requires Distinct(NamesOf(ss)) && total == |ss|
    requires FirstUnknown(Elems(NamesOf(ss)), ss).None?
    requires GraphOk(graph, Constraints(ss)) && CountsOk(degrees, Constraints(ss)) && degrees.Keys == Elems(NamesOf(ss))
    ensures Resolves(ss, r)
  {
    ghost var known, edges := Elems(NamesOf(ss)), Constraints(ss);
    NamesAreKnown(ss);
    KnownIsClosed(known, ss);
    forall v | v in known ensures HasDegree(degrees, edges, {}, [], v) {
      assert Degree(degrees, v) == InDegree(edges, {}, v);
    }
    DistinctSize(NamesOf(ss));
    var result := Drain(graph, degrees, known, edges);
    DistinctSize(result);
    SubsetSize(Elems(result), known);
    if |result| != total {
      r := CyclicDependency;
    } else {
      r := Ordered(result);
      DistinctMultiset(result);
      DistinctMultiset(NamesOf(ss));
      forall i, j | 0 <= i < |result| && 0 <= j < |result| && MustPrecede(ss, result[i], result[j]) ensures i < j {
        ConstraintsMeaning(ss, result[i], result[j]);
      }
    }
  }

  lemma NamesAreKnown(ss: seq<Service>)
    ensures forall s :: s in ss ==> s.name in Elems(NamesOf(ss))
  {
    forall s | s in ss ensures s.name in NamesOf(ss) {
      var i :| 0 <= i < |ss| && ss[i] == s;
      assert NamesOf(ss)[i] == s.name;
    }
  }

  method NameSet(ss: seq<Service>) returns (known: set<Name>)
    ensures known == Elems(NamesOf(ss))
  {
    known := set s | s in ss :: s.name;
    NamesAreKnown(ss);
    forall x | x in NamesOf(ss) ensures x in known {
      var i :| 0 <= i < |ss| && NamesOf(ss)[i] == x;
      assert ss[i] in ss;
    }
  }

  method ResolveServices(services: seq<Service>) returns (r: Resolution)
    requires Distinct(NamesOf(services))
    ensures Resolves(services, r)
  {
    var known := NameSet(services);
    NamesAreKnown(services);
    var graph: map<Name, seq<Name>>, degrees: map<Name, int> := map[], map[];
    var i := 0;
    while i < |services|
      invariant 0 <= i <= |services|
      invariant FirstUnknown(known, services) == FirstUnknown(known, services[i..])
      invariant GraphOk(graph, Constraints(services[..i])) && CountsOk(degrees, Constraints(services[..i]))
      invariant degrees.Keys <= known
      invariant forall j :: 0 <= j < i ==> services[j].name in degrees.Keys
    {
      var s := services[i];
      ghost var edges := Constraints(services[..i]);
      assert services[i..][1..] == services[i + 1..];
      assert services[..i + 1][..i] == services[..i];
      if s.name !in degrees {
        degrees := ZeroDegree(degrees, s.name, edges);
      }
      var unknown: Option<Name>;
      graph, degrees, unknown := AddTargets(known, s.name, s.before, true, graph, degrees, edges);
      if unknown.Some? {
        return UnknownReference(s.name, unknown.value);
      }
      graph, degrees, unknown := AddTargets(known, s.name, s.after, false, graph, degrees, edges + TargetEdges(s.name, s.before, true));
      if unknown.Some? {
        return UnknownReference(s.name, unknown.value);
      }
      i := i + 1;
    }
    assert services[..i] == services;
    AllNamed(services, degrees.Keys, known);
    r := Finish(graph, degrees, services, |services|);
  }

  lemma AllNamed(ss: seq<Service>, keys: set<Name>, known: set<Name>)
    requires known == Elems(NamesOf(ss)) && keys <= known
    requires forall j :: 0 <= j < |ss| ==> ss[j].name in keys
    ensures keys == known
  {
    forall x | x in known ensures x in keys {
      var i :| 0 <= i < |ss| && NamesOf(ss)[i] == x;
      assert ss[i].name in keys;
    }
  }

  method ZeroDegree(degrees0: map<Name, int>, name: Name, ghost edges: seq<Edge>) returns (degrees: map<Name, int>)
    requires CountsOk(degrees0, edges) && name !in degrees0
    ensures CountsOk(degrees, edges) && degrees.Keys == degrees0.Keys + {name}
  {
    degrees := degrees0[name := 0];
    forall v ensures Degree(degrees, v) == InDegree(edges, {}, v) {
      assert Degree(degrees0, v) == InDegree(edges, {}, v);
    }
  }

  /** A module's dependencies are "after" constraints. */
  function AsService(m: Module): Service {
    Service(m.name, [], m.dependsOn)
  }

  function AsServices(ms: seq<Module>): seq<Service> {
    seq(|ms|, i requires 0 <= i < |ms| => AsService(ms[i]))
  }

  /** The constraint graph of modules has an edge exactly from each dependency to its module. */
  lemma ModuleConstraintsMeaning(ms: seq<Module>, u: Name, v: Name)
    ensures Linked(Constraints(AsServices(ms)), u, v) <==> exists m :: m in ms && m.name == v && u in m.dependsOn
  {
    var ss := AsServices(ms);
    ConstraintsMeaning(ss, u, v);
    if MustPrecede(ss, u, v) {
      var s :| s in ss && Declares(s, u, v);
      var i :| 0 <= i < |ss| && ss[i] == s;
      assert ms[i] in ms;
    }
    forall m | m in ms && m.name == v && u in m.dependsOn ensures MustPrecede(ss, u, v) {
      var i :| 0 <= i < |ms| && ms[i] == m;
      assert ss[i] in ss && Declares(ss[i], u, v);
    }
  }

  method ResolveModules(modules: seq<Module>) returns (r: Resolution)
    requires Distinct(NamesOf(AsServices(modules)))
    ensures Resolves(AsServices(modules), r)
  {
    ghost var ss := AsServices(modules);
    var known := set m | m in modules :: m.name;
    ModuleNames(modules, known);
    NamesAreKnown(ss);
    var bad := CheckDependencies(known, modules);
    if bad.Some? {
      return UnknownReference(bad.value.0, bad.value.1);
    }
    var graph, degrees := DependencyGraph(known, modules);
    r := Finish(graph, degrees, ss, |modules|);
  }

  method CheckDependencies(known: set<Name>, modules: seq<Module>) returns (bad: Option<(Name, Name)>)
    ensures bad == FirstUnknown(known, AsServices(modules))
  {
    ghost var ss := AsServices(modules);
    var i := 0;
    while i < |modules|
      invariant 0 <= i <= |modules|
      invariant FirstUnknown(known, ss) == FirstUnknown(known, ss[i..])
    {
      assert ss[i..][0] == AsService(modules[i]) && ss[i..][1..] == ss[i + 1..];
      var unknown := FirstUnknownTarget(known, modules[i].dependsOn);
      if unknown.Some? {
        return Some((modules[i].name, unknown.value));
      }
      i := i + 1;
    }
    bad := None;
  }

  method DependencyGraph(known: set<Name>, modules: seq<Module>)
    returns (graph: map<Name, seq<Name>>, degrees: map<Name, int>)
    requires forall s :: s in AsServices(modules) ==> s.name in known
    requires FirstUnknown(known, AsServices(modules)).None?
    ensures GraphOk(graph, Constraints(AsServices(modules))) && CountsOk(degrees, Constraints(AsServices(modules)))
    ensures degrees.Keys == known
  {
    ghost var ss := AsServices(modules);
    KnownTargets(known, ss);
    graph := map[];
    degrees := map v | v in known :: 0;
    var i := 0;
    while i < |modules|
      invariant 0 <= i <= |modules| && degrees.Keys == known
      invariant GraphOk(graph, Constraints(ss[..i])) && CountsOk(degrees, Constraints(ss[..i]))
    {
      var m := modules[i];
      ghost var edges := Constraints(ss[..i]);
      assert ss[i] == AsService(m) && ss[i] in ss;
      ModuleConstraints(ss, i, m);
      var unknown: Option<Name>;
      graph, degrees, unknown := AddTargets(known, m.name, m.dependsOn, false, graph, degrees, edges);
      i := i + 1;
    }
    assert ss[..i] == ss;
  }

  lemma ModuleConstraints(ss: seq<Service>, i: nat, m: Module)
    requires i < |ss| && ss[i] == AsService(m)
    ensures Constraints(ss[..i + 1]) == Constraints(ss[..i]) + TargetEdges(m.name, m.dependsOn, false)
  {
    assert ss[..i + 1][..i] == ss[..i];
    assert Constraints(ss[..i]) + TargetEdges(m.name, [], true) == Constraints(ss[..i]);
  }

  lemma ModuleNames(modules: seq<Module>, known: set<Name>)
    requires known == set m | m in modules :: m.name
    ensures known == Elems(NamesOf(AsServices(modules)))
  {
    var ss := AsServices(modules);
    forall x | x in known ensures x in NamesOf(ss) {
      var m :| m in modules && m.name == x;
      var i :| 0 <= i < |modules| && modules[i] == m;
      assert NamesOf(ss)[i] == x;
    }
    forall x | x in NamesOf(ss) ensures x in known {
      var i :| 0 <= i < |ss| && NamesOf(ss)[i] == x;
      assert modules[i] in modules;
    }
  }

  lemma KnownTargets(known: set<Name>, ss: seq<Service>)
    requires forall s :: s in ss ==> s.name in known
    requires FirstUnknown(known, ss).None?
    ensures forall s :: s in ss ==> FirstUnknownTarget(known, s.after).None?
  {
    FirstUnknownMeaning(known, ss);
    forall s | s in ss ensures FirstUnknownTarget(known, s.after).None? {
      FirstUnknownTargetMeaning(known, s.after);
    }
  }

  /** Names must be unique across services and modules; the first repeated name is reported. */
  method ValidateNames(serviceNames: seq<Name>, moduleNames: seq<Name>) returns (duplicate: Option<Name>)
    ensures duplicate.None? <==> Distinct(serviceNames + moduleNames)
    ensures duplicate.Some? ==>
              exists k :: 0 <= k < |serviceNames + moduleNames| && Distinct((serviceNames + moduleNames)[..k]) &&
                (serviceNames + moduleNames)[k] == duplicate.value && duplicate.value in (serviceNames + moduleNames)[..k]
  {
    var all := serviceNames + moduleNames;
    var seen: map<Name, bool> := map[];
    for k := 0 to |all|
      invariant seen.Keys == Elems(all[..k]) && Distinct(all[..k])
    {
      assert all[..k + 1] == all[..k] + [all[k]];
      if all[k] in seen {
        assert all[k] in all[..k];
        return Some(all[k]);
      }
      ElemsAppend(all[..k], all[k]);
      seen := seen[all[k] := k < |serviceNames|];
    }
    assert all[..|all|] == all;
    duplicate := None;
  }
}
