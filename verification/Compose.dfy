/** The combinators over asynchronous calls. A branch's callback is two or three atomic
    steps, so any interleaving of branches, including a branch that answers synchronously,
    is an order of such steps. */
module Compose {
  import opened Basics

  type Err = int

  /** What one branch answers: a possibly nil value and a possibly nil error. */
  datatype Answer<V> = Answer(value: Option<V>, err: Option<Err>)

  function Range(n: nat): (r: set<nat>)
    ensures forall i :: i in r <==> 0 <= i < n
  {
    if n == 0 then {} else Range(n - 1) + {n - 1}
  }

  lemma {:induction false} RangeSize(n: nat)
    ensures |Range(n)| == n
  {
    if n > 0 {
      RangeSize(n - 1);
      AddOne(Range(n - 1), n - 1);
    }
  }

  lemma AddOne(s: set<nat>, i: nat)
    ensures i !in s ==> |s + {i}| == |s| + 1
  {
  }

  lemma FullRange(s: set<nat>, n: nat)
    requires forall i :: i in s ==> 0 <= i < n
    ensures |s| <= n
    ensures |s| == n ==> forall i :: 0 <= i < n ==> i in s
  {
    RangeSize(n);
    assert Range(n) == s + (Range(n) - s);
    assert |Range(n)| == |s| + |Range(n) - s|;
    if |s| == n {
      assert Range(n) - s == {};
      forall i | 0 <= i < n ensures i in s {
        assert i in Range(n);
      }
    }
  }

  /** The error of the lowest-numbered branch that has one. */
  function Leftmost(errs: seq<Option<Err>>): Option<Err> {
    if errs == [] then None
    else if errs[0].Some? then errs[0]
    else Leftmost(errs[1..])
  }

  lemma {:induction false} LeftmostMeaning(errs: seq<Option<Err>>)
    ensures Leftmost(errs).None? <==> forall i :: 0 <= i < |errs| ==> errs[i].None?
    ensures Leftmost(errs).Some? ==>
              exists k :: 0 <= k < |errs| && errs[k] == Leftmost(errs) && forall i :: 0 <= i < k ==> errs[i].None?
  {
    if errs != [] {
      LeftmostMeaning(errs[1..]);
      if errs[0].None? && Leftmost(errs[1..]).Some? {
        var k :| 0 <= k < |errs[1..]| && errs[1..][k] == Leftmost(errs[1..]) && forall i :: 0 <= i < k ==> errs[1..][i].None?;
        assert errs[k + 1] == Leftmost(errs);
        forall i | 0 <= i < k + 1 ensures errs[i].None? {
          if i > 0 {
            assert errs[i] == errs[1..][i - 1];
          }
        }
      }
    }
  }

  // ----- Join2, Join3, Join4 -----

  datatype Outcome<V> = Failed(err: Err) | Joined(values: seq<Option<V>>)

  function JoinOutcome<V>(values: seq<Option<V>>, errs: seq<Option<Err>>): Outcome<V> {
    match Leftmost(errs)
    case Some(e) => Failed(e)
    case None => Joined(values)
  }

  /** The captured variables of a join of `n` branches, and its calls of `done`. */
  class Join<V> {
    var values: seq<Option<V>>
    var errs: seq<Option<Err>>
    var left: int
    var calls: seq<Outcome<V>>

    constructor (n: nat)
      ensures |values| == |errs| == n && left == n && calls == []
    {
      values := seq(n, _ => None);
      errs := seq(n, _ => None);
      left, calls := n, [];
    }

    /** First step of branch `i`'s callback: record its answer. */
    method Store(i: nat, answer: Answer<V>)
      requires i < |values| == |errs|
      modifies this`values, this`errs
      ensures values == old(values)[i := answer.value] && errs == old(errs)[i := answer.err]
    {
      values, errs := values[i := answer.value], errs[i := answer.err];
    }

    /** Second step: the branch that brings the counter to zero calls `done`. */
    method Finish()
      modifies this`left, this`calls
      ensures left == old(left) - 1
      ensures calls == if left == 0 then old(calls) + [JoinOutcome(values, errs)] else old(calls)
    {
      left := left - 1;
      if left != 0 {
        return;
      }
      var i := 0;
      while i < |errs|
        invariant 0 <= i <= |errs|
        invariant Leftmost(errs) == Leftmost(errs[i..])
      {
        assert errs[i..][1..] == errs[i + 1..];
        if errs[i].Some? {
          calls := calls + [Failed(errs[i].value)];
          return;
        }
        i := i + 1;
      }
      calls := calls + [Joined(values)];
    }
  }

  // ----- Interleavings -----

  /** The atomic steps of a callback: queue the error (Each only), store the answer, and
      decrement the counter. */
  datatype Kind = Queue | Store | Finish

  datatype Step = Step(kind: Kind, i: nat)

  ghost predicate Precedes(order: seq<Step>, s: Step, k: nat)
    requires k <= |order|
  {
    exists l :: 0 <= l < k && order[l] == s
  }

  ghost predicate Differ(order: seq<Step>, k: nat, l: nat)
    requires k < |order| && l < |order|
  {
    order[k] != order[l]
  }

  /** Each branch's steps come in the order of its callback's statements. */
  ghost predicate InCallbackOrder(order: seq<Step>, k: nat, queues: bool)
    requires k < |order|
  {
    match order[k].kind
    case Queue => queues
    case Store => queues ==> Precedes(order, Step(Queue, order[k].i), k)
    case Finish => Precedes(order, Step(Store, order[k].i), k)
  }

  /** An order of steps of `n` branches none of which answers twice. */
  ghost predicate Legal(n: nat, order: seq<Step>, queues: bool) {
    && (forall k :: 0 <= k < |order| ==> order[k].i < n)
    && (forall k, l {:trigger Differ(order, k, l)} :: 0 <= k < l < |order| ==> Differ(order, k, l))
    && (forall k {:trigger InCallbackOrder(order, k, queues)} :: 0 <= k < |order| ==> InCallbackOrder(order, k, queues))
  }

  /** The branches that have taken their step of a kind within the first `k` steps. */
  ghost function Taken(order: seq<Step>, k: nat, kind: Kind): set<nat>
    requires k <= |order|
  {
    if k == 0 then {}
    else if order[k - 1].kind == kind then Taken(order, k - 1, kind) + {order[k - 1].i}
    else Taken(order, k - 1, kind)
  }

  /** How many steps of a kind are among the first `k`. */
  ghost function Count(order: seq<Step>, k: nat, kind: Kind): nat
    requires k <= |order|
  {
    if k == 0 then 0 else Count(order, k - 1, kind) + if order[k - 1].kind == kind then 1 else 0
  }

  ghost function Finished(order: seq<Step>, k: nat): nat
    requires k <= |order|
  {
    Count(order, k, Finish)
  }

  lemma {:induction false} TakenMeaning(order: seq<Step>, k: nat, kind: Kind, i: nat)
    requires k <= |order|
    ensures i in Taken(order, k, kind) <==> Precedes(order, Step(kind, i), k)
  {
    if k > 0 {
      TakenMeaning(order, k - 1, kind, i);
      assert order[k - 1] == Step(kind, i) ==> Precedes(order, Step(kind, i), k);
      if Precedes(order, Step(kind, i), k) && order[k - 1] != Step(kind, i) {
        var l :| 0 <= l < k && order[l] == Step(kind, i);
        assert l < k - 1;
      }
    }
  }

  lemma NoRepeat(n: nat, order: seq<Step>, queues: bool, k: nat)
    requires Legal(n, order, queues) && k < |order|
    ensures !Precedes(order, order[k], k)
  {
    forall l | 0 <= l < k ensures order[l] != order[k] {
      assert Differ(order, l, k);
    }
  }

  /** No branch takes a step twice, so steps of a kind are counted by their branches. */
  lemma {:induction false} CountIsSize(n: nat, order: seq<Step>, queues: bool, k: nat, kind: Kind)
    requires Legal(n, order, queues) && k <= |order|
    ensures Count(order, k, kind) == |Taken(order, k, kind)|
  {
    if k > 0 {
      CountIsSize(n, order, queues, k - 1, kind);
      var taken, s := Taken(order, k - 1, kind), order[k - 1];
      if s.kind == kind {
        NoRepeat(n, order, queues, k - 1);
        TakenMeaning(order, k - 1, kind, s.i);
        AddOne(taken, s.i);
      }
    }
  }

  /** At most `n` branches take a step of a kind; when `n` have, all have. */
  lemma CountBounded(n: nat, order: seq<Step>, queues: bool, k: nat, kind: Kind)
    requires Legal(n, order, queues) && k <= |order|
    ensures Count(order, k, kind) <= n
    ensures Count(order, k, kind) == n ==> forall i :: 0 <= i < n ==> Precedes(order, Step(kind, i), k)
  {
    CountIsSize(n, order, queues, k, kind);
    forall i | i in Taken(order, k, kind) ensures 0 <= i < n {
      TakenMeaning(order, k, kind, i);
    }
    FullRange(Taken(order, k, kind), n);
    if Count(order, k, kind) == n {
      forall i | 0 <= i < n ensures Precedes(order, Step(kind, i), k) {
        TakenMeaning(order, k, kind, i);
      }
    }
  }

  /** A finished branch has stored its answer, and queued its error if it does. */
  lemma FinishedHasStored(n: nat, order: seq<Step>, queues: bool, k: nat, i: nat)
    requires Legal(n, order, queues) && k <= |order| && Precedes(order, Step(Finish, i), k)
    ensures Precedes(order, Step(Store, i), k) && (queues ==> Precedes(order, Step(Queue, i), k))
  {
    var l :| 0 <= l < k && order[l] == Step(Finish, i);
    assert InCallbackOrder(order, l, queues);
    var m :| 0 <= m < l && order[m] == Step(Store, i);
    assert InCallbackOrder(order, m, queues);
  }

  /** When every branch has finished there is no step left. */
  lemma NothingAfterTheLast(n: nat, order: seq<Step>, k: nat)
    requires Legal(n, order, true) && k <= |order| && Finished(order, k) == n
    ensures k == |order|
  {
    if k < |order| {
      CountBounded(n, order, true, k, Finish);
      FinishedHasStored(n, order, true, k, order[k].i);
      NoRepeat(n, order, true, k);
      assert false;
    }
  }

  /** Every branch has taken its last step. */
  ghost predicate AllFinish(n: nat, order: seq<Step>) {
    forall i :: 0 <= i < n ==> Precedes(order, Step(Finish, i), |order|)
  }

  lemma AllFinishIff(n: nat, order: seq<Step>, queues: bool)
    requires Legal(n, order, queues)
    ensures Finished(order, |order|) == n <==> AllFinish(n, order)
  {
    CountBounded(n, order, queues, |order|, Finish);
    if AllFinish(n, order) {
      CountIsSize(n, order, queues, |order|, Finish);
      var taken := Taken(order, |order|, Finish);
      forall i | i in Range(n) ensures i in taken {
        TakenMeaning(order, |order|, Finish, i);
      }
      RangeSize(n);
      SubsetIsSmaller(Range(n), taken);
    }
  }

  lemma SubsetIsSmaller(a: set<nat>, b: set<nat>)
    requires a <= b
    ensures |a| <= |b|
  {
    assert b == a + (b - a);
  }

  function Errors<V>(answers: seq<Answer<V>>): seq<Option<Err>> {
    seq(|answers|, i requires 0 <= i < |answers| => answers[i].err)
  }

  function Values<V>(answers: seq<Answer<V>>): seq<Option<V>> {
    seq(|answers|, i requires 0 <= i < |answers| => answers[i].value)
  }

  /** The answers of the branches that stored theirs within the first `k` steps are in place. */
  ghost predicate Recorded<V>(values: seq<Option<V>>, errs: seq<Option<Err>>, answers: seq<Answer<V>>,
                              order: seq<Step>, k: nat)
  {
    && |values| == |errs| == |answers| && k <= |order|
    && forall l {:trigger RecordedAt(values, errs, answers, order[l])} ::
         0 <= l < k ==> RecordedAt(values, errs, answers, order[l])
  }

  ghost predicate RecordedAt<V>(values: seq<Option<V>>, errs: seq<Option<Err>>, answers: seq<Answer<V>>, s: Step)
    requires |values| == |errs| == |answers|
  {
    s.kind.Store? && s.i < |answers| ==> values[s.i] == answers[s.i].value && errs[s.i] == answers[s.i].err
  }

  /** When every branch has finished, every answer is in place. */
  lemma AllRecorded<V>(values: seq<Option<V>>, errs: seq<Option<Err>>, answers: seq<Answer<V>>, order: seq<Step>, k: nat)
    requires k <= |order| && Legal(|answers|, order, false) && Recorded(values, errs, answers, order, k)
    requires Finished(order, k) == |answers|
    ensures values == Values(answers) && errs == Errors(answers)
  {
    CountBounded(|answers|, order, false, k, Finish);
    forall i | 0 <= i < |answers| ensures values[i] == answers[i].value && errs[i] == answers[i].err {
      FinishedHasStored(|answers|, order, false, k, i);
      var m :| 0 <= m < k && order[m] == Step(Store, i);
      assert RecordedAt(values, errs, answers, order[m]);
    }
  }

  /** A join after the first `k` steps of a run. */
  ghost predicate JoinedUpTo<V>(j: Join<V>, answers: seq<Answer<V>>, order: seq<Step>, k: nat)
    requires k <= |order|
    reads j
  {
    && Recorded(j.values, j.errs, answers, order, k)
    && j.left == |answers| - Finished(order, k)
    && j.calls == if j.left == 0 then [JoinOutcome(Values(answers), Errors(answers))] else []
  }

  method StoreStep<V>(j: Join<V>, answers: seq<Answer<V>>, order: seq<Step>, k: nat)
    requires k < |order| && Legal(|answers|, order, false) && JoinedUpTo(j, answers, order, k) && order[k].kind.Store?
    modifies j
    ensures JoinedUpTo(j, answers, order, k + 1)
  {
    StoreRecords(j.values, j.errs, answers, order, k);
    j.Store(order[k].i, answers[order[k].i]);
  }

  method FinishStep<V>(j: Join<V>, ghost answers: seq<Answer<V>>, order: seq<Step>, k: nat)
    requires k < |order| && Legal(|answers|, order, false) && JoinedUpTo(j, answers, order, k) && order[k].kind.Finish?
    modifies j
    ensures JoinedUpTo(j, answers, order, k + 1)
  {
    FinishRecords(j.values, j.errs, answers, order, k);
    j.Finish();
  }

  /** The outcome in terms of the answers: value i from branch i if no branch failed, otherwise
      the error of the lowest-numbered branch that did. */
  ghost predicate OutcomeIs<V>(answers: seq<Answer<V>>, o: Outcome<V>) {
    match o
    case Joined(values) =>
      && (forall i :: 0 <= i < |answers| ==> answers[i].err == None)
      && |values| == |answers| && forall i :: 0 <= i < |answers| ==> values[i] == answers[i].value
    case Failed(e) =>
      exists k :: 0 <= k < |answers| && answers[k].err == Some(e) && forall i :: 0 <= i < k ==> answers[i].err == None
  }

  lemma JoinMeaning<V>(answers: seq<Answer<V>>)
    ensures OutcomeIs(answers, JoinOutcome(Values(answers), Errors(answers)))
  {
    LeftmostMeaning(Errors(answers));
    if Leftmost(Errors(answers)).Some? {
      var errs := Errors(answers);
      var k :| 0 <= k < |errs| && errs[k] == Leftmost(errs) && forall i :: 0 <= i < k ==> errs[i].None?;
      assert answers[k].err == Leftmost(errs);
      forall i | 0 <= i < k ensures answers[i].err == None {
        assert errs[i] == answers[i].err;
      }
    } else {
      forall i | 0 <= i < |answers| ensures answers[i].err == None {
        assert Errors(answers)[i] == answers[i].err;
      }
    }
  }

  /** Any run of a join of one or more branches: `done` is called exactly once, by the step
      that completes the last branch, with the error of the leftmost failing branch - however
      late it arrived - or with every branch's value. */
  method RunJoin<V>(answers: seq<Answer<V>>, order: seq<Step>) returns (calls: seq<Outcome<V>>)
    requires |answers| >= 1 && Legal(|answers|, order, false)
    ensures !AllFinish(|answers|, order) ==> calls == []
    ensures AllFinish(|answers|, order) ==> |calls| == 1 && OutcomeIs(answers, calls[0])
  {
    var j := new Join<V>(|answers|);
    var k := 0;
    while k < |order|
      invariant 0 <= k <= |order| && fresh(j)
      invariant JoinedUpTo(j, answers, order, k)
    {
      assert InCallbackOrder(order, k, false);
      if order[k].kind.Store? {
        StoreStep(j, answers, order, k);
      } else {
        FinishStep(j, answers, order, k);
      }
      k := k + 1;
    }
    calls := j.calls;
    AllFinishIff(|answers|, order, false);
    JoinMeaning(answers);
  }

  lemma FinishRecords<V>(values: seq<Option<V>>, errs: seq<Option<Err>>, answers: seq<Answer<V>>, order: seq<Step>, k: nat)
    requires k < |order| && Legal(|answers|, order, false) && Recorded(values, errs, answers, order, k) && order[k].kind.Finish?
    ensures Recorded(values, errs, answers, order, k + 1)
    ensures Finished(order, k + 1) == Finished(order, k) + 1 <= |answers|
    ensures Finished(order, k + 1) == |answers| ==>
              JoinOutcome(values, errs) == JoinOutcome(Values(answers), Errors(answers))
  {
    forall l | 0 <= l < k + 1 ensures RecordedAt(values, errs, answers, order[l]) {}
    CountBounded(|answers|, order, false, k + 1, Finish);
    if Finished(order, k + 1) == |answers| {
      AllRecorded(values, errs, answers, order, k + 1);
    }
  }

  lemma StoreRecords<V>(values: seq<Option<V>>, errs: seq<Option<Err>>, answers: seq<Answer<V>>, order: seq<Step>, k: nat)
    requires k < |order| && Legal(|answers|, order, false) && Recorded(values, errs, answers, order, k) && order[k].kind.Store?
    ensures var i := order[k].i;
            Recorded(values[i := answers[i].value], errs[i := answers[i].err], answers, order, k + 1)
  {
    var i := order[k].i;
    forall l | 0 <= l < k + 1
      ensures RecordedAt(values[i := answers[i].value], errs[i := answers[i].err], answers, order[l])
    {
      if l < k {
        assert RecordedAt(values, errs, answers, order[l]);
      }
    }
  }

  // ----- Each -----

  datatype EachCall<V> = EachCall(results: seq<Option<V>>, err: Option<Err>)

  function FirstOf(errs: seq<Err>): Option<Err> {
    if errs == [] then None else Some(errs[0])
  }

  /** The captured variables of a fan-out over `n` items; `errs` is the buffered channel. */
  class Each<V> {
    const capacity: nat
    var results: seq<Option<V>>
    var errs: seq<Err>
    var pending: int
    var calls: seq<EachCall<V>>

    constructor (n: nat)
      ensures capacity == |results| == pending == n && errs == []
      ensures calls == if n == 0 then [EachCall([], None)] else []
    {
      capacity := n;
      results := seq(n, _ => None);
      errs, pending := [], n;
      calls := if n == 0 then [EachCall([], None)] else [];
    }

    /** Queues an error without blocking; a full channel would drop it. */
    method Queue(err: Option<Err>)
      modifies this`errs
      ensures errs == if err.Some? && |old(errs)| < capacity then old(errs) + [err.value] else old(errs)
    {
      if err.Some? {
        if |errs| < capacity {
          errs := errs + [err.value];
        }
      }
    }

    method Store(i: nat, value: Option<V>)
      requires i < |results|
      modifies this`results
      ensures results == old(results)[i := value]
    {
      results := results[i := value];
    }

    method Finish()
      modifies this`pending, this`errs, this`calls
      ensures pending == old(pending) - 1
      ensures pending != 0 ==> errs == old(errs) && calls == old(calls)
      ensures pending == 0 ==> calls == old(calls) + [EachCall(results, FirstOf(old(errs)))]
    {
      pending := pending - 1;
      if pending != 0 {
        return;
      }
      if |errs| > 0 {
        calls := calls + [EachCall(results, Some(errs[0]))];
        errs := errs[1..];
      } else {
        calls := calls + [EachCall(results, None)];
      }
    }
  }

  /** The errors of the branches that queued within the first `k` steps, in that order. */
  ghost function QueuedErrors<V>(answers: seq<Answer<V>>, order: seq<Step>, k: nat): seq<Err>
    requires k <= |order|
  {
    if k == 0 then [] else
      var s := order[k - 1];
      QueuedErrors(answers, order, k - 1) +
      if s.kind.Queue? && s.i < |answers| && answers[s.i].err.Some? then [answers[s.i].err.value] else []
  }

  /** The channel has room for every error. */
  lemma {:induction false} QueuedErrorsFit<V>(answers: seq<Answer<V>>, order: seq<Step>, k: nat)
    requires Legal(|answers|, order, true) && k <= |order|
    ensures |QueuedErrors(answers, order, k)| <= Count(order, k, Queue) <= |answers|
  {
    CountBounded(|answers|, order, true, k, Queue);
    if k > 0 {
      QueuedErrorsFit(answers, order, k - 1);
    }
  }

  /** No queued error is lost. */
  lemma {:induction false} EveryErrorQueued<V>(answers: seq<Answer<V>>, order: seq<Step>, k: nat, i: nat)
    requires k <= |order| && i < |answers| && answers[i].err.Some? && Precedes(order, Step(Queue, i), k)
    ensures answers[i].err.value in QueuedErrors(answers, order, k)
  {
    if order[k - 1] != Step(Queue, i) {
      var l :| 0 <= l < k && order[l] == Step(Queue, i);
      assert l < k - 1;
      EveryErrorQueued(answers, order, k - 1, i);
    }
  }

  lemma {:induction false} QueuedErrorsAreReal<V>(answers: seq<Answer<V>>, order: seq<Step>, k: nat, e: Err)
    requires k <= |order| && e in QueuedErrors(answers, order, k)
    ensures exists i :: 0 <= i < |answers| && answers[i].err == Some(e)
  {
    if e in QueuedErrors(answers, order, k - 1) {
      QueuedErrorsAreReal(answers, order, k - 1, e);
    }
  }

  /** A completed fan-out reports success exactly when no item failed. */
  lemma {:induction false} EachReportsFailure<V>(answers: seq<Answer<V>>, order: seq<Step>)
    requires Legal(|answers|, order, true) && Finished(order, |order|) == |answers|
    ensures FirstOf(QueuedErrors(answers, order, |order|)).None? <==> forall i :: 0 <= i < |answers| ==> answers[i].err.None?
  {
    var queued := QueuedErrors(answers, order, |order|);
    CountBounded(|answers|, order, true, |order|, Finish);
    if i :| 0 <= i < |answers| && answers[i].err.Some? {
      FinishedHasStored(|answers|, order, true, |order|, i);
      EveryErrorQueued(answers, order, |order|, i);
    }
    if queued != [] {
      QueuedErrorsAreReal(answers, order, |order|, queued[0]);
    }
  }

  ghost predicate ResultAt<V>(results: seq<Option<V>>, answers: seq<Answer<V>>, s: Step)
    requires |results| == |answers|
  {
    s.kind.Store? && s.i < |answers| ==> results[s.i] == answers[s.i].value
  }

  ghost predicate ResultsUpTo<V>(results: seq<Option<V>>, answers: seq<Answer<V>>, order: seq<Step>, k: nat) {
    |results| == |answers| && k <= |order| &&
    forall l {:trigger ResultAt(results, answers, order[l])} :: 0 <= l < k ==> ResultAt(results, answers, order[l])
  }

  /** A fan-out after the first `k` steps of a run. */
  ghost predicate EachUpTo<V>(e: Each<V>, answers: seq<Answer<V>>, order: seq<Step>, k: nat)
    requires k <= |order|
    reads e
  {
    && e.capacity == |answers|
    && ResultsUpTo(e.results, answers, order, k)
    && e.pending == |answers| - Finished(order, k)
    && (e.pending != 0 ==> e.calls == [] && e.errs == QueuedErrors(answers, order, k))
    && (e.pending == 0 ==> e.calls == [EachCall(Values(answers), FirstOf(QueuedErrors(answers, order, k)))])
  }

  lemma ResultsStep<V>(results: seq<Option<V>>, answers: seq<Answer<V>>, order: seq<Step>, k: nat)
    requires k < |order| && order[k].i < |answers| && ResultsUpTo(results, answers, order, k)
    ensures order[k].kind.Store? ==> ResultsUpTo(results[order[k].i := answers[order[k].i].value], answers, order, k + 1)
    ensures !order[k].kind.Store? ==> ResultsUpTo(results, answers, order, k + 1)
  {
    var results' := if order[k].kind.Store? then results[order[k].i := answers[order[k].i].value] else results;
    forall l | 0 <= l < k + 1 ensures ResultAt(results', answers, order[l]) {
      if l < k {
        assert ResultAt(results, answers, order[l]);
      }
    }
  }

  lemma AllResults<V>(results: seq<Option<V>>, answers: seq<Answer<V>>, order: seq<Step>, k: nat)
    requires k <= |order| && Legal(|answers|, order, true) && ResultsUpTo(results, answers, order, k)
    requires Finished(order, k) == |answers|
    ensures results == Values(answers)
  {
    CountBounded(|answers|, order, true, k, Finish);
    forall i | 0 <= i < |answers| ensures results[i] == answers[i].value {
      FinishedHasStored(|answers|, order, true, k, i);
      var m :| 0 <= m < k && order[m] == Step(Store, i);
      assert ResultAt(results, answers, order[m]);
    }
  }

  method EachStep<V>(e: Each<V>, answers: seq<Answer<V>>, order: seq<Step>, k: nat)
    requires k < |order| && Legal(|answers|, order, true) && EachUpTo(e, answers, order, k)
    modifies e
    ensures EachUpTo(e, answers, order, k + 1)
  {
    if e.pending == 0 {
      NothingAfterTheLast(|answers|, order, k);
      assert false;
    }
    var i := order[k].i;
    ResultsStep(e.results, answers, order, k);
    CountBounded(|answers|, order, true, k + 1, order[k].kind);
    match order[k].kind {
      case Queue =>
        QueuedErrorsFit(answers, order, k);
        e.Queue(answers[i].err);
      case Store => e.Store(i, answers[i].value);
      case Finish =>
        if e.pending == 1 {
          AllResults(e.results, answers, order, k + 1);
        }
        e.Finish();
    }
  }

  lemma StartEach<V>(answers: seq<Answer<V>>, order: seq<Step>)
    ensures Finished(order, 0) == 0 && QueuedErrors(answers, order, 0) == []
    ensures |answers| == 0 ==> Values(answers) == []
  {
  }

  /** Step `l` queues error `e`, and no error is queued before it. */
  ghost predicate EarliestAt<V>(answers: seq<Answer<V>>, order: seq<Step>, l: nat, e: Err) {
    && l < |order| && order[l].kind == Queue && order[l].i < |answers| && answers[order[l].i].err == Some(e)
    && forall m :: 0 <= m < l ==> !QueuesError(answers, order[m])
  }

  ghost predicate QueuesError<V>(answers: seq<Answer<V>>, s: Step) {
    s.kind == Queue && s.i < |answers| && answers[s.i].err != None
  }

  /** The first error in the channel is that of the step that queued first. */
  lemma {:induction false} EarliestQueued<V>(answers: seq<Answer<V>>, order: seq<Step>, k: nat)
    requires k <= |order|
    ensures QueuedErrors(answers, order, k) == [] <==> forall m :: 0 <= m < k ==> !QueuesError(answers, order[m])
    ensures QueuedErrors(answers, order, k) != [] ==> EarliestIn(answers, order, k, QueuedErrors(answers, order, k)[0])
  {
    if k > 0 {
      EarliestQueued(answers, order, k - 1);
      var before, all := QueuedErrors(answers, order, k - 1), QueuedErrors(answers, order, k);
      if before != [] {
        assert all[0] == before[0];
      } else if QueuesError(answers, order[k - 1]) {
        assert EarliestAt(answers, order, k - 1, answers[order[k - 1].i].err.value);
      }
    }
  }

  ghost predicate EarliestIn<V>(answers: seq<Answer<V>>, order: seq<Step>, k: nat, e: Err) {
    exists l: nat {:trigger EarliestAt(answers, order, l, e)} :: l < k && EarliestAt(answers, order, l, e)
  }

  /** The call in terms of the answers: result i from item i, and the error of the failing item
      that queued its error first, or none if no item failed. */
  ghost predicate EachIs<V>(answers: seq<Answer<V>>, order: seq<Step>, c: EachCall<V>) {
    && |c.results| == |answers| && (forall i :: 0 <= i < |answers| ==> c.results[i] == answers[i].value)
    && match c.err
       case None => forall i :: 0 <= i < |answers| ==> answers[i].err == None
       case Some(e) => EarliestIn(answers, order, |order|, e)
  }

  lemma EachMeaning<V>(answers: seq<Answer<V>>, order: seq<Step>)
    requires Legal(|answers|, order, true) && Finished(order, |order|) == |answers|
    ensures EachIs(answers, order, EachCall(Values(answers), FirstOf(QueuedErrors(answers, order, |order|))))
  {
    EachReportsFailure(answers, order);
    EarliestQueued(answers, order, |order|);
  }

  /** The calls of `done` a fan-out owes after a run: none until every item has answered,
      then one with all the results and the error that was queued first. */
  ghost function EachCalls<V>(answers: seq<Answer<V>>, order: seq<Step>): seq<EachCall<V>> {
    if Finished(order, |order|) == |answers|
    then [EachCall(Values(answers), FirstOf(QueuedErrors(answers, order, |order|)))]
    else []
  }

  /** Any run of a fan-out: `done` is called exactly once, when the last item has answered,
      with result i from item i and the error that was queued first; no error is dropped. */
  method RunEach<V>(answers: seq<Answer<V>>, order: seq<Step>) returns (calls: seq<EachCall<V>>)
    requires Legal(|answers|, order, true)
    ensures calls == EachCalls(answers, order)
    ensures !AllFinish(|answers|, order) ==> calls == []
    ensures AllFinish(|answers|, order) ==> |calls| == 1 && EachIs(answers, order, calls[0])
  {
    var e := new Each<V>(|answers|);
    StartEach(answers, order);
    var k := 0;
    while k < |order|
      invariant 0 <= k <= |order| && fresh(e)
      invariant EachUpTo(e, answers, order, k)
    {
      EachStep(e, answers, order, k);
      k := k + 1;
    }
    calls := e.calls;
    AllFinishIff(|answers|, order, true);
    if Finished(order, |order|) == |answers| {
      EachMeaning(answers, order);
    }
  }

  // ----- Sequence -----

  datatype SeqEffect = Started(i: nat) | DoneWith(err: Option<Err>)

  /** A running sequence: the step whose reply is awaited, if any, and what has happened. */
  datatype SeqRun = SeqRun(waiting: Option<nat>, trace: seq<SeqEffect>)

  /** The function `run` of Sequence.Done. */
  function StartStep(n: nat, i: nat, trace: seq<SeqEffect>): SeqRun {
    if i >= n then SeqRun(None, trace + [DoneWith(None)]) else SeqRun(Some(i), trace + [Started(i)])
  }

  /** The continuation handed to a step. Each step replies once, so once no step is awaited
      there is nobody left to reply. */
  function OnReply(n: nat, r: SeqRun, err: Option<Err>): SeqRun {
    match r.waiting
    case None => r
    case Some(i) => if err.Some? then SeqRun(None, r.trace + [DoneWith(err)]) else StartStep(n, i + 1, r.trace)
  }

  function RunSequence(n: nat, replies: seq<Option<Err>>): SeqRun {
    if replies == [] then StartStep(n, 0, [])
    else OnReply(n, RunSequence(n, replies[..|replies| - 1]), replies[|replies| - 1])
  }

  /** How many of the first `n` replies come before the first error. */
  function Successes(n: nat, replies: seq<Option<Err>>): (j: nat)
    ensures j <= n && j <= |replies| && forall i :: 0 <= i < j ==> replies[i].None?
    ensures j < n && j < |replies| ==> replies[j].Some?
  {
    if n == 0 || replies == [] || replies[0].Some? then 0 else 1 + Successes(n - 1, replies[1..])
  }

  function Starts(k: nat): seq<SeqEffect> {
    seq(k, i requires 0 <= i < k => Started(i))
  }

  /** For any stream of replies: the steps start in order up to and including the first one
      that fails, none after it, and `done` is called exactly once, last, with that error or,
      after the last step, with nil; it is not called while a step is awaited. */
  lemma {:induction false} SequenceRunsInOrder(n: nat, replies: seq<Option<Err>>)
    ensures var j, r := Successes(n, replies), RunSequence(n, replies);
            if j == n then r == SeqRun(None, Starts(n) + [DoneWith(None)])
            else if j < |replies| then r == SeqRun(None, Starts(j + 1) + [DoneWith(replies[j])])
            else r == SeqRun(Some(j), Starts(j + 1))
  {
    if replies != [] {
      var before := replies[..|replies| - 1];
      SequenceRunsInOrder(n, before);
      SuccessesAppend(n, before, replies);
      var j := Successes(n, before);
      assert Starts(j + 1) + [Started(j + 1)] == Starts(j + 2);
    } else {
      assert [] + [Started(0)] == Starts(1) && Starts(0) == [];
    }
  }

  lemma SuccessesAppend(n: nat, before: seq<Option<Err>>, replies: seq<Option<Err>>)
    requires replies != [] && before == replies[..|replies| - 1]
    ensures var j := Successes(n, before);
            Successes(n, replies) == if j < n && j == |before| && replies[j].None? then j + 1 else j
  {
    assert forall i :: 0 <= i < |before| ==> before[i] == replies[i];
  }
}
