/**
 The histogram of src/monitor/latency_histogram.h under concurrency: any number of
 threads in record() and any number of snapshot_and_reset() calls, interleaved at the
 granularity of single atomic operations.

 A call's next counts the buckets it has exchanged so far.  Beside the
 atomics the state keeps the history: every value whose bucket was incremented, in
 the order of the increments, and for each one where its increment is now.
 The same compare-and-swap loop is update_atomic_max in src/network/connection_manager.cpp.
 */
module HistogramRace {
  import opened LatencyHistogram

  datatype Recorder =
    | Resting
    | Loading(v: nat)                // bucket incremented, max_us_ not yet read
    | Comparing(v: nat, cur: nat)    // in the loop, with the last value read

  datatype Call = Call(counts: seq<nat>, next: nat, finished: bool, max: nat, since: nat)

  datatype Place = Pending | CountedBy(call: nat)

  datatype State = State(
    buckets: seq<nat>, max: nat, recorders: seq<Recorder>, calls: seq<Call>,
    values: seq<nat>, places: seq<Place>)

  datatype Step =
    | Add(t: nat, v: nat)            // buckets_[idx].fetch_add(1)
    | Load(t: nat)                   // max_us_.load()
    | Leave(t: nat)                  // the loop condition is false
    | Cas(t: nat, spurious: bool)    // compare_exchange_weak
    | Begin                          // a snapshot call starts
    | Exchange(w: nat)               // buckets_[i].exchange(0)
    | TakeMax(w: nat)                // max_us_.exchange(0)

  predicate Enabled(s: State, step: Step) {
    match step
    case Add(t, v) => t < |s.recorders| && s.recorders[t] == Resting && v < U64
    case Load(t) => t < |s.recorders| && s.recorders[t].Loading?
    case Leave(t) => t < |s.recorders| && s.recorders[t].Comparing? && s.recorders[t].v <= s.recorders[t].cur
    case Cas(t, _) => t < |s.recorders| && s.recorders[t].Comparing? && s.recorders[t].v > s.recorders[t].cur
    case Begin => true
    case Exchange(w) => w < |s.calls| && s.calls[w].next < BUCKETS
    case TakeMax(w) => w < |s.calls| && s.calls[w].next == BUCKETS && !s.calls[w].finished
  }

  /** The increments of bucket i that are still pending go to call w. */
  function Moved(values: seq<nat>, places: seq<Place>, i: nat, w: nat): (moved: seq<Place>)
    requires |places| == |values|
    ensures |moved| == |places|
    ensures forall k :: 0 <= k < |places| ==>
              moved[k] == if places[k] == Pending && BucketOf(values[k]) == i then CountedBy(w) else places[k]
  {
    seq(|places|, k requires 0 <= k < |places| =>
      if places[k] == Pending && BucketOf(values[k]) == i then CountedBy(w) else places[k])
  }

  predicate Shape(s: State) {
    && |s.buckets| == BUCKETS && |s.places| == |s.values|
    && (forall k :: 0 <= k < |s.values| ==> s.values[k] < U64)
    && (forall w :: 0 <= w < |s.calls| ==> |s.calls[w].counts| == BUCKETS && s.calls[w].next <= BUCKETS)
  }

  function Zeros(): (z: seq<nat>)
    ensures |z| == BUCKETS && forall i :: 0 <= i < BUCKETS ==> z[i] == 0
  {
    seq(BUCKETS, i => 0)
  }

  function Do(s: State, step: Step): (r: State)
    requires Shape(s) && Enabled(s, step)
  {
    match step
    case Add(t, v) =>
      BucketInRange(v);
      var idx := BucketOf(v);
      s.(buckets := s.buckets[idx := s.buckets[idx] + 1], recorders := s.recorders[t := Loading(v)],
         values := s.values + [v], places := s.places + [Pending])
    case Load(t) => s.(recorders := s.recorders[t := Comparing(s.recorders[t].v, s.max)])
    case Leave(t) => s.(recorders := s.recorders[t := Resting])
    case Cas(t, spurious) =>
      var v := s.recorders[t].v;
      if !spurious && s.max == s.recorders[t].cur then s.(max := v, recorders := s.recorders[t := Resting])
      else s.(recorders := s.recorders[t := Comparing(v, s.max)])
    case Begin => s.(calls := s.calls + [Call(Zeros(), 0, false, 0, |s.values|)])
    case Exchange(w) =>
      var c := s.calls[w];
      s.(buckets := s.buckets[c.next := 0],
         calls := s.calls[w := c.(counts := c.counts[c.next := s.buckets[c.next]], next := c.next + 1)],
         places := Moved(s.values, s.places, c.next, w))
    case TakeMax(w) => s.(max := 0, calls := s.calls[w := s.calls[w].(finished := true, max := s.max)])
  }

  function Initial(threads: nat): State {
    State(Zeros(), 0, seq(threads, t => Resting), [], [], [])
  }

  // ---------------------------------------------------------------- where samples are

  /** The recorded values whose increment is at p, in order. */
  function Gather(values: seq<nat>, places: seq<Place>, p: Place): seq<nat>
    requires |places| == |values|
  {
    if values == [] then [] else
      var n := |values| - 1;
      Gather(values[..n], places[..n], p) + if places[n] == p then [values[n]] else []
  }

  /** How many increments of bucket i are at p. */
  function Tally(values: seq<nat>, places: seq<Place>, p: Place, i: nat): nat
    requires |places| == |values|
  {
    if values == [] then 0 else
      var n := |values| - 1;
      Tally(values[..n], places[..n], p, i) + if places[n] == p && BucketOf(values[n]) == i then 1 else 0
  }

  ghost predicate CountsMatch(s: State) {
    && Shape(s)
    && (forall k :: 0 <= k < |s.places| && s.places[k].CountedBy? ==> s.places[k].call < |s.calls|)
    && (forall i :: 0 <= i < BUCKETS ==> s.buckets[i] == Tally(s.values, s.places, Pending, i))
    && (forall w, i :: 0 <= w < |s.calls| && 0 <= i < BUCKETS ==>
          s.calls[w].counts[i] == Tally(s.values, s.places, CountedBy(w), i))
    && (forall w, i :: 0 <= w < |s.calls| && s.calls[w].next <= i < BUCKETS ==> s.calls[w].counts[i] == 0)
    && (forall w :: 0 <= w < |s.calls| && s.calls[w].finished ==> s.calls[w].next == BUCKETS)
  }

  /** A snapshot leaves behind nothing recorded before it began in a bucket it has visited. */
  ghost predicate NothingLeftBehind(s: State) {
    && |s.places| == |s.values|
    && (forall w :: 0 <= w < |s.calls| ==> s.calls[w].since <= |s.values|)
    && (forall w, k :: 0 <= w < |s.calls| && 0 <= k < s.calls[w].since && BucketOf(s.values[k]) < s.calls[w].next ==>
          s.places[k] != Pending)
  }

  lemma {:induction false} TallyMoved(values: seq<nat>, places: seq<Place>, i: nat, w: nat, p: Place, j: nat)
    requires |places| == |values|
    ensures Tally(values, Moved(values, places, i, w), p, j) ==
            if j != i then Tally(values, places, p, j)
            else if p == Pending then 0
            else if p == CountedBy(w) then Tally(values, places, p, i) + Tally(values, places, Pending, i)
            else Tally(values, places, p, j)
  {
    hide BucketOf;
    if values != [] {
      var n := |values| - 1;
      TallyMoved(values[..n], places[..n], i, w, p, j);
      assert Moved(values, places, i, w)[..n] == Moved(values[..n], places[..n], i, w);
    }
  }

  lemma TallyAdded(values: seq<nat>, places: seq<Place>, v: nat, p: Place, j: nat)
    requires |places| == |values|
    ensures Tally(values + [v], places + [Pending], p, j) ==
            Tally(values, places, p, j) + if p == Pending && BucketOf(v) == j then 1 else 0
  {
    hide BucketOf;
    assert (values + [v])[..|values|] == values;
    assert (places + [Pending])[..|values|] == places;
  }

  lemma {:induction false} TallyAbsent(values: seq<nat>, places: seq<Place>, p: Place, j: nat)
    requires |places| == |values| && forall k :: 0 <= k < |places| ==> places[k] != p
    ensures Tally(values, places, p, j) == 0
  {
    if values != [] {
      TallyAbsent(values[..|values| - 1], places[..|values| - 1], p, j);
    }
  }

  lemma AddKeepsCounts(s: State, t: nat, v: nat)
    requires CountsMatch(s) && Enabled(s, Add(t, v))
    ensures CountsMatch(Do(s, Add(t, v)))
  {
    hide BucketOf, Tally;
    BucketInRange(v);
    forall p, j { TallyAdded(s.values, s.places, v, p, j); }
  }

  lemma ExchangeKeepsCounts(s: State, w: nat)
    requires CountsMatch(s) && Enabled(s, Exchange(w))
    ensures CountsMatch(Do(s, Exchange(w)))
  {
    hide BucketOf, Tally;
    forall p, j { TallyMoved(s.values, s.places, s.calls[w].next, w, p, j); }
  }

  lemma BeginKeepsCounts(s: State)
    requires CountsMatch(s)
    ensures CountsMatch(Do(s, Begin))
  {
    hide BucketOf, Tally;
    forall j { TallyAbsent(s.values, s.places, CountedBy(|s.calls|), j); }
  }

  lemma CountsStep(s: State, step: Step)
    requires CountsMatch(s) && Enabled(s, step)
    ensures CountsMatch(Do(s, step))
  {
    hide BucketOf, Tally;
    match step
    case Add(t, v) => AddKeepsCounts(s, t, v);
    case Exchange(w) => ExchangeKeepsCounts(s, w);
    case Begin => BeginKeepsCounts(s);
    case _ =>
  }

  lemma LeftBehindStep(s: State, step: Step)
    requires Shape(s) && NothingLeftBehind(s) && Enabled(s, step)
    ensures NothingLeftBehind(Do(s, step))
  {
    hide BucketOf;
  }

  // ------------------------------------------------------------------- the maximum

  /** v does not exceed the current maximum or one that a snapshot has taken. */
  ghost predicate Reached(s: State, v: nat) {
    v <= s.max || exists w :: 0 <= w < |s.calls| && v <= s.calls[w].max
  }

  /** A thread is still on its way to raise the maximum to v. */
  ghost predicate Held(s: State, v: nat) {
    exists t :: 0 <= t < |s.recorders| && s.recorders[t] != Resting && s.recorders[t].v == v
  }

  ghost predicate MaxInv(s: State) {
    && (forall v :: v in s.values ==> Reached(s, v) || Held(s, v))
    && (forall t :: 0 <= t < |s.recorders| && s.recorders[t] != Resting ==> s.recorders[t].v in s.values)
    && (forall t :: 0 <= t < |s.recorders| && s.recorders[t].Comparing? ==> Reached(s, s.recorders[t].cur))
    && (s.max == 0 || s.max in s.values)
    && (forall w :: 0 <= w < |s.calls| ==> s.calls[w].max == 0 || s.calls[w].max in s.values)
    && (forall w :: 0 <= w < |s.calls| && !s.calls[w].finished ==> s.calls[w].max == 0)
  }

  lemma ReachedStays(s: State, step: Step)
    requires Shape(s) && MaxInv(s) && Enabled(s, step)
    ensures forall v :: Reached(s, v) ==> Reached(Do(s, step), v)
  {
    hide BucketOf, Moved;
    var r := Do(s, step);
    forall v: nat | Reached(s, v) ensures Reached(r, v) {
      if v > s.max {
        var w :| 0 <= w < |s.calls| && v <= s.calls[w].max;
        assert v <= r.calls[w].max;
      } else if step.TakeMax? {
        assert v <= r.calls[step.w].max;
      } else {
        CasRaises(s, step);
      }
    }
  }

  lemma CasRaises(s: State, step: Step)
    requires Shape(s) && Enabled(s, step) && !step.TakeMax?
    ensures s.max <= Do(s, step).max
  {
  }

  lemma HeldStays(s: State, step: Step, v: nat)
    requires Shape(s) && MaxInv(s) && Enabled(s, step) && Held(s, v)
    ensures Held(Do(s, step), v) || Reached(Do(s, step), v)
  {
    hide BucketOf, Moved;
    var r := Do(s, step);
    var t :| 0 <= t < |s.recorders| && s.recorders[t] != Resting && s.recorders[t].v == v;
    if r.recorders[t] != Resting {
      assert r.recorders[t].v == v;
    } else if step.Leave? {
      ReachedStays(s, step);
      assert Reached(s, s.recorders[t].cur);
    }
  }

  lemma MaxStep(s: State, step: Step)
    requires Shape(s) && MaxInv(s) && Enabled(s, step)
    ensures MaxInv(Do(s, step))
  {
    hide BucketOf, Moved, Reached, Held;
    var r := Do(s, step);
    ReachedStays(s, step);
    forall v | v in s.values ensures Reached(r, v) || Held(r, v) {
      if Held(s, v) {
        HeldStays(s, step, v);
      }
    }
    NewlyHeld(s, step);
    forall t | 0 <= t < |r.recorders| && r.recorders[t].Comparing? ensures Reached(r, r.recorders[t].cur) {
      assert r.recorders[t] == s.recorders[t] || r.recorders[t].cur == r.max;
      CurrentIsReached(r);
    }
  }

  lemma CurrentIsReached(s: State)
    ensures Reached(s, s.max)
  {
  }

  lemma NewlyHeld(s: State, step: Step)
    requires Shape(s) && Enabled(s, step)
    ensures step.Add? ==> Held(Do(s, step), step.v)
  {
    hide BucketOf;
    if step.Add? {
      assert Do(s, step).recorders[step.t] == Loading(step.v);
    }
  }

  // ---------------------------------------------------------------------- whole runs

  ghost predicate ValidRun(s: State, steps: seq<Step>)
    requires Shape(s)
  {
    steps == [] || (ValidRun(s, steps[..|steps| - 1])
                    && Shape(Run(s, steps[..|steps| - 1]))
                    && Enabled(Run(s, steps[..|steps| - 1]), steps[|steps| - 1]))
  }

  ghost function Run(s: State, steps: seq<Step>): State
    requires Shape(s)
  {
    if steps == [] then s else
      var before := Run(s, steps[..|steps| - 1]);
      if Shape(before) && Enabled(before, steps[|steps| - 1]) then Do(before, steps[|steps| - 1]) else before
  }

  ghost predicate Inv(s: State) {
    CountsMatch(s) && NothingLeftBehind(s) && MaxInv(s)
  }

  lemma {:induction false} RunKeepsInv(threads: nat, steps: seq<Step>)
    requires ValidRun(Initial(threads), steps)
    ensures Inv(Run(Initial(threads), steps))
  {
    hide BucketOf, Moved, CountsMatch, NothingLeftBehind, MaxInv;
    if steps == [] {
      InitialInv(threads);
    } else {
      var n := |steps| - 1;
      RunKeepsInv(threads, steps[..n]);
      var before := Run(Initial(threads), steps[..n]);
      CountsStep(before, steps[n]);
      LeftBehindStep(before, steps[n]);
      MaxStep(before, steps[n]);
    }
  }

  lemma InitialInv(threads: nat)
    ensures Inv(Initial(threads))
  {
  }

  lemma {:induction false} TallyIsCount(values: seq<nat>, places: seq<Place>, p: Place, i: nat)
    requires |places| == |values|
    ensures Tally(values, places, p, i) == CountIn(Gather(values, places, p), i)
  {
    hide BucketOf, CountIn;
    if values == [] {
      NoSamplesNoCounts();
    } else {
      var n := |values| - 1;
      TallyIsCount(values[..n], places[..n], p, i);
      var tail := if places[n] == p then [values[n]] else [];
      CountInConcat(Gather(values[..n], places[..n], p), tail, i);
      CountInSingle(values[n], i);
      NoSamplesNoCounts();
    }
  }

  lemma CountInConcat(a: seq<nat>, b: seq<nat>, i: nat)
    ensures CountIn(a + b, i) == CountIn(a, i) + CountIn(b, i)
  {
    CountBelowSplit(a + b, i); CountBelowSplit(a, i); CountBelowSplit(b, i);
    CountBelowConcat(a, b, i); CountBelowConcat(a, b, i + 1);
  }

  lemma CountInSingle(v: nat, i: nat)
    ensures CountIn([v], i) == if BucketOf(v) == i then 1 else 0
  {
    hide BucketOf;
  }

  /** The samples counted by call w. */
  ghost function Window(s: State, w: nat): seq<nat>
    requires |s.places| == |s.values|
  {
    Gather(s.values, s.places, CountedBy(w))
  }

  /** The total of bucket i over the first n calls. */
  ghost function CallTotal(s: State, i: nat, n: nat): nat
    requires Shape(s) && i < BUCKETS && n <= |s.calls|
  {
    if n == 0 then 0 else CallTotal(s, i, n - 1) + s.calls[n - 1].counts[i]
  }

  ghost function TallyTotal(values: seq<nat>, places: seq<Place>, i: nat, n: nat): nat
    requires |places| == |values|
  {
    if n == 0 then 0 else TallyTotal(values, places, i, n - 1) + Tally(values, places, CountedBy(n - 1), i)
  }

  lemma {:induction false} TotalsAgree(s: State, i: nat, n: nat)
    requires CountsMatch(s) && i < BUCKETS && n <= |s.calls|
    ensures CallTotal(s, i, n) == TallyTotal(s.values, s.places, i, n)
  {
    hide Tally, BucketOf;
    if n > 0 {
      TotalsAgree(s, i, n - 1);
    }
  }

  lemma {:induction false} TallyTotalGrows(values: seq<nat>, places: seq<Place>, i: nat, n: nat)
    requires |places| == |values| > 0
    ensures var m := |values| - 1;
      TallyTotal(values, places, i, n) == TallyTotal(values[..m], places[..m], i, n)
        + if places[m].CountedBy? && places[m].call < n && BucketOf(values[m]) == i then 1 else 0
  {
    hide BucketOf;
    if n > 0 {
      TallyTotalGrows(values, places, i, n - 1);
    }
  }

  lemma {:induction false} TalliesPartition(values: seq<nat>, places: seq<Place>, i: nat, n: nat)
    requires |places| == |values|
    requires forall k :: 0 <= k < |places| && places[k].CountedBy? ==> places[k].call < n
    ensures TallyTotal(values, places, i, n) + Tally(values, places, Pending, i) == CountIn(values, i)
  {
    hide BucketOf, CountIn;
    if values == [] {
      NoTallies(places, i, n);
      NoSamplesNoCounts();
    } else {
      var m := |values| - 1;
      TalliesPartition(values[..m], places[..m], i, n);
      TallyTotalGrows(values, places, i, n);
      CountInConcat(values[..m], [values[m]], i);
      CountInSingle(values[m], i);
      assert values == values[..m] + [values[m]];
    }
  }

  lemma {:induction false} NoTallies(places: seq<Place>, i: nat, n: nat)
    requires places == []
    ensures TallyTotal([], places, i, n) == 0
  {
    if n > 0 {
      NoTallies(places, i, n - 1);
    }
  }

  /**
   Whatever the interleaving: every recorded sample is counted by exactly one snapshot
   call or still sits in its bucket.  Each call's counts are those of the samples
   attributed to it, and the totals over all calls and the buckets are all increments.
   */
  lemma {:induction false} EverySampleCountedOnce(threads: nat, steps: seq<Step>)
    requires ValidRun(Initial(threads), steps)
    ensures var s := Run(Initial(threads), steps);
      && Shape(s)
      && (forall k :: 0 <= k < |s.values| ==> s.places[k] == Pending || s.places[k].call < |s.calls|)
      && (forall i :: 0 <= i < BUCKETS ==> s.buckets[i] == CountIn(Gather(s.values, s.places, Pending), i))
      && (forall w :: 0 <= w < |s.calls| ==> s.calls[w].counts == Counts(Window(s, w)))
      && (forall i :: 0 <= i < BUCKETS ==> CallTotal(s, i, |s.calls|) + s.buckets[i] == CountIn(s.values, i))
  {
    hide BucketOf, Tally, CountIn;
    RunKeepsInv(threads, steps);
    var s := Run(Initial(threads), steps);
    forall p, i { TallyIsCount(s.values, s.places, p, i); }
    forall i | 0 <= i < BUCKETS
      ensures CallTotal(s, i, |s.calls|) + s.buckets[i] == CountIn(s.values, i)
    {
      TotalsAgree(s, i, |s.calls|);
      TalliesPartition(s.values, s.places, i, |s.calls|);
    }
  }

  /** Where a sample has been counted never changes afterwards. */
  lemma AttributionIsFinal(s: State, step: Step)
    requires Shape(s) && Enabled(s, step)
    ensures var r := Do(s, step);
      && s.values <= r.values && |s.places| <= |r.places|
      && (forall k :: 0 <= k < |s.places| && s.places[k] != Pending ==> r.places[k] == s.places[k])
  {
    hide BucketOf;
  }

  /** A finished call has counted, or another call has, all that was recorded before it began. */
  lemma {:induction false} FinishedCallLeavesNothing(threads: nat, steps: seq<Step>)
    requires ValidRun(Initial(threads), steps)
    ensures var s := Run(Initial(threads), steps);
      && |s.places| == |s.values|
      && (forall w, k :: 0 <= w < |s.calls| && s.calls[w].finished && 0 <= k < s.calls[w].since && k < |s.values| ==>
            s.places[k] != Pending)
  {
    hide BucketOf, Tally;
    RunKeepsInv(threads, steps);
    var s := Run(Initial(threads), steps);
    forall k | 0 <= k < |s.values| ensures BucketOf(s.values[k]) < BUCKETS {
      BucketInRange(s.values[k]);
    }
  }

  /** Calls are numbered in the order they begin, and remember what had been recorded by then. */
  lemma CallsStay(s: State, step: Step)
    requires Shape(s) && Enabled(s, step)
    ensures var r := Do(s, step);
      && |s.calls| <= |r.calls| && |s.values| <= |r.values|
      && (forall w :: 0 <= w < |s.calls| ==> r.calls[w].since == s.calls[w].since)
      && (step.Begin? ==> |r.calls| == |s.calls| + 1 && r.calls[|s.calls|].since == |s.values| && r.values == s.values)
  {
    hide BucketOf;
  }

  lemma LastStep(s: State, steps: seq<Step>, step: Step)
    requires Shape(s) && ValidRun(s, steps + [step])
    ensures ValidRun(s, steps) && Shape(Run(s, steps)) && Enabled(Run(s, steps), step)
    ensures Run(s, steps + [step]) == Do(Run(s, steps), step)
  {
    hide Do, Shape, Enabled;
    assert (steps + [step])[..|steps|] == steps;
  }

  lemma InitialShape(threads: nat)
    ensures Shape(Initial(threads))
  {
  }

  lemma {:induction false} LaterCallsStay(s: State, steps: seq<Step>, more: seq<Step>)
    requires Shape(s) && ValidRun(s, steps + more)
    ensures ValidRun(s, steps)
    ensures var a, b := Run(s, steps), Run(s, steps + more);
      && |a.calls| <= |b.calls| && |a.values| <= |b.values|
      && forall w :: 0 <= w < |a.calls| ==> b.calls[w].since == a.calls[w].since
    decreases |more|
  {
    hide Do, Shape, Enabled;
    if more == [] {
      assert steps + more == steps;
    } else {
      var n := |more| - 1;
      assert steps + more == steps + more[..n] + [more[n]];
      LastStep(s, steps + more[..n], more[n]);
      LaterCallsStay(s, steps, more[..n]);
      CallsStay(Run(s, steps + more[..n]), more[n]);
    }
  }

  /** In any run: once a call has finished, nothing recorded before it began is still in its bucket. */
  lemma {:induction false} OlderSamplesAreCounted(threads: nat, before: seq<Step>, after: seq<Step>)
    requires ValidRun(Initial(threads), before + [Begin] + after)
    ensures var a, b := Run(Initial(threads), before), Run(Initial(threads), before + [Begin] + after);
      var call := |a.calls|;
      && call < |b.calls| && |a.values| <= |b.values| == |b.places|
      && (b.calls[call].finished ==> forall k :: 0 <= k < |a.values| ==> b.places[k] != Pending)
  {
    hide Do, Shape, Enabled;
    var start := Initial(threads);
    InitialShape(threads);
    LaterCallsStay(start, before + [Begin], after);
    LastStep(start, before, Begin);
    CallsStay(Run(start, before), Begin);
    FinishedCallLeavesNothing(threads, before + [Begin] + after);
  }

  /** What a finished call returns. */
  function Returned(c: Call): Snapshot
    requires |c.counts| == BUCKETS
  {
    var total := Sum(c.counts, BUCKETS);
    if total == 0 then Snapshot(0, 0, 0, 0, 0, c.max)
    else Snapshot(total, Search(c.counts, 0, 0, PercentTarget(total, 50)), Search(c.counts, 0, 0, PercentTarget(total, 95)),
                  Search(c.counts, 0, 0, PercentTarget(total, 99)), Search(c.counts, 0, 0, PermilleTarget(total, 999)),
                  c.max)
  }

  /** Apart from the maximum, a call returns the sequential report on the samples it counted. */
  lemma {:induction false} WindowReport(threads: nat, steps: seq<Step>, w: nat)
    requires ValidRun(Initial(threads), steps)
    requires w < |Run(Initial(threads), steps).calls|
    ensures var s := Run(Initial(threads), steps);
      && Shape(s)
      && Returned(s.calls[w]) == Report(Window(s, w)).(max := s.calls[w].max)
  {
    hide BucketOf, CountIn, Search, PercentTarget, PermilleTarget, Maximum, Sum, Gather, Tally;
    EverySampleCountedOnce(threads, steps);
    var s := Run(Initial(threads), steps);
    GatheredInRange(s.values, s.places, CountedBy(w));
    SumOfCounts(Window(s, w));
  }

  lemma {:induction false} GatheredInRange(values: seq<nat>, places: seq<Place>, p: Place)
    requires |places| == |values| && forall k :: 0 <= k < |values| ==> values[k] < U64
    ensures forall k :: 0 <= k < |Gather(values, places, p)| ==> Gather(values, places, p)[k] < U64
  {
    if values != [] {
      var n := |values| - 1;
      GatheredInRange(values[..n], places[..n], p);
    }
  }

  ghost predicate AtRest(s: State) {
    forall t :: 0 <= t < |s.recorders| ==> s.recorders[t] == Resting
  }

  ghost predicate NoReset(s: State) {
    forall w :: 0 <= w < |s.calls| ==> !s.calls[w].finished
  }

  /**
   Once no recorder is under way, the maximum of all values is the larger of max_us_ and
   the maxima snapshots have taken, whatever compare-and-swaps failed; without a reset
   it is max_us_ itself.
   */
  lemma {:induction false} NoMaximumIsLost(threads: nat, steps: seq<Step>)
    requires ValidRun(Initial(threads), steps)
    requires AtRest(Run(Initial(threads), steps))
    ensures var s := Run(Initial(threads), steps);
      && s.max <= Maximum(s.values)
      && (forall w :: 0 <= w < |s.calls| ==> s.calls[w].max <= Maximum(s.values))
      && (s.max == Maximum(s.values) || exists w :: 0 <= w < |s.calls| && s.calls[w].max == Maximum(s.values))
      && (NoReset(s) ==> s.max == Maximum(s.values))
  {
    hide CountsMatch, NothingLeftBehind, Do, Maximum;
    RunKeepsInv(threads, steps);
    var s := Run(Initial(threads), steps);
    MaximumBounds(s.values);
    var top := Maximum(s.values);
    if top == 0 {
      assert s.max == 0;
    } else {
      assert !Held(s, top);
      assert Reached(s, top);
    }
  }

  /** v has been recorded, or was on its way, since the state a. */
  ghost predicate Recent(a: State, s: State, v: nat) {
    v == 0 || Held(a, v) || (|a.values| <= |s.values| && v in s.values[|a.values|..])
  }

  ghost predicate RecentInv(a: State, s: State) {
    && |a.values| <= |s.values| && |a.calls| <= |s.calls| && Recent(a, s, s.max)
    && (forall t :: 0 <= t < |s.recorders| && s.recorders[t] != Resting ==> Recent(a, s, s.recorders[t].v))
    && (forall w :: 0 <= w < |s.calls| && s.calls[w].finished && !(w < |a.calls| && a.calls[w].finished) ==>
          Recent(a, s, s.calls[w].max))
  }

  lemma RecentStays(a: State, s: State, step: Step, v: nat)
    requires Shape(s) && Enabled(s, step) && Recent(a, s, v)
    ensures Recent(a, Do(s, step), v)
  {
    hide Held, BucketOf, Moved;
    var r := Do(s, step);
    if |a.values| <= |s.values| {
      assert step.Add? ==> r.values[|a.values|..] == s.values[|a.values|..] + [step.v];
    }
  }

  lemma RecentStep(a: State, s: State, step: Step)
    requires Shape(s) && Enabled(s, step) && RecentInv(a, s)
    ensures RecentInv(a, Do(s, step))
  {
    hide Held, BucketOf, Moved, Recent;
    forall v | Recent(a, s, v) ensures Recent(a, Do(s, step), v) {
      RecentStays(a, s, step, v);
    }
    AddedIsRecent(a, s, step);
    NothingIsRecent(a, Do(s, step));
  }

  lemma AddedIsRecent(a: State, s: State, step: Step)
    requires Shape(s) && Enabled(s, step) && |a.values| <= |s.values|
    ensures step.Add? ==> Recent(a, Do(s, step), step.v)
  {
    hide Held, BucketOf, Moved;
    if step.Add? {
      assert Do(s, step).values[|a.values|..] == s.values[|a.values|..] + [step.v];
    }
  }

  lemma NothingIsRecent(a: State, s: State)
    ensures Recent(a, s, 0)
  {
  }

  /**
   A snapshot takes the maximum away: whatever max_us_ or a later snapshot shows has been
   recorded since, or its recorder was still under way then.
   */
  lemma {:induction false} MaximumStartsOver(threads: nat, before: seq<Step>, call: nat, after: seq<Step>)
    requires ValidRun(Initial(threads), before + [TakeMax(call)] + after)
    ensures var a := Run(Initial(threads), before + [TakeMax(call)]);
      RecentInv(a, Run(Initial(threads), before + [TakeMax(call)] + after))
    decreases |after|
  {
    hide Do, Shape, Enabled, RecentInv;
    var start, taken := Initial(threads), before + [TakeMax(call)];
    InitialShape(threads);
    if after == [] {
      assert taken + after == taken;
      LastStep(start, before, TakeMax(call));
      MaximumIsTaken(Run(start, before), call);
    } else {
      var n := |after| - 1;
      assert taken + after == taken + after[..n] + [after[n]];
      LastStep(start, taken + after[..n], after[n]);
      MaximumStartsOver(threads, before, call, after[..n]);
      RecentStep(Run(start, taken), Run(start, taken + after[..n]), after[n]);
    }
  }

  lemma MaximumIsTaken(s: State, call: nat)
    requires Shape(s) && Enabled(s, TakeMax(call))
    ensures var a := Do(s, TakeMax(call));
      RecentInv(a, a) && a.calls[call].max == s.max
  {
    var a := Do(s, TakeMax(call));
    forall t | 0 <= t < |a.recorders| && a.recorders[t] != Resting ensures Recent(a, a, a.recorders[t].v) {
      assert Held(a, a.recorders[t].v);
    }
  }

  lemma {:induction false} MaximumBounds(s: seq<nat>)
    ensures forall v :: v in s ==> v <= Maximum(s)
    ensures s == [] ==> Maximum(s) == 0
    ensures s != [] ==> Maximum(s) in s
  {
    if s != [] {
      MaximumBounds(s[1..]);
      assert s == [s[0]] + s[1..];
    }
  }
}
