/**
 * When a sample falls short, and who is asked again: told by the sizes of the sources, by what each delivered and
 * by what it yields.
 */
module MixedRefill {
  import opened Prelude
  import opened MixedPlan
  import opened MixedSampler

  /** The source says how many tasks it has, and has delivered as many. */
  predicate IsSpent(w: World, t: Tally, i: nat)
    requires WellFormed(w, t) && i < |w.sizes|
  {
    match w.sizes[i]
    case None => false
    case Some(size) => size <= t.delivered[i]
  }

  // ---------------------------------------------------------------------------
  // What is passed on
  // ---------------------------------------------------------------------------

  /** Without an abort a request passes on as many tasks as it asked for, if the source yields them. */
  lemma {:induction false} TakenIsPrefix(w: World, tasks: seq<Task>, asked: int, pulled: nat)
    requires NeverAborted(w) && asked > 0
    ensures Taken(w, tasks, asked, pulled).0 == if asked < |tasks| then tasks[..asked] else tasks
    decreases |tasks|
  {
    if tasks != [] && asked > 1 {
      TakenIsPrefix(w, tasks[1..], asked - 1, pulled + 1);
    }
  }

  lemma DrawnPassesOn(w: World, t: Tally, i: nat, asked: int)
    requires WellFormed(w, t) && NeverAborted(w) && asked > 0 && i < |w.sizes|
    ensures
      var fed, r := w.feed(t.calls, i, asked), Drawn(w, t, i, asked);
      var n := if asked < |fed| then asked else |fed|;
      && r.out == t.out + fed[..n] && r.calls == t.calls + 1 && r.totalDelivered == t.totalDelivered + n
      && r.delivered[i] == t.delivered[i] + n
      && (forall j :: 0 <= j < |w.sizes| && j != i ==> r.delivered[j] == t.delivered[j])
      && |Yield(w, t, i, asked)| == n
  {
    TakenIsPrefix(w, w.feed(t.calls, i, asked), asked, t.pulled);
    hide Taken;
  }

  /** What was delivered only grows. */
  predicate Grown(before: Tally, after: Tally) {
    && |after.delivered| == |before.delivered| && after.calls >= before.calls
    && after.totalDelivered >= before.totalDelivered
    && forall i :: 0 <= i < |before.delivered| ==> after.delivered[i] >= before.delivered[i]
  }

  lemma DrawnGrows(w: World, t: Tally, i: nat, asked: int)
    requires WellFormed(w, t) && i < |w.sizes|
    ensures Grown(t, Drawn(w, t, i, asked))
  {
    hide Taken, Yield;
  }

  lemma {:induction false} RoundGrows(w: World, t: Tally, deficit: int, index: nat)
    requires WellFormed(w, t) && index <= |w.sizes|
    ensures Grown(t, Round(w, t, deficit, index))
    decreases |w.sizes| - index
  {
    hide Drawn, Yield;
    if index < |w.sizes| && deficit > 0 {
      if SourceExhausted(w, t, index) {
        RoundGrows(w, t, deficit, index + 1);
      } else {
        DrawnGrows(w, t, index, deficit);
        RoundGrows(w, Drawn(w, t, index, deficit), deficit - |Yield(w, t, index, deficit)|, index + 1);
      }
    }
  }

  // ---------------------------------------------------------------------------
  // Who is asked
  // ---------------------------------------------------------------------------

  /** The worlds differ at most in what source `i` yields. */
  ghost predicate DifferAt(w: World, v: World, i: nat) {
    && w.sizes == v.sizes && (forall n :: w.aborted(n) <==> v.aborted(n))
    && forall call, j, asked :: j != i ==> w.feed(call, j, asked) == v.feed(call, j, asked)
  }

  lemma {:induction false} TakenAlike(w: World, v: World, i: nat, tasks: seq<Task>, asked: int, pulled: nat)
    requires DifferAt(w, v, i)
    ensures Taken(w, tasks, asked, pulled) == Taken(v, tasks, asked, pulled)
    decreases |tasks|
  {
    if tasks != [] && !w.aborted(pulled) && asked > 1 {
      TakenAlike(w, v, i, tasks[1..], asked - 1, pulled + 1);
    }
  }

  /** A source that has delivered its size is not asked: the round is the same whatever it would yield. */
  lemma {:induction false} SpentIsNotAsked(w: World, v: World, t: Tally, deficit: int, index: nat, i: nat)
    requires WellFormed(w, t) && index <= |w.sizes| && i < |w.sizes| && DifferAt(w, v, i) && IsSpent(w, t, i)
    ensures Round(w, t, deficit, index) == Round(v, t, deficit, index)
    decreases |w.sizes| - index
  {
    hide Taken;
    if index < |w.sizes| && deficit > 0 {
      if SourceExhausted(w, t, index) {
        SpentIsNotAsked(w, v, t, deficit, index + 1, i);
      } else {
        TakenAlike(w, v, i, w.feed(t.calls, index, deficit), deficit, t.pulled);
        hide DifferAt, Yield;
        DrawnGrows(w, t, index, deficit);
        YieldsAlike(w, v, t, index, deficit, i);
        SpentIsNotAsked(w, v, Drawn(w, t, index, deficit), deficit - |Yield(w, t, index, deficit)|, index + 1, i);
      }
    }
  }

  lemma YieldsAlike(w: World, v: World, t: Tally, j: nat, asked: int, i: nat)
    requires DifferAt(w, v, i) && j != i
    ensures Yield(w, t, j, asked) == Yield(v, t, j, asked)
  {
    TakenAlike(w, v, i, w.feed(t.calls, j, asked), asked, t.pulled);
  }

  lemma {:induction false} SpentIsNeverAsked(w: World, v: World, t: Tally, deficit: int, guard: nat, i: nat)
    requires WellFormed(w, t) && i < |w.sizes| && DifferAt(w, v, i) && IsSpent(w, t, i)
    ensures Refilled(w, t, deficit, guard) == Refilled(v, t, deficit, guard)
    decreases |w.sizes| * 2 + 1 - guard
  {
    hide Round;
    if deficit > 0 && guard <= |w.sizes| * 2 {
      SpentIsNotAsked(w, v, t, deficit, 0, i);
      RoundGrows(w, t, deficit, 0);
      var next := Round(w, t, deficit, 0);
      SpentIsNeverAsked(w, v, next, deficit - (next.totalDelivered - t.totalDelivered), guard + 1, i);
    }
  }

  // ---------------------------------------------------------------------------
  // When the sample falls short
  // ---------------------------------------------------------------------------

  /** The source has delivered its size, or was asked for what is missing and yielded nothing. */
  ghost predicate HasNothing(w: World, t: Tally, missing: int, i: nat)
    requires WellFormed(w, t) && i < |w.sizes|
  {
    IsSpent(w, t, i) || exists call: nat :: call < t.calls && w.feed(call, i, missing) == []
  }

  ghost predicate NobodyHasMore(w: World, t: Tally, missing: int)
    requires WellFormed(w, t)
  {
    forall i :: 0 <= i < |w.sizes| ==> HasNothing(w, t, missing, i)
  }

  /** In a round that brings nothing, every source has nothing. */
  lemma {:induction false} RoundOfNothing(w: World, t: Tally, deficit: int, index: nat)
    requires WellFormed(w, t) && index <= |w.sizes| && NeverAborted(w) && deficit > 0
    requires Round(w, t, deficit, index).totalDelivered == t.totalDelivered
    ensures Round(w, t, deficit, index).delivered == t.delivered
    ensures forall i :: index <= i < |w.sizes| ==> HasNothing(w, Round(w, t, deficit, index), deficit, i)
    decreases |w.sizes| - index
  {
    hide Drawn, Yield;
    if index < |w.sizes| {
      if SourceExhausted(w, t, index) {
        RoundOfNothing(w, t, deficit, index + 1);
        assert IsSpent(w, t, index);
      } else {
        DrawnPassesOn(w, t, index, deficit);
        var drawn := Drawn(w, t, index, deficit);
        RoundGrows(w, drawn, deficit - |Yield(w, t, index, deficit)|, index + 1);
        assert w.feed(t.calls, index, deficit) == [];
        assert drawn.delivered == t.delivered;
        RoundOfNothing(w, drawn, deficit, index + 1);
      }
    }
  }

  /** A refill falls short only if no source has anything, or if it brought as many tasks as it may make rounds. */
  lemma {:induction false} RefillFallsShort(w: World, t: Tally, deficit: int, guard: nat)
    requires WellFormed(w, t) && NeverAborted(w) && 1 <= guard
    ensures
      var r := Refilled(w, t, deficit, guard);
      var missing := t.totalDelivered + deficit - r.totalDelivered;
      missing > 0 ==>
        || NobodyHasMore(w, r, missing)
        || r.totalDelivered - t.totalDelivered >= 2 * |w.sizes| - (guard - 1)
    decreases |w.sizes| * 2 + 1 - guard
  {
    hide Round, HasNothing;
    if deficit > 0 && guard <= |w.sizes| * 2 {
      RoundGrows(w, t, deficit, 0);
      var next := Round(w, t, deficit, 0);
      if next.totalDelivered == t.totalDelivered {
        RoundOfNothing(w, t, deficit, 0);
      } else {
        RefillFallsShort(w, next, deficit - (next.totalDelivered - t.totalDelivered), guard + 1);
      }
    }
  }

  /**
   * Without an abort: if a sample is short of the request, then every source has delivered its size or yielded
   * nothing when it was asked for just what is missing, or the refills alone brought two tasks for each source.
   */
  lemma SampleFallsShort(w: World, weights: seq<real>, count: nat)
    requires |weights| == |w.sizes| && Total(weights) > 0.0 && NeverAborted(w)
    ensures
      var counts := Allocation(weights, Total(weights), count);
      var r, first := Sampled(w, counts, count), Allocated(w, Fresh(w), counts, 0);
      |r.out| < count ==>
        || NobodyHasMore(w, r, count - |r.out|)
        || |r.out| - |first.out| >= 2 * |w.sizes|
  {
    AllocationIsFair(weights, count);
    hide Allocation, NobodyHasMore, Total, Sampled, Allocated;
    CountsFallShort(w, Allocation(weights, Total(weights), count), count);
  }

  lemma CountsFallShort(w: World, counts: seq<int>, count: nat)
    requires |counts| == |w.sizes| && NeverAborted(w)
    ensures
      var r, first := Sampled(w, counts, count), Allocated(w, Fresh(w), counts, 0);
      |r.out| < count ==> NobodyHasMore(w, r, count - |r.out|) || |r.out| - |first.out| >= 2 * |w.sizes|
  {
    hide Refilled, NobodyHasMore, Allocated, NeverAborted;
    FreshIsBalanced(w);
    AllocatedIsBounded(w, Fresh(w), counts, 0);
    SampledIsBounded(w, counts, count);
    var first := Allocated(w, Fresh(w), counts, 0);
    RefillFallsShort(w, first, count - first.totalDelivered, 1);
  }

  // ---------------------------------------------------------------------------
  // A source with enough left
  // ---------------------------------------------------------------------------

  /** The source yields what it is asked for, up to its size. */
  ghost predicate YieldsItsSize(w: World, i: nat)
    requires i < |w.sizes|
  {
    forall call, asked :: |w.feed(call, i, asked)| >= UpToSize(w, i, asked)
  }

  function UpToSize(w: World, i: nat, asked: int): int
    requires i < |w.sizes|
  {
    match w.sizes[i]
    case None => asked
    case Some(size) => if asked <= size then asked else size
  }

  /** The source has not delivered its size, and its size is not less than what is missing. */
  predicate HasEnough(w: World, t: Tally, missing: int, i: nat)
    requires WellFormed(w, t) && i < |w.sizes|
  {
    w.sizes[i].Some? ==> t.delivered[i] < w.sizes[i].value && missing <= w.sizes[i].value
  }

  /** Then a round brings all that is missing. */
  lemma {:induction false} EnoughFills(w: World, t: Tally, deficit: int, index: nat, source: nat)
    requires WellFormed(w, t) && index <= source < |w.sizes| && deficit >= 0
    requires NeverAborted(w) && YieldsItsSize(w, source) && HasEnough(w, t, deficit, source)
    ensures Round(w, t, deficit, index).totalDelivered == t.totalDelivered + deficit
    decreases |w.sizes| - index
  {
    hide Yield, Drawn, NeverAborted, YieldsItsSize;
    if deficit > 0 {
      if index == source {
        DrawnPassesOn(w, t, index, deficit);
        EnoughIsYielded(w, t.calls, source, deficit);
        NothingMissing(w, Drawn(w, t, index, deficit), index + 1);
      } else if SourceExhausted(w, t, index) {
        EnoughFills(w, t, deficit, index + 1, source);
      } else {
        DrawnPassesOn(w, t, index, deficit);
        EnoughFills(w, Drawn(w, t, index, deficit), deficit - |Yield(w, t, index, deficit)|, index + 1, source);
      }
    }
  }

  lemma EnoughIsYielded(w: World, call: nat, i: nat, asked: int)
    requires i < |w.sizes| && YieldsItsSize(w, i) && (w.sizes[i].Some? ==> asked <= w.sizes[i].value)
    ensures |w.feed(call, i, asked)| >= asked
  {
    assert |w.feed(call, i, asked)| >= UpToSize(w, i, asked);
  }

  /** A source that yields its size delivers what it is allotted, if that is no more. */
  lemma {:induction false} AllottedIsDelivered(w: World, t: Tally, counts: seq<int>, index: nat, source: nat)
    requires WellFormed(w, t) && |counts| == |w.sizes| && index <= |counts| && source < |counts|
    requires NeverAborted(w) && YieldsItsSize(w, source)
    requires w.sizes[source].Some? ==> counts[source] <= w.sizes[source].value
    ensures Allocated(w, t, counts, index).delivered[source]
      == t.delivered[source] + if index <= source && counts[source] > 0 then counts[source] else 0
    decreases |counts| - index
  {
    hide Yield, Drawn, NeverAborted, YieldsItsSize;
    if index < |counts| {
      if counts[index] <= 0 {
        AllottedIsDelivered(w, t, counts, index + 1, source);
      } else {
        DrawnPassesOn(w, t, index, counts[index]);
        if index == source {
          EnoughIsYielded(w, t.calls, source, counts[source]);
        }
        AllottedIsDelivered(w, Drawn(w, t, index, counts[index]), counts, index + 1, source);
      }
    }
  }

  lemma {:induction false} AllocatedGrows(w: World, t: Tally, counts: seq<int>, index: nat)
    requires WellFormed(w, t) && |counts| == |w.sizes| && index <= |counts|
    ensures Grown(t, Allocated(w, t, counts, index))
    decreases |counts| - index
  {
    hide Drawn;
    if index < |counts| {
      if counts[index] <= 0 {
        AllocatedGrows(w, t, counts, index + 1);
      } else {
        DrawnGrows(w, t, index, counts[index]);
        AllocatedGrows(w, Drawn(w, t, index, counts[index]), counts, index + 1);
      }
    }
  }

  lemma {:induction false} OneIsInSum(counts: seq<int>, i: nat)
    requires i < |counts| && forall j :: 0 <= j < |counts| ==> counts[j] >= 0
    ensures 0 <= counts[i] <= Sum(counts)
  {
    var n := |counts| - 1;
    if i < n {
      OneIsInSum(counts[..n], i);
    } else {
      SumIsNotNegative(counts[..n]);
    }
  }

  lemma {:induction false} SumIsNotNegative(counts: seq<int>)
    requires forall j :: 0 <= j < |counts| ==> counts[j] >= 0
    ensures Sum(counts) >= 0
  {
    if counts != [] {
      SumIsNotNegative(counts[..|counts| - 1]);
    }
  }

  /** What is missing after the allocation is at most what is not allotted to the source. */
  lemma MissingIsLess(w: World, counts: seq<int>, count: nat, source: nat)
    requires |counts| == |w.sizes| && source < |counts| && NeverAborted(w) && YieldsItsSize(w, source)
    requires counts[source] >= 0 && (w.sizes[source].Some? ==> counts[source] <= w.sizes[source].value)
    ensures
      var first := Allocated(w, Fresh(w), counts, 0);
      first.delivered[source] == counts[source] <= first.totalDelivered && Balanced(first)
  {
    hide Allocated, YieldsItsSize, NeverAborted, Wanted;
    var first := Allocated(w, Fresh(w), counts, 0);
    AllottedIsDelivered(w, Fresh(w), counts, 0, source);
    AllocatedGrows(w, Fresh(w), counts, 0);
    FreshIsBalanced(w);
    AllocatedIsBounded(w, Fresh(w), counts, 0);
    OneIsInSum(first.delivered, source);
  }

  /**
   * Without an abort and for weights that are not negative: one source that yields its size meets the request, if
   * it has more than it is allotted and all that is not allotted to it would fit in it.
   */
  lemma EnoughMeetsRequest(w: World, weights: seq<real>, count: nat, source: nat)
    requires |weights| == |w.sizes| && Total(weights) > 0.0 && NeverAborted(w)
    requires forall i :: 0 <= i < |weights| ==> weights[i] >= 0.0
    requires source < |w.sizes| && YieldsItsSize(w, source)
    requires
      var allotted := Allocation(weights, Total(weights), count)[source];
      w.sizes[source].Some? ==> allotted < w.sizes[source].value && count - allotted <= w.sizes[source].value
    ensures |Sampled(w, Allocation(weights, Total(weights), count), count).out| == count
  {
    var counts := Allocation(weights, Total(weights), count);
    SharesAreNotNegative(weights, count, source);
    hide Allocation, Total, Allocated, Round, NeverAborted, YieldsItsSize, Balanced, Refilled;
    MissingIsLess(w, counts, count, source);
    var first := Allocated(w, Fresh(w), counts, 0);
    RequestIsMet(w, weights, count);
    var deficit := count - first.totalDelivered;
    FirstIsWithin(w, weights, count);
    EnoughFills(w, first, deficit, 0, source);
    FilledAtOnce(w, first, deficit);
  }

  lemma FirstIsWithin(w: World, weights: seq<real>, count: nat)
    requires |weights| == |w.sizes| && Total(weights) > 0.0
    requires forall i :: 0 <= i < |weights| ==> weights[i] >= 0.0
    ensures Allocated(w, Fresh(w), Allocation(weights, Total(weights), count), 0).totalDelivered <= count
  {
    AllocationIsFair(weights, count);
    var counts := Allocation(weights, Total(weights), count);
    forall i | 0 <= i < |counts|
      ensures counts[i] >= 0
    {
      SharesAreNotNegative(weights, count, i);
    }
    hide Allocation, Total, Allocated;
    FreshIsBalanced(w);
    AllocatedIsBounded(w, Fresh(w), counts, 0);
  }

  lemma FilledAtOnce(w: World, t: Tally, deficit: int)
    requires WellFormed(w, t) && Balanced(t) && deficit >= 0 && w.sizes != []
    requires Round(w, t, deficit, 0).totalDelivered == t.totalDelivered + deficit
    ensures |Refilled(w, t, deficit, 1).out| == |t.out| + deficit
  {
    hide Round;
    RoundIsBounded(w, t, deficit, 0);
    if deficit > 0 {
      RefilledIsBounded(w, Round(w, t, deficit, 0), 0, 2);
    }
  }
}
