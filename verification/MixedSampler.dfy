/**
 * Drawing a weighted sample from several sources, and topping it up when sources fall short.
 * What a source yields, and when the signal aborts, is left open.
 */
module MixedSampler {
  import opened Prelude
  import opened MixedPlan

  datatype Task = Task(id: string)

  /**
   * `feed(call, index, asked)` is what source `index` yields to the `call`-th request made, when asked
   * for `asked` tasks; it may be more or fewer. `aborted(n)`: the signal is set when the `n`-th task is
   * pulled.
   */
  datatype World = World(feed: (nat, nat, int) -> seq<Task>, aborted: nat -> bool, sizes: seq<Option<nat>>)

  /** What was emitted, how many came from each source and in all, and how often sources were called. */
  datatype Tally = Tally(out: seq<Task>, delivered: seq<int>, totalDelivered: int, calls: nat, pulled: nat)

  predicate WellFormed(w: World, t: Tally) {
    |t.delivered| == |w.sizes|
  }

  /** The tasks passed on from `tasks`, and how many were pulled to do so. */
  function Taken(w: World, tasks: seq<Task>, asked: int, pulled: nat): (r: (seq<Task>, nat))
    ensures r.0 <= tasks && (asked > 0 ==> |r.0| <= asked)
    decreases |tasks|
  {
    if tasks == [] then ([], pulled)
    else if w.aborted(pulled) then ([], pulled + 1)
    else if asked <= 1 then ([tasks[0]], pulled + 1)
    else
      var rest := Taken(w, tasks[1..], asked - 1, pulled + 1);
      ([tasks[0]] + rest.0, rest.1)
  }

  lemma TakenStep(w: World, tasks: seq<Task>, asked: int, pulled: nat)
    ensures tasks == [] ==> Taken(w, tasks, asked, pulled) == ([], pulled)
    ensures tasks != [] && w.aborted(pulled) ==> Taken(w, tasks, asked, pulled) == ([], pulled + 1)
    ensures tasks != [] && !w.aborted(pulled) ==>
      var r, rest := Taken(w, tasks, asked, pulled), Taken(w, tasks[1..], asked - 1, pulled + 1);
      && r.0 != [] && r.0[0] == tasks[0]
      && (asked <= 1 ==> |r.0| == 1 && r.1 == pulled + 1)
      && (asked > 1 ==> rest == (r.0[1..], r.1))
  {
  }

  /** The tasks that a request passes on. */
  function Yield(w: World, t: Tally, index: nat, asked: int): (tasks: seq<Task>)
    ensures tasks <= w.feed(t.calls, index, asked) && (asked > 0 ==> |tasks| <= asked)
  {
    Taken(w, w.feed(t.calls, index, asked), asked, t.pulled).0
  }

  /** One request to one source, recorded. */
  function Drawn(w: World, t: Tally, index: nat, asked: int): (r: Tally)
    requires WellFormed(w, t) && index < |w.sizes|
    ensures WellFormed(w, r)
  {
    var emitted := |Yield(w, t, index, asked)|;
    Tally(t.out + Yield(w, t, index, asked), t.delivered[index := t.delivered[index] + emitted],
          t.totalDelivered + emitted, t.calls + 1, Taken(w, w.feed(t.calls, index, asked), asked, t.pulled).1)
  }

  /** Every source from `index` on is asked for its count. */
  function Allocated(w: World, t: Tally, counts: seq<int>, index: nat): (r: Tally)
    requires WellFormed(w, t) && |counts| == |w.sizes| && index <= |counts|
    ensures WellFormed(w, r)
    decreases |counts| - index
  {
    if index == |counts| then t
    else if counts[index] <= 0 then Allocated(w, t, counts, index + 1)
    else Allocated(w, Drawn(w, t, index, counts[index]), counts, index + 1)
  }

  predicate SourceExhausted(w: World, t: Tally, index: nat)
    requires WellFormed(w, t) && index < |w.sizes|
  {
    w.sizes[index].Some? && t.delivered[index] >= w.sizes[index].value
  }

  /** The sources from `index` on are asked in turn for what is still missing. */
  function Round(w: World, t: Tally, deficit: int, index: nat): (r: Tally)
    requires WellFormed(w, t) && index <= |w.sizes|
    ensures WellFormed(w, r)
    decreases |w.sizes| - index
  {
    if index == |w.sizes| || deficit <= 0 then t
    else if SourceExhausted(w, t, index) then Round(w, t, deficit, index + 1)
    else Round(w, Drawn(w, t, index, deficit), deficit - |Yield(w, t, index, deficit)|, index + 1)
  }

  /** Rounds until nothing is missing, a round brings nothing, or the guard ends them. */
  function Refilled(w: World, t: Tally, deficit: int, guard: nat): (r: Tally)
    requires WellFormed(w, t)
    ensures WellFormed(w, r)
    decreases |w.sizes| * 2 + 1 - guard
  {
    if deficit <= 0 || guard > |w.sizes| * 2 then t
    else
      var next := Round(w, t, deficit, 0);
      var emitted := next.totalDelivered - t.totalDelivered;
      if emitted == 0 then next else Refilled(w, next, deficit - emitted, guard + 1)
  }

  function Fresh(w: World): (t: Tally)
    ensures WellFormed(w, t)
  {
    Tally([], seq(|w.sizes|, i => 0), 0, 0, 0)
  }

  /** The whole sample. */
  function Sampled(w: World, counts: seq<int>, count: nat): (r: Tally)
    requires |counts| == |w.sizes|
    ensures WellFormed(w, r)
  {
    var first := Allocated(w, Fresh(w), counts, 0);
    Refilled(w, first, count - first.totalDelivered, 1)
  }

  // ---------------------------------------------------------------------------
  // The generators
  // ---------------------------------------------------------------------------

  class MixedSampleState {
    const world: World
    var out: seq<Task>
    const delivered: array<int>
    var totalDelivered: int
    var calls: nat
    var pulled: nat

    ghost predicate Valid()
      reads this, delivered
    {
      WellFormed(world, State())
    }

    ghost function State(): Tally
      reads this, delivered
    {
      Tally(out, delivered[..], totalDelivered, calls, pulled)
    }

    constructor (w: World)
      ensures Valid() && fresh(delivered) && world == w && State() == Fresh(w)
    {
      world, out, totalDelivered, calls, pulled := w, [], 0, 0, 0;
      delivered := new int[|w.sizes|](i => 0);
    }

    method SampleSlot(index: nat, count: int) returns (emitted: int)
      modifies this`out, this`calls, this`pulled
      ensures out == old(out) + Yield(world, old(State()), index, count)
      ensures emitted == |Yield(world, old(State()), index, count)|
      ensures calls == old(calls) + 1
      ensures pulled == Taken(world, world.feed(old(calls), index, count), count, old(pulled)).1
    {
      hide Taken;
      var tasks := world.feed(calls, index, count);
      calls := calls + 1;
      emitted := 0;
      ghost var all := Taken(world, tasks, count, pulled);
      for k := 0 to |tasks|
        invariant emitted == k && (k > 0 ==> k < count)
        invariant calls == old(calls) + 1
        invariant k <= |all.0| && out == old(out) + all.0[..k]
        invariant Taken(world, tasks[k..], count - k, pulled) == (all.0[k..], all.1)
      {
        TakenStep(world, tasks[k..], count - k, pulled);
        assert tasks[k..][1..] == tasks[k + 1..];
        pulled := pulled + 1;
        if world.aborted(pulled - 1) {
          return;
        }
        out := out + [tasks[k]];
        emitted := emitted + 1;
        if emitted >= count {
          return;
        }
      }
      TakenStep(world, tasks[|tasks|..], count - |tasks|, pulled);
    }

    method RecordDelivered(index: nat, count: int)
      requires index < delivered.Length
      modifies this`totalDelivered, delivered
      ensures delivered[..] == old(delivered[..])[index := old(delivered[index]) + count]
      ensures totalDelivered == old(totalDelivered) + count
    {
      delivered[index] := delivered[index] + count;
      totalDelivered := totalDelivered + count;
    }

    method SampleAllocated(counts: seq<int>)
      requires Valid() && |counts| == |world.sizes|
      modifies this, delivered
      ensures Valid() && State() == Allocated(world, old(State()), counts, 0)
    {
      for index := 0 to |counts|
        invariant Valid()
        invariant Allocated(world, State(), counts, index) == Allocated(world, old(State()), counts, 0)
      {
        if counts[index] > 0 {
          var emitted := SampleSlot(index, counts[index]);
          RecordDelivered(index, emitted);
        }
      }
    }

    method RefillRound(deficit: int) returns (total: int)
      requires Valid()
      modifies this, delivered
      ensures Valid() && State() == Round(world, old(State()), deficit, 0)
      ensures total == totalDelivered - old(totalDelivered)
    {
      hide Taken, Yield;
      total := 0;
      for index := 0 to |world.sizes|
        invariant Valid() && total == totalDelivered - old(totalDelivered)
        invariant Round(world, State(), deficit - total, index) == Round(world, old(State()), deficit, 0)
      {
        if deficit <= total {
          break;
        }
        if !SourceExhausted(world, Tally(out, delivered[..], totalDelivered, calls, pulled), index) {
          var emitted := SampleSlot(index, deficit - total);
          RecordDelivered(index, emitted);
          total := total + emitted;
        }
      }
    }

    method RefillDeficit(count: nat)
      requires Valid()
      modifies this, delivered
      ensures Valid() && State() == Refilled(world, old(State()), count - old(totalDelivered), 1)
    {
      var deficit, guard := count - totalDelivered, 1;
      while deficit > 0 && guard <= |world.sizes| * 2
        invariant Valid() && 1 <= guard
        invariant Refilled(world, State(), deficit, guard)
          == Refilled(world, old(State()), count - old(totalDelivered), 1)
        decreases |world.sizes| * 2 + 1 - guard
      {
        var emitted := RefillRound(deficit);
        if emitted == 0 {
          break;
        }
        deficit := deficit - emitted;
        guard := guard + 1;
      }
    }
  }

  method SampleMixedTasks(w: World, weights: seq<real>, totalWeight: real, count: nat) returns (out: seq<Task>)
    requires |weights| == |w.sizes| && totalWeight > 0.0
    ensures out == Sampled(w, Allocation(weights, totalWeight, count), count).out
  {
    hide Allocated, Refilled, Distributed, FractionalRemainders;
    var counts := AllocateMixedCounts(weights, totalWeight, count);
    var state := new MixedSampleState(w);
    state.SampleAllocated(counts[..]);
    state.RefillDeficit(count);
    out := state.out;
  }

  // ---------------------------------------------------------------------------
  // Nothing is lost, and no more than the request is emitted
  // ---------------------------------------------------------------------------

  /** The tallies agree with what was emitted. */
  predicate Balanced(t: Tally) {
    |t.out| == t.totalDelivered == Sum(t.delivered)
  }

  lemma DrawnKeepsBalance(w: World, t: Tally, index: nat, asked: int)
    requires WellFormed(w, t) && Balanced(t) && index < |w.sizes|
    ensures Balanced(Drawn(w, t, index, asked))
  {
    hide Taken;
    SumOfUpdate(t.delivered, index, t.delivered[index] + |Yield(w, t, index, asked)|);
  }

  /** What the counts ask for: the negative ones ask for nothing. */
  function Wanted(counts: seq<int>): (n: int)
    ensures n >= 0 && n >= Sum(counts)
    ensures n == Sum(counts) <==> forall i :: 0 <= i < |counts| ==> counts[i] >= 0
  {
    if counts == [] then 0
    else
      var last := counts[|counts| - 1];
      var front := counts[..|counts| - 1];
      assert forall i :: 0 <= i < |front| ==> front[i] == counts[i];
      Wanted(front) + if last > 0 then last else 0
  }

  lemma WantedSoFar(counts: seq<int>, index: nat)
    requires index < |counts|
    ensures Wanted(counts[..index + 1]) == Wanted(counts[..index]) + if counts[index] > 0 then counts[index] else 0
  {
    assert counts[..index + 1][..index] == counts[..index];
  }

  lemma {:induction false} AllocatedIsBounded(w: World, t: Tally, counts: seq<int>, index: nat)
    requires WellFormed(w, t) && |counts| == |w.sizes| && index <= |counts| && Balanced(t)
    ensures var r := Allocated(w, t, counts, index);
      Balanced(r) && |r.out| <= |t.out| + Wanted(counts) - Wanted(counts[..index])
    decreases |counts| - index
  {
    hide Balanced, Wanted;
    if index == |counts| {
      assert counts[..index] == counts;
    } else {
      WantedSoFar(counts, index);
      if counts[index] <= 0 {
        AllocatedIsBounded(w, t, counts, index + 1);
      } else {
        DrawnKeepsBalance(w, t, index, counts[index]);
        AllocatedIsBounded(w, Drawn(w, t, index, counts[index]), counts, index + 1);
      }
    }
  }

  lemma {:induction false} RoundIsBounded(w: World, t: Tally, deficit: int, index: nat)
    requires WellFormed(w, t) && index <= |w.sizes| && Balanced(t) && deficit >= 0
    ensures var r := Round(w, t, deficit, index);
      Balanced(r) && |t.out| <= |r.out| <= |t.out| + deficit
    decreases |w.sizes| - index
  {
    hide Balanced;
    if index < |w.sizes| && deficit > 0 {
      if SourceExhausted(w, t, index) {
        RoundIsBounded(w, t, deficit, index + 1);
      } else {
        DrawnKeepsBalance(w, t, index, deficit);
        RoundIsBounded(w, Drawn(w, t, index, deficit), deficit - |Yield(w, t, index, deficit)|, index + 1);
      }
    }
  }

  lemma {:induction false} RefilledIsBounded(w: World, t: Tally, deficit: int, guard: nat)
    requires WellFormed(w, t) && Balanced(t)
    ensures var r := Refilled(w, t, deficit, guard);
      Balanced(r) && |t.out| <= |r.out| && (deficit >= 0 ==> |r.out| <= |t.out| + deficit)
    ensures deficit <= 0 ==> Refilled(w, t, deficit, guard) == t
    decreases |w.sizes| * 2 + 1 - guard
  {
    if deficit > 0 && guard <= |w.sizes| * 2 {
      RoundIsBounded(w, t, deficit, 0);
      var next := Round(w, t, deficit, 0);
      RefilledIsBounded(w, next, deficit - (next.totalDelivered - t.totalDelivered), guard + 1);
    }
  }

  lemma {:induction false} FreshIsBalanced(w: World)
    ensures Balanced(Fresh(w))
  {
    Zeroes(|w.sizes|);
  }

  lemma {:induction false} Zeroes(n: nat)
    ensures Sum(seq(n, i => 0)) == 0
  {
    if n > 0 {
      assert seq(n, i => 0)[..n - 1] == seq(n - 1, i => 0);
      Zeroes(n - 1);
    }
  }

  /** Every emitted task is counted for exactly one source; the emission is bounded by what is wanted. */
  lemma SampledIsBounded(w: World, counts: seq<int>, count: nat)
    requires |counts| == |w.sizes|
    ensures var r := Sampled(w, counts, count);
      Balanced(r) && |r.out| <= if Wanted(counts) > count then Wanted(counts) else count
  {
    hide Allocated, Refilled;
    FreshIsBalanced(w);
    AllocatedIsBounded(w, Fresh(w), counts, 0);
    var first := Allocated(w, Fresh(w), counts, 0);
    RefilledIsBounded(w, first, count - first.totalDelivered, 1);
  }

  // ---------------------------------------------------------------------------
  // Sources that deliver
  // ---------------------------------------------------------------------------

  ghost predicate NeverAborted(w: World) {
    forall n :: !w.aborted(n)
  }

  /** The source yields at least what it is asked for, every time. */
  ghost predicate Delivers(w: World, index: nat) {
    forall call, asked :: |w.feed(call, index, asked)| >= asked
  }

  lemma {:induction false} TakesAll(w: World, tasks: seq<Task>, asked: int, pulled: nat)
    requires NeverAborted(w) && 0 < asked <= |tasks|
    ensures |Taken(w, tasks, asked, pulled).0| == asked
    decreases asked
  {
    if asked > 1 {
      TakesAll(w, tasks[1..], asked - 1, pulled + 1);
    }
  }

  lemma YieldsAll(w: World, t: Tally, index: nat, asked: int)
    requires NeverAborted(w) && Delivers(w, index) && asked > 0
    ensures |Yield(w, t, index, asked)| == asked
  {
    TakesAll(w, w.feed(t.calls, index, asked), asked, t.pulled);
  }

  /** One unsized source that delivers is enough for a round to bring all that is missing. */
  lemma {:induction false} RoundFills(w: World, t: Tally, deficit: int, index: nat, source: nat)
    requires WellFormed(w, t) && index <= source < |w.sizes| && deficit >= 0
    requires NeverAborted(w) && Delivers(w, source) && w.sizes[source].None?
    ensures Round(w, t, deficit, index).totalDelivered == t.totalDelivered + deficit
    decreases |w.sizes| - index
  {
    hide Taken, NeverAborted, Delivers, Yield;
    if deficit > 0 {
      var emitted := |Yield(w, t, index, deficit)|;
      if index == source {
        YieldsAll(w, t, index, deficit);
        NothingMissing(w, Drawn(w, t, index, deficit), index + 1);
      } else if SourceExhausted(w, t, index) {
        RoundFills(w, t, deficit, index + 1, source);
      } else {
        RoundFills(w, Drawn(w, t, index, deficit), deficit - emitted, index + 1, source);
      }
    }
  }

  lemma NothingMissing(w: World, t: Tally, index: nat)
    requires WellFormed(w, t) && index <= |w.sizes|
    ensures Round(w, t, 0, index) == t
  {
  }

  /** With such a source the request is met exactly. */
  lemma SampledMeetsRequest(w: World, counts: seq<int>, count: nat, source: nat)
    requires |counts| == |w.sizes| && source < |w.sizes| && Wanted(counts) <= count
    requires NeverAborted(w) && Delivers(w, source) && w.sizes[source].None?
    ensures |Sampled(w, counts, count).out| == count
  {
    hide Allocated, Round, NeverAborted, Delivers, Balanced;
    var first := Allocated(w, Fresh(w), counts, 0);
    FreshIsBalanced(w);
    AllocatedIsBounded(w, Fresh(w), counts, 0);
    CountedExactly(first);
    var deficit := count - first.totalDelivered;
    RoundFills(w, first, deficit, 0, source);
    RoundIsBounded(w, first, deficit, 0);
    CountedExactly(Round(w, first, deficit, 0));
    if deficit > 0 {
      RefilledIsBounded(w, Round(w, first, deficit, 0), 0, 2);
    }
  }

  lemma CountedExactly(t: Tally)
    requires Balanced(t)
    ensures |t.out| == t.totalDelivered
  {
  }

  /** Sources that all deliver are each drawn from as often as their count says. */
  lemma {:induction false} AllocatedDelivers(w: World, t: Tally, counts: seq<int>, index: nat)
    requires WellFormed(w, t) && |counts| == |w.sizes| && index <= |counts|
    requires NeverAborted(w) && forall i: nat :: i < |w.sizes| ==> Delivers(w, i)
    ensures var r := Allocated(w, t, counts, index);
      && (forall i :: 0 <= i < index ==> r.delivered[i] == t.delivered[i])
      && (forall i :: index <= i < |counts| ==>
            r.delivered[i] == t.delivered[i] + if counts[i] > 0 then counts[i] else 0)
      && |r.out| == |t.out| + Wanted(counts) - Wanted(counts[..index])
    decreases |counts| - index
  {
    hide Taken, NeverAborted, Delivers, Yield, Wanted;
    if index == |counts| {
      assert counts[..index] == counts;
    } else {
      WantedSoFar(counts, index);
      if counts[index] <= 0 {
        AllocatedDelivers(w, t, counts, index + 1);
      } else {
        YieldsAll(w, t, index, counts[index]);
        AllocatedDelivers(w, Drawn(w, t, index, counts[index]), counts, index + 1);
      }
    }
  }

  /** Then no refill takes place: the sample is the allocated mix, without the negative counts. */
  lemma SampledIsTheMix(w: World, counts: seq<int>, count: nat)
    requires |counts| == |w.sizes| && Sum(counts) == count
    requires NeverAborted(w) && forall i: nat :: i < |w.sizes| ==> Delivers(w, i)
    ensures var r := Sampled(w, counts, count);
      && |r.out| == Wanted(counts)
      && forall i :: 0 <= i < |counts| ==> r.delivered[i] == if counts[i] > 0 then counts[i] else 0
  {
    hide Allocated, Refilled, NeverAborted, Delivers;
    FreshIsBalanced(w);
    AllocatedDelivers(w, Fresh(w), counts, 0);
    AllocatedIsBounded(w, Fresh(w), counts, 0);
    var first := Allocated(w, Fresh(w), counts, 0);
    RefilledIsBounded(w, first, count - first.totalDelivered, 1);
  }

  // ---------------------------------------------------------------------------
  // The abort
  // ---------------------------------------------------------------------------

  /** The signal is set from the `n`-th pulled task on. */
  ghost predicate AbortedFrom(w: World, n: nat) {
    forall k :: k >= n ==> w.aborted(k)
  }

  /** No more was emitted than was pulled, and nothing after the abort. */
  predicate StoppedBy(t: Tally, n: nat) {
    |t.out| <= t.pulled && |t.out| <= n
  }

  lemma {:induction false} TakenStops(w: World, tasks: seq<Task>, asked: int, pulled: nat, n: nat)
    requires AbortedFrom(w, n)
    ensures var (taken, after) := Taken(w, tasks, asked, pulled);
      |taken| <= after - pulled && (taken != [] ==> |taken| <= n - pulled)
    decreases |tasks|
  {
    if tasks != [] && !w.aborted(pulled) && asked > 1 {
      TakenStops(w, tasks[1..], asked - 1, pulled + 1, n);
    }
  }

  lemma DrawnStops(w: World, t: Tally, index: nat, asked: int, n: nat)
    requires WellFormed(w, t) && index < |w.sizes| && AbortedFrom(w, n) && StoppedBy(t, n)
    ensures StoppedBy(Drawn(w, t, index, asked), n)
  {
    TakenStops(w, w.feed(t.calls, index, asked), asked, t.pulled, n);
    hide Taken, AbortedFrom;
  }

  lemma {:induction false} AllocatedStops(w: World, t: Tally, counts: seq<int>, index: nat, n: nat)
    requires WellFormed(w, t) && |counts| == |w.sizes| && index <= |counts| && AbortedFrom(w, n) && StoppedBy(t, n)
    ensures StoppedBy(Allocated(w, t, counts, index), n)
    decreases |counts| - index
  {
    hide AbortedFrom, StoppedBy, Drawn;
    if index < |counts| {
      if counts[index] <= 0 {
        AllocatedStops(w, t, counts, index + 1, n);
      } else {
        DrawnStops(w, t, index, counts[index], n);
        AllocatedStops(w, Drawn(w, t, index, counts[index]), counts, index + 1, n);
      }
    }
  }

  lemma {:induction false} RoundStops(w: World, t: Tally, deficit: int, index: nat, n: nat)
    requires WellFormed(w, t) && index <= |w.sizes| && AbortedFrom(w, n) && StoppedBy(t, n)
    ensures StoppedBy(Round(w, t, deficit, index), n)
    decreases |w.sizes| - index
  {
    hide AbortedFrom, StoppedBy, Drawn, Yield;
    if index < |w.sizes| && deficit > 0 {
      if SourceExhausted(w, t, index) {
        RoundStops(w, t, deficit, index + 1, n);
      } else {
        DrawnStops(w, t, index, deficit, n);
        RoundStops(w, Drawn(w, t, index, deficit), deficit - |Yield(w, t, index, deficit)|, index + 1, n);
      }
    }
  }

  lemma {:induction false} RefilledStops(w: World, t: Tally, deficit: int, guard: nat, n: nat)
    requires WellFormed(w, t) && AbortedFrom(w, n) && StoppedBy(t, n)
    ensures StoppedBy(Refilled(w, t, deficit, guard), n)
    decreases |w.sizes| * 2 + 1 - guard
  {
    hide AbortedFrom, StoppedBy, Round;
    if deficit > 0 && guard <= |w.sizes| * 2 {
      RoundStops(w, t, deficit, 0, n);
      var next := Round(w, t, deficit, 0);
      RefilledStops(w, next, deficit - (next.totalDelivered - t.totalDelivered), guard + 1, n);
    }
  }

  /** Once the signal is set, nothing more is emitted, whatever the sources still yield. */
  lemma AbortEndsSample(w: World, counts: seq<int>, count: nat, n: nat)
    requires |counts| == |w.sizes| && AbortedFrom(w, n)
    ensures |Sampled(w, counts, count).out| <= n
  {
    hide AbortedFrom, Allocated, Refilled;
    AllocatedStops(w, Fresh(w), counts, 0, n);
    var first := Allocated(w, Fresh(w), counts, 0);
    RefilledStops(w, first, count - first.totalDelivered, 1, n);
  }

  // ---------------------------------------------------------------------------
  // The request
  // ---------------------------------------------------------------------------

  /** Sources of the given sizes that always yield exactly what they are asked for. */
  function Generous(sizes: seq<Option<nat>>): World {
    World((call, index, asked) => if asked > 0 then seq(asked, i => Task("")) else [], n => false, sizes)
  }

  /** No sample exceeds the request, whatever the sources do, if and only if no count is negative. */
  lemma CountsNeverExceedIff(sizes: seq<Option<nat>>, counts: seq<int>, count: nat)
    requires |counts| == |sizes| && Sum(counts) == count
    ensures (forall w: World :: w.sizes == sizes ==> |Sampled(w, counts, count).out| <= count)
      <==> forall i :: 0 <= i < |counts| ==> counts[i] >= 0
  {
    hide Sampled, Wanted;
    if Wanted(counts) == count {
      forall w: World | w.sizes == sizes
        ensures |Sampled(w, counts, count).out| <= count
      {
        SampledIsBounded(w, counts, count);
      }
    } else {
      SampledIsTheMix(Generous(sizes), counts, count);
      assert |Sampled(Generous(sizes), counts, count).out| > count;
    }
  }

  /** A negative weight has a share of at most minus one once enough is requested. */
  lemma NegativeShare(weight: real, totalWeight: real) returns (count: nat)
    requires totalWeight > 0.0 && weight < 0.0
    ensures Share(weight, totalWeight, count) <= -1.0
  {
    var part := weight / totalWeight;
    assert part < 0.0;
    var needed := 1.0 / -part;
    assert needed * -part == 1.0;
    count := needed.Floor + 1;
    LargerProduct(needed, count as real, -part);
    assert part * (count as real) == -((count as real) * -part);
  }

  lemma LargerProduct(a: real, b: real, c: real)
    requires a <= b && c >= 0.0
    ensures a * c <= b * c
  {
  }

  /** Some request is exceeded when the `i`-th weight is negative. */
  lemma NegativeWeightExceeds(sizes: seq<Option<nat>>, weights: seq<real>, i: nat)
    returns (count: nat, w: World)
    requires |weights| == |sizes| && Total(weights) > 0.0 && i < |weights| && weights[i] < 0.0
    ensures w.sizes == sizes && |Sampled(w, Allocation(weights, Total(weights), count), count).out| > count
  {
    count := NegativeShare(weights[i], Total(weights));
    AllocationIsFair(weights, count);
    var counts := Allocation(weights, Total(weights), count);
    assert counts[i] < 0;
    hide Allocation, Share, Total, Sampled;
    CountsNeverExceedIff(sizes, counts, count);
    w :| w.sizes == sizes && |Sampled(w, counts, count).out| > count;
  }

  /** No behaviour of the sources exceeds any request. */
  ghost predicate NeverExceeds(sizes: seq<Option<nat>>, weights: seq<real>)
    requires |weights| == |sizes| && Total(weights) > 0.0
  {
    forall count: nat, w: World :: w.sizes == sizes ==>
      |Sampled(w, Allocation(weights, Total(weights), count), count).out| <= count
  }

  /** That holds of the sources if and only if none of their weights is negative. */
  lemma NeverTooManyIff(sizes: seq<Option<nat>>, weights: seq<real>)
    requires |weights| == |sizes| && Total(weights) > 0.0
    ensures NeverExceeds(sizes, weights) <==> forall i :: 0 <= i < |weights| ==> weights[i] >= 0.0
  {
    hide Allocation, Total, Sampled;
    if i :| 0 <= i < |weights| && weights[i] < 0.0 {
      var count, w := NegativeWeightExceeds(sizes, weights, i);
    } else {
      forall count: nat, w: World | w.sizes == sizes
        ensures |Sampled(w, Allocation(weights, Total(weights), count), count).out| <= count
      {
        RequestIsMet(w, weights, count);
      }
    }
  }

  lemma SharesAreNotNegative(weights: seq<real>, count: nat, i: nat)
    requires Total(weights) > 0.0 && i < |weights| && weights[i] >= 0.0
    ensures Allocation(weights, Total(weights), count)[i] >= 0
  {
    AllocationIsFair(weights, count);
    ShareIsNotNegative(weights[i], Total(weights), count);
    hide Allocation, Share, Total, Sum;
  }

  lemma ShareIsNotNegative(weight: real, totalWeight: real, count: nat)
    requires totalWeight > 0.0 && weight >= 0.0
    ensures Share(weight, totalWeight, count) >= 0.0
  {
    var part := weight / totalWeight;
    assert part * (count as real) >= 0.0;
  }

  /**
   * For weights that are not negative: whatever the sources do, at most the request is emitted; one
   * unsized source that always delivers is enough for exactly the request, if the signal is never set;
   * and if all deliver, each source gives its allocated share.
   */
  lemma RequestIsMet(w: World, weights: seq<real>, count: nat)
    requires |weights| == |w.sizes| && Total(weights) > 0.0
    requires forall i :: 0 <= i < |weights| ==> weights[i] >= 0.0
    ensures var r := Sampled(w, Allocation(weights, Total(weights), count), count);
      && |r.out| <= count
      && (NeverAborted(w) && (exists i: nat :: i < |w.sizes| && w.sizes[i].None? && Delivers(w, i)) ==>
            |r.out| == count)
      && (NeverAborted(w) && (forall i: nat :: i < |w.sizes| ==> Delivers(w, i)) ==>
            r.delivered == Allocation(weights, Total(weights), count))
  {
    AllocationIsFair(weights, count);
    var counts := Allocation(weights, Total(weights), count);
    forall i | 0 <= i < |counts|
      ensures counts[i] >= 0
    {
      SharesAreNotNegative(weights, count, i);
    }
    hide Sampled, Allocation, NeverAborted, Delivers;
    SampledIsBounded(w, counts, count);
    if NeverAborted(w) {
      if i: nat :| i < |w.sizes| && w.sizes[i].None? && Delivers(w, i) {
        SampledMeetsRequest(w, counts, count, i);
      }
      if forall i: nat :: i < |w.sizes| ==> Delivers(w, i) {
        SampledIsTheMix(w, counts, count);
        assert Sampled(w, counts, count).delivered == counts;
      }
    }
  }
}
