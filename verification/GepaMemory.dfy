/**
 * The bounded feedback memory of the GEPA optimiser, and what it remembers of a whole history.
 * Scores are real numbers.
 */
module GepaMemory {
  import opened Prelude
  import opened StableSorting

  datatype Datum = Datum(id: string, score: real)

  function Score(d: Datum): real {
    d.score
  }

  function Penalty(d: Datum): real {
    -d.score
  }

  datatype MemoryState = MemoryState(best: seq<Datum>, worst: seq<Datum>, recentMeans: seq<real>, observations: nat)

  const EMPTY_STATE := MemoryState([], [], [], 0)

  /** The targets in the order in which they were first touched, and what is kept for each. */
  datatype Memory = Memory(order: seq<string>, states: map<string, MemoryState>)

  ghost predicate WellFormed(m: Memory) {
    forall t :: t in m.order <==> t in m.states
  }

  function AtLeastOne(option: Option<int>, default: int): (n: nat)
    ensures n >= 1
  {
    var given := if option.Some? then option.value else default;
    if given > 1 then given else 1
  }

  function Take<T>(s: seq<T>, n: nat): seq<T> {
    if |s| <= n then s else s[..n]
  }

  function LastOf<T>(s: seq<T>, n: nat): seq<T> {
    if |s| <= n then s else s[|s| - n..]
  }

  function SumOfScores(data: seq<Datum>): real {
    if data == [] then 0.0 else SumOfScores(data[..|data| - 1]) + data[|data| - 1].score
  }

  function MeanOf(data: seq<Datum>): (mean: real)
    ensures mean * |data| as real == SumOfScores(data)
  {
    if data == [] then 0.0 else SumOfScores(data) / (|data| as real)
  }

  // ---------------------------------------------------------------------------
  // The operations
  // ---------------------------------------------------------------------------

  function InsertSorted(bucket: seq<Datum>, item: Datum, capacity: nat, key: Datum -> real): seq<Datum> {
    Take(Sorted(bucket + [item], key), capacity)
  }

  /** The items of a batch, one after the other. */
  function InsertAll(bucket: seq<Datum>, data: seq<Datum>, capacity: nat, key: Datum -> real): seq<Datum> {
    if data == [] then bucket
    else InsertSorted(InsertAll(bucket, data[..|data| - 1], capacity, key), data[|data| - 1], capacity, key)
  }

  function Entry(m: Memory, targetId: string): MemoryState {
    if targetId in m.states then m.states[targetId] else EMPTY_STATE
  }

  function Put(m: Memory, targetId: string, state: MemoryState): (r: Memory)
    requires WellFormed(m)
    ensures WellFormed(r)
  {
    Memory(if targetId in m.states then m.order else m.order + [targetId], m.states[targetId := state])
  }

  function Pushed(means: seq<real>, mean: real, limit: nat): seq<real> {
    var pushed := means + [mean];
    if |pushed| > limit then pushed[1..] else pushed
  }

  function AfterBatch(s: MemoryState, data: seq<Datum>, topK: nat, recentLimit: nat): MemoryState {
    MemoryState(InsertAll(s.best, data, topK, Score), InsertAll(s.worst, data, topK, Penalty),
                Pushed(s.recentMeans, MeanOf(data), recentLimit), s.observations + |data|)
  }

  datatype Op =
    | Record(targetId: string, data: seq<Datum>)
    | Summarize(targetId: string)

  /** An operation without effect is an empty batch. */
  predicate Touches(op: Op, targetId: string) {
    op.targetId == targetId && !(op.Record? && op.data == [])
  }

  function After(m: Memory, op: Op, topK: nat, recentLimit: nat): (r: Memory)
    requires WellFormed(m)
    ensures WellFormed(r)
  {
    match op
    case Record(t, data) => if data == [] then m else Put(m, t, AfterBatch(Entry(m, t), data, topK, recentLimit))
    case Summarize(t) => Put(m, t, Entry(m, t))
  }

  class GepaFeedbackMemory {
    var order: seq<string>
    var states: map<string, MemoryState>
    const topK: nat
    const recentLimit: nat

    ghost predicate Valid()
      reads this
    {
      WellFormed(Value())
    }

    ghost function Value(): Memory
      reads this
    {
      Memory(order, states)
    }

    constructor (topK: Option<int>, recentLimit: Option<int>)
      ensures Valid() && Value() == Memory([], map[])
      ensures this.topK == AtLeastOne(topK, 5) && this.recentLimit == AtLeastOne(recentLimit, 20)
      ensures this.topK as int == if topK.None? then 5 else if topK.value < 1 then 1 else topK.value
      ensures this.recentLimit as int ==
        if recentLimit.None? then 20 else if recentLimit.value < 1 then 1 else recentLimit.value
    {
      order, states := [], map[];
      this.topK, this.recentLimit := AtLeastOne(topK, 5), AtLeastOne(recentLimit, 20);
    }

    /** The entry of a target, created when there is none. */
    method State(targetId: string) returns (entry: MemoryState)
      requires Valid()
      modifies this
      ensures Valid() && entry == Entry(old(Value()), targetId) && Value() == Put(old(Value()), targetId, entry)
    {
      if targetId !in states {
        order := order + [targetId];
        states := states[targetId := EMPTY_STATE];
      }
      entry := states[targetId];
      assert states == old(states)[targetId := entry];
    }

    method Record(targetId: string, data: seq<Datum>)
      requires Valid()
      modifies this
      ensures Valid() && Value() == After(old(Value()), Op.Record(targetId, data), topK, recentLimit)
    {
      hide InsertAll, MeanOf;
      if |data| == 0 {
        return;
      }
      var entry := State(targetId);
      var mean := Mean(data);
      entry := entry.(observations := entry.observations + |data|, recentMeans := entry.recentMeans + [mean]);
      if |entry.recentMeans| > recentLimit {
        entry := entry.(recentMeans := entry.recentMeans[1..]);
      }
      entry := InsertBatch(entry, data, topK);
      states := states[targetId := entry];
      assert states == old(states)[targetId := entry];
    }

    method SummarizeTarget(targetId: string) returns (r: MemoryState)
      requires Valid()
      modifies this
      ensures Valid() && r == Entry(old(Value()), targetId)
      ensures Value() == After(old(Value()), Summarize(targetId), topK, recentLimit)
    {
      r := State(targetId);
    }
  }

  method InsertBatch(entry: MemoryState, data: seq<Datum>, topK: nat) returns (r: MemoryState)
    ensures r == entry.(
      best := InsertAll(entry.best, data, topK, Score), worst := InsertAll(entry.worst, data, topK, Penalty))
  {
    hide InsertSorted;
    r := entry;
    for i := 0 to |data|
      invariant r == entry.(
        best := InsertAll(entry.best, data[..i], topK, Score),
        worst := InsertAll(entry.worst, data[..i], topK, Penalty))
    {
      assert data[..i + 1][..i] == data[..i];
      r := r.(best := InsertSorted(r.best, data[i], topK, Score));
      r := r.(worst := InsertSorted(r.worst, data[i], topK, Penalty));
    }
    assert data[..|data|] == data;
  }

  method Mean(data: seq<Datum>) returns (mean: real)
    ensures mean == MeanOf(data)
  {
    if |data| == 0 {
      return 0.0;
    }
    var sum := 0.0;
    for i := 0 to |data|
      invariant sum == SumOfScores(data[..i])
    {
      assert data[..i + 1][..i] == data[..i];
      sum := sum + data[i].score;
    }
    assert data[..|data|] == data;
    mean := sum / (|data| as real);
  }

  // ---------------------------------------------------------------------------
  // Keeping only the first loses nothing
  // ---------------------------------------------------------------------------

  /** Where `Insert` puts an element. */
  function Place<T>(sorted: seq<T>, x: T, key: T -> real): (p: nat)
    ensures p <= |sorted|
  {
    if sorted == [] || key(sorted[|sorted| - 1]) >= key(x) then |sorted| else Place(sorted[..|sorted| - 1], x, key)
  }

  lemma {:induction false} InsertAtPlace<T>(sorted: seq<T>, x: T, key: T -> real)
    ensures var p := Place(sorted, x, key);
      Insert(sorted, x, key) == sorted[..p] + ([x] + sorted[p..])
  {
    if sorted != [] && key(sorted[|sorted| - 1]) < key(x) {
      var front, last := sorted[..|sorted| - 1], sorted[|sorted| - 1];
      InsertAtPlace(front, x, key);
      var p := Place(front, x, key);
      assert sorted[p..] == front[p..] + [last] && front[..p] == sorted[..p];
    }
  }

  /** In a sorted sequence, the place is where the smaller keys start. */
  lemma {:induction false} PlaceSplits<T>(sorted: seq<T>, x: T, key: T -> real, n: nat)
    requires Descending(sorted, key) && n <= |sorted|
    ensures var p := Place(sorted, x, key);
      Place(sorted[..n], x, key) == if p <= n then p else n
  {
    if n < |sorted| {
      var front := sorted[..|sorted| - 1];
      assert front[..n] == sorted[..n];
      if key(sorted[|sorted| - 1]) < key(x) {
        PlaceSplits(front, x, key, n);
      } else if n > 0 {
        assert key(sorted[n - 1]) >= key(sorted[|sorted| - 1]);
      }
    } else {
      assert sorted[..n] == sorted;
    }
  }

  /** The first `k` after an insertion depend only on the first `k` before it. */
  lemma TakeOfInsert<T>(sorted: seq<T>, x: T, key: T -> real, k: nat)
    requires Descending(sorted, key)
    ensures Take(Insert(Take(sorted, k), x, key), k) == Take(Insert(sorted, x, key), k)
  {
    if |sorted| > k {
      var p := Place(sorted, x, key);
      PlaceSplits(sorted, x, key, k);
      InsertAtPlace(sorted, x, key);
      InsertAtPlace(sorted[..k], x, key);
      FirstOfSplice(sorted, x, p, k);
    }
  }

  lemma FirstOfSplice<T>(s: seq<T>, x: T, p: nat, k: nat)
    requires k < |s| && p <= |s|
    ensures var q, short := if p <= k then p else k, s[..k];
      (short[..q] + ([x] + short[q..]))[..k] == (s[..p] + ([x] + s[p..]))[..k]
  {
  }

  lemma TakeKeepsOrder<T>(s: seq<T>, n: nat, key: T -> real)
    requires Descending(s, key)
    ensures Descending(Take(s, n), key)
  {
  }

  /** One insertion keeps the bucket the first `k` of everything seen. */
  lemma InsertKeepsFirst(bucket: seq<Datum>, all: seq<Datum>, x: Datum, k: nat, key: Datum -> real)
    requires bucket == Take(Sorted(all, key), k)
    ensures InsertSorted(bucket, x, k, key) == Take(Sorted(all + [x], key), k)
  {
    hide Insert, Descending;
    SortedIsStableSort(all, key);
    TakeKeepsOrder(Sorted(all, key), k, key);
    SortingIsIdempotent(bucket, key);
    assert (bucket + [x])[..|bucket|] == bucket && (all + [x])[..|all|] == all;
    TakeOfInsert(Sorted(all, key), x, key, k);
  }

  lemma {:induction false} BatchKeepsFirst(
    bucket: seq<Datum>, all: seq<Datum>, data: seq<Datum>, k: nat, key: Datum -> real)
    requires bucket == Take(Sorted(all, key), k)
    ensures InsertAll(bucket, data, k, key) == Take(Sorted(all + data, key), k)
  {
    hide InsertSorted, Sorted, Take;
    if data == [] {
      assert all + data == all;
    } else {
      var front, last := data[..|data| - 1], data[|data| - 1];
      BatchKeepsFirst(bucket, all, front, k, key);
      InsertKeepsFirst(InsertAll(bucket, front, k, key), all + front, last, k, key);
      assert (all + front) + [last] == all + data;
    }
  }

  lemma PushKeepsLast(means: seq<real>, all: seq<real>, mean: real, limit: nat)
    requires limit >= 1 && means == LastOf(all, limit)
    ensures Pushed(means, mean, limit) == LastOf(all + [mean], limit)
  {
  }

  // ---------------------------------------------------------------------------
  // Whole histories
  // ---------------------------------------------------------------------------

  function Run(ops: seq<Op>, topK: nat, recentLimit: nat): (m: Memory)
    ensures WellFormed(m)
  {
    if ops == [] then Memory([], map[])
    else After(Run(ops[..|ops| - 1], topK, recentLimit), ops[|ops| - 1], topK, recentLimit)
  }

  /** Everything ever recorded for a target. */
  function DataOf(ops: seq<Op>, targetId: string): seq<Datum> {
    if ops == [] then []
    else
      var op := ops[|ops| - 1];
      DataOf(ops[..|ops| - 1], targetId) + if op.Record? && op.targetId == targetId then op.data else []
  }

  /** The means of its batches. */
  function MeansOf(ops: seq<Op>, targetId: string): seq<real> {
    if ops == [] then []
    else
      var op := ops[|ops| - 1];
      MeansOf(ops[..|ops| - 1], targetId) +
      if op.Record? && op.targetId == targetId && op.data != [] then [MeanOf(op.data)] else []
  }

  /** What an unbounded memory would answer. */
  function Summary(ops: seq<Op>, targetId: string, topK: nat, recentLimit: nat): MemoryState {
    var data := DataOf(ops, targetId);
    MemoryState(Take(Sorted(data, Score), topK), Take(Sorted(data, Penalty), topK),
                LastOf(MeansOf(ops, targetId), recentLimit), |data|)
  }

  /** After any history, the bounded memory of a target is the summary of everything recorded for it. */
  lemma {:induction false} MemoryRefinesHistory(ops: seq<Op>, targetId: string, topK: nat, recentLimit: nat)
    requires recentLimit >= 1
    ensures Entry(Run(ops, topK, recentLimit), targetId) == Summary(ops, targetId, topK, recentLimit)
  {
    hide InsertAll, Sorted, Take, LastOf, Pushed, MeanOf;
    if ops == [] {
      NothingRecorded(topK, recentLimit);
    } else {
      var before, op := ops[..|ops| - 1], ops[|ops| - 1];
      MemoryRefinesHistory(before, targetId, topK, recentLimit);
      if op.Record? && op.targetId == targetId && op.data != [] {
        var kept, data := Summary(before, targetId, topK, recentLimit), DataOf(before, targetId);
        BatchKeepsFirst(kept.best, data, op.data, topK, Score);
        BatchKeepsFirst(kept.worst, data, op.data, topK, Penalty);
        PushKeepsLast(kept.recentMeans, MeansOf(before, targetId), MeanOf(op.data), recentLimit);
      } else {
        assert DataOf(ops, targetId) == DataOf(before, targetId);
        assert MeansOf(ops, targetId) == MeansOf(before, targetId);
      }
    }
  }

  lemma NothingRecorded(topK: nat, recentLimit: nat)
    ensures Take(Sorted<Datum>([], Score), topK) == [] && Take(Sorted<Datum>([], Penalty), topK) == []
    ensures LastOf<real>([], recentLimit) == []
  {
  }

  /** A target is listed exactly if it was touched. */
  lemma {:induction false} ListedIffTouched(ops: seq<Op>, targetId: string, topK: nat, recentLimit: nat)
    ensures targetId in Run(ops, topK, recentLimit).order <==>
      exists i :: 0 <= i < |ops| && Touches(ops[i], targetId)
  {
    hide AfterBatch;
    if ops != [] {
      var before, op := ops[..|ops| - 1], ops[|ops| - 1];
      ListedIffTouched(before, targetId, topK, recentLimit);
      if Touches(op, targetId) {
        assert Touches(ops[|ops| - 1], targetId);
      } else if i :| 0 <= i < |ops| && Touches(ops[i], targetId) {
        assert Touches(before[i], targetId);
      }
      if i :| 0 <= i < |before| && Touches(before[i], targetId) {
        assert Touches(ops[i], targetId);
      }
    }
  }

  lemma {:induction false} RecordedIffData(ops: seq<Op>, targetId: string)
    ensures DataOf(ops, targetId) != [] <==>
      exists i :: 0 <= i < |ops| && ops[i].Record? && Touches(ops[i], targetId)
  {
    if ops != [] {
      var before, op := ops[..|ops| - 1], ops[|ops| - 1];
      RecordedIffData(before, targetId);
      if op.Record? && Touches(op, targetId) {
        assert ops[|ops| - 1].Record? && Touches(ops[|ops| - 1], targetId);
      } else if i :| 0 <= i < |ops| && ops[i].Record? && Touches(ops[i], targetId) {
        assert before[i].Record? && Touches(before[i], targetId);
      }
      if i :| 0 <= i < |before| && before[i].Record? && Touches(before[i], targetId) {
        assert ops[i].Record? && Touches(ops[i], targetId);
      }
    }
  }

  predicate Observed(ops: seq<Op>, targetId: string) {
    DataOf(ops, targetId) != []
  }

  /**
   * Every observed target is listed. That every listed target has an observation holds exactly if none
   * was summarised that never got a datum.
   */
  lemma ListedAreObservedIff(ops: seq<Op>, topK: nat, recentLimit: nat)
    ensures forall t :: Observed(ops, t) ==> t in Run(ops, topK, recentLimit).order
    ensures (forall t :: t in Run(ops, topK, recentLimit).order ==> Observed(ops, t))
      <==> forall i :: 0 <= i < |ops| && ops[i].Summarize? ==> Observed(ops, ops[i].targetId)
  {
    var listed := Run(ops, topK, recentLimit).order;
    forall t
      ensures Observed(ops, t) ==> t in listed
      ensures t in listed <==> exists i :: 0 <= i < |ops| && Touches(ops[i], t)
    {
      ListedIffTouched(ops, t, topK, recentLimit);
      RecordedIffData(ops, t);
    }
    forall i | 0 <= i < |ops|
      ensures ops[i].Summarize? ==> ops[i].targetId in listed
      ensures ops[i].Record? && Touches(ops[i], ops[i].targetId) ==> Observed(ops, ops[i].targetId)
    {
      RecordedIffData(ops, ops[i].targetId);
      assert ops[i].Summarize? ==> Touches(ops[i], ops[i].targetId);
    }
  }

  /** Targets are listed in the order in which they were first touched: the list only grows at its end. */
  lemma {:induction false} ListedInOrder(ops: seq<Op>, n: nat, topK: nat, recentLimit: nat)
    requires n <= |ops|
    ensures Run(ops[..n], topK, recentLimit).order <= Run(ops, topK, recentLimit).order
  {
    if n == |ops| {
      assert ops[..n] == ops;
    } else {
      var before := ops[..|ops| - 1];
      assert before[..n] == ops[..n];
      ListedInOrder(before, n, topK, recentLimit);
    }
  }

  predicate Distinct(s: seq<string>) {
    forall i, j :: 0 <= i < j < |s| ==> s[i] != s[j]
  }

  /** No target is listed twice. */
  lemma {:induction false} ListedOnce(ops: seq<Op>, topK: nat, recentLimit: nat)
    ensures Distinct(Run(ops, topK, recentLimit).order)
  {
    if ops != [] {
      ListedOnce(ops[..|ops| - 1], topK, recentLimit);
    }
  }

  // ---------------------------------------------------------------------------
  // The best and the worst
  // ---------------------------------------------------------------------------

  predicate FallsInScore(kept: seq<Datum>) {
    forall i, j :: 0 <= i < j < |kept| ==> kept[i].score >= kept[j].score
  }

  predicate RisesInScore(kept: seq<Datum>) {
    forall i, j :: 0 <= i < j < |kept| ==> kept[i].score <= kept[j].score
  }

  /** These are as many of the data as fit, and the rest is in `left`. */
  ghost predicate IsChoice(kept: seq<Datum>, left: seq<Datum>, data: seq<Datum>, limit: nat) {
    && |kept| == (if |data| < limit then |data| else limit)
    && multiset(kept) + multiset(left) == multiset(data)
  }

  /** The first of a sorted sequence and the others. */
  lemma {:induction false} FirstOfSorted(data: seq<Datum>, key: Datum -> real, limit: nat) returns (left: seq<Datum>)
    ensures
      var kept := Take(Sorted(data, key), limit);
      && IsChoice(kept, left, data, limit) && Descending(kept, key)
      && forall i, j :: 0 <= i < |kept| && 0 <= j < |left| ==> key(kept[i]) >= key(left[j])
  {
    SortedIsStableSort(data, key);
    var sorted := Sorted(data, key);
    hide Sorted, OfKey;
    var n := if |data| < limit then |data| else limit;
    left := sorted[n..];
    assert sorted == sorted[..n] + left;
    assert sorted[..|sorted|] == sorted;
  }

  /**
   * After any history, the best are as many as may be kept, from the highest score down, and nothing left out
   * scores higher than any of them; the worst likewise, from the lowest score up.
   */
  lemma {:induction false} BestAndWorstAnswer(ops: seq<Op>, targetId: string, topK: nat, recentLimit: nat)
    returns (belowBest: seq<Datum>, aboveWorst: seq<Datum>)
    requires recentLimit >= 1
    ensures
      var kept, data := Entry(Run(ops, topK, recentLimit), targetId), DataOf(ops, targetId);
      && IsChoice(kept.best, belowBest, data, topK) && FallsInScore(kept.best)
      && (forall i, j :: 0 <= i < |kept.best| && 0 <= j < |belowBest| ==> kept.best[i].score >= belowBest[j].score)
      && IsChoice(kept.worst, aboveWorst, data, topK) && RisesInScore(kept.worst)
      && (forall i, j :: 0 <= i < |kept.worst| && 0 <= j < |aboveWorst| ==>
            kept.worst[i].score <= aboveWorst[j].score)
      && |kept.recentMeans| <= recentLimit && kept.observations == |data|
  {
    MemoryRefinesHistory(ops, targetId, topK, recentLimit);
    var data := DataOf(ops, targetId);
    hide Run, DataOf, Sorted, Take, IsChoice;
    belowBest := FirstOfSorted(data, Score, topK);
    aboveWorst := FirstOfSorted(data, Penalty, topK);
    var best, worst := Take(Sorted(data, Score), topK), Take(Sorted(data, Penalty), topK);
    forall i, j | 0 <= i < |best| && 0 <= j < |belowBest|
      ensures best[i].score >= belowBest[j].score
    {
      assert Score(best[i]) >= Score(belowBest[j]);
    }
    forall i, j | 0 <= i < |worst| && 0 <= j < |aboveWorst|
      ensures worst[i].score <= aboveWorst[j].score
    {
      assert Penalty(worst[i]) >= Penalty(aboveWorst[j]);
    }
    forall i, j | 0 <= i < j < |best|
      ensures best[i].score >= best[j].score
    {
      assert Score(best[i]) >= Score(best[j]);
    }
    forall i, j | 0 <= i < j < |worst|
      ensures worst[i].score <= worst[j].score
    {
      assert Penalty(worst[i]) >= Penalty(worst[j]);
    }
  }
}
