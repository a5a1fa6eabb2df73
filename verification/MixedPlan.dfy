/** Largest-remainder allocation of a sample among weighted sources. Weights are real numbers. */
module MixedPlan {
  import opened StableSorting

  function Sum(s: seq<int>): int {
    if s == [] then 0 else Sum(s[..|s| - 1]) + s[|s| - 1]
  }

  function Total(s: seq<real>): real {
    if s == [] then 0.0 else Total(s[..|s| - 1]) + s[|s| - 1]
  }

  /** The exact share of a source. */
  function Share(weight: real, totalWeight: real, count: nat): real
    requires totalWeight > 0.0
  {
    weight / totalWeight * (count as real)
  }

  function Shares(weights: seq<real>, totalWeight: real, count: nat): (raw: seq<real>)
    requires totalWeight > 0.0
    ensures |raw| == |weights|
    ensures forall i :: 0 <= i < |weights| ==> raw[i] == Share(weights[i], totalWeight, count)
  {
    seq(|weights|, i requires 0 <= i < |weights| => Share(weights[i], totalWeight, count))
  }

  function Floors(raw: seq<real>): (counts: seq<int>)
    ensures |counts| == |raw| && forall i :: 0 <= i < |raw| ==> counts[i] == raw[i].Floor
  {
    seq(|raw|, i requires 0 <= i < |raw| => raw[i].Floor)
  }

  function Frac(x: real): (frac: real)
    ensures 0.0 <= frac < 1.0
  {
    x - x.Floor as real
  }

  datatype Remainder = Remainder(index: nat, frac: real)

  function Remainders(raw: seq<real>): (items: seq<Remainder>)
    ensures |items| == |raw|
    ensures forall i :: 0 <= i < |raw| ==> items[i] == Remainder(i, Frac(raw[i]))
  {
    seq(|raw|, i requires 0 <= i < |raw| => Remainder(i, Frac(raw[i])))
  }

  function ByFrac(r: Remainder): real {
    r.frac
  }

  function FractionalRemainders(raw: seq<real>): seq<Remainder> {
    Sorted(Remainders(raw), ByFrac)
  }

  /** One more for each item in turn, until `count` is reached. */
  function Distributed(counts: seq<int>, items: seq<Remainder>, count: int): (r: seq<int>)
    requires forall i :: 0 <= i < |items| ==> items[i].index < |counts|
    ensures |r| == |counts|
    decreases |items|
  {
    if items == [] || Sum(counts) >= count then counts
    else
      var i := items[0].index;
      Distributed(counts[i := counts[i] + 1], items[1..], count)
  }

  // ---------------------------------------------------------------------------
  // The methods
  // ---------------------------------------------------------------------------

  lemma {:induction false} SumOfUpdate(s: seq<int>, i: nat, x: int)
    requires i < |s|
    ensures Sum(s[i := x]) == Sum(s) - s[i] + x
  {
    var front := s[..|s| - 1];
    if i == |s| - 1 {
      assert s[i := x][..|s| - 1] == front;
    } else {
      SumOfUpdate(front, i, x);
      assert s[i := x][..|s| - 1] == front[i := x];
    }
  }

  method DistributeRemainder(counts: array<int>, items: seq<Remainder>, count: nat)
    requires forall i :: 0 <= i < |items| ==> items[i].index < counts.Length
    modifies counts
    ensures counts[..] == Distributed(old(counts[..]), items, count)
  {
    var given := 0;
    for k := 0 to counts.Length
      invariant given == Sum(counts[..k])
    {
      assert counts[..k + 1][..k] == counts[..k];
      given := given + counts[k];
    }
    assert counts[..counts.Length] == counts[..];
    for k := 0 to |items|
      invariant given == Sum(counts[..])
      invariant Distributed(counts[..], items[k..], count) == Distributed(old(counts[..]), items, count)
    {
      assert items[k..][0] == items[k] && items[k..][1..] == items[k + 1..];
      if given >= count {
        return;
      }
      ghost var before := counts[..];
      var i := items[k].index;
      counts[i] := counts[i] + 1;
      assert counts[..] == before[i := before[i] + 1];
      SumOfUpdate(before, i, before[i] + 1);
      given := given + 1;
    }
  }

  /** The shares of `count`, rounded: what `allocateMixedCounts` returns. */
  function Allocation(weights: seq<real>, totalWeight: real, count: nat): (counts: seq<int>)
    requires totalWeight > 0.0
    ensures |counts| == |weights|
  {
    var raw := Shares(weights, totalWeight, count);
    RemaindersSorted(raw);
    Distributed(Floors(raw), FractionalRemainders(raw), count)
  }

  method AllocateMixedCounts(weights: seq<real>, totalWeight: real, count: nat) returns (counts: array<int>)
    requires totalWeight > 0.0
    ensures fresh(counts) && counts[..] == Allocation(weights, totalWeight, count)
  {
    var raw := Shares(weights, totalWeight, count);
    counts := new int[|weights|](i requires 0 <= i < |weights| => raw[i].Floor);
    assert counts[..] == Floors(raw);
    RemaindersSorted(raw);
    DistributeRemainder(counts, FractionalRemainders(raw), count);
  }

  // ---------------------------------------------------------------------------
  // The remainders in order
  // ---------------------------------------------------------------------------

  predicate IndicesAreDistinct(items: seq<Remainder>) {
    forall i, j :: 0 <= i < j < |items| ==> items[i].index != items[j].index
  }

  function TotalFrac(items: seq<Remainder>): real {
    if items == [] then 0.0 else TotalFrac(items[..|items| - 1]) + items[|items| - 1].frac
  }

  lemma {:induction false} InsertKeepsRemainders(sorted: seq<Remainder>, x: Remainder)
    requires IndicesAreDistinct(sorted)
    requires forall i :: 0 <= i < |sorted| ==> sorted[i].index != x.index
    ensures var r := Insert(sorted, x, ByFrac);
      IndicesAreDistinct(r) && TotalFrac(r) == TotalFrac(sorted) + x.frac
  {
    if sorted == [] || ByFrac(sorted[|sorted| - 1]) >= ByFrac(x) {
      assert (sorted + [x])[..|sorted|] == sorted;
    } else {
      var front, last := sorted[..|sorted| - 1], sorted[|sorted| - 1];
      InsertKeepsRemainders(front, x);
      InsertKeepsAll(front, x, ByFrac, (y: Remainder) => y.index != last.index);
      var r := Insert(front, x, ByFrac);
      assert (r + [last])[..|r|] == r;
    }
  }

  predicate IsRemainder(raw: seq<real>, n: nat, item: Remainder) {
    item.index < n && item.index < |raw| && item.frac == Frac(raw[item.index])
  }

  /** The facts about the sorted remainders that the distribution needs. */
  lemma RemaindersSorted(raw: seq<real>)
    ensures var items := FractionalRemainders(raw);
      && |items| == |raw| && Descending(items, ByFrac) && IndicesAreDistinct(items)
      && (forall i :: 0 <= i < |items| ==> IsRemainder(raw, |raw|, items[i]))
      && TotalFrac(items) == TotalFrac(Remainders(raw))
  {
    SortPrefix(raw, |raw|);
    assert Remainders(raw)[..|raw|] == Remainders(raw);
  }

  lemma {:induction false} SortPrefix(raw: seq<real>, n: nat)
    requires n <= |raw|
    ensures var items := Sorted(Remainders(raw)[..n], ByFrac);
      && Descending(items, ByFrac) && IndicesAreDistinct(items)
      && (forall i :: 0 <= i < |items| ==> IsRemainder(raw, n, items[i]))
      && TotalFrac(items) == TotalFrac(Remainders(raw)[..n])
  {
    hide Insert, Descending, IndicesAreDistinct;
    if n == 0 {
      NoRemainders();
    } else {
      SortPrefix(raw, n - 1);
      var all := Remainders(raw);
      assert all[..n][..n - 1] == all[..n - 1];
      var before := Sorted(all[..n - 1], ByFrac);
      InsertKeepsOrder(before, all[n - 1], ByFrac);
      InsertKeepsRemainders(before, all[n - 1]);
      InsertKeepsAll(before, all[n - 1], ByFrac, (y: Remainder) => IsRemainder(raw, n, y));
    }
  }

  lemma NoRemainders()
    ensures Descending([], ByFrac) && IndicesAreDistinct([]) && TotalFrac([]) == 0.0
  {
  }

  // ---------------------------------------------------------------------------
  // The remainder is what the fractions add up to
  // ---------------------------------------------------------------------------

  lemma {:induction false} FloorsAndFractions(raw: seq<real>)
    ensures Total(raw) == Sum(Floors(raw)) as real + TotalFrac(Remainders(raw))
  {
    if raw != [] {
      var front := raw[..|raw| - 1];
      FloorsAndFractions(front);
      assert Floors(raw)[..|raw| - 1] == Floors(front);
      assert Remainders(raw)[..|raw| - 1] == Remainders(front);
    }
  }

  lemma ScaleShare(weight: real, totalWeight: real, count: nat, scale: real)
    requires totalWeight > 0.0 && scale * totalWeight == count as real
    ensures Share(weight, totalWeight, count) == weight * scale
  {
    var part := weight / totalWeight;
    assert part * totalWeight == weight;
    assert part * (scale * totalWeight) == (part * totalWeight) * scale;
  }

  lemma {:induction false} TotalOfShares(weights: seq<real>, totalWeight: real, count: nat, scale: real)
    requires totalWeight > 0.0 && scale * totalWeight == count as real
    ensures Total(Shares(weights, totalWeight, count)) == Total(weights) * scale
  {
    if weights != [] {
      var front, last := weights[..|weights| - 1], weights[|weights| - 1];
      TotalOfShares(front, totalWeight, count, scale);
      assert Shares(weights, totalWeight, count)[..|front|] == Shares(front, totalWeight, count);
      ScaleShare(last, totalWeight, count, scale);
      assert (Total(front) + last) * scale == Total(front) * scale + last * scale;
    }
  }

  lemma {:induction false} FractionsAreSmall(items: seq<Remainder>, k: nat)
    requires k <= |items|
    requires forall i :: 0 <= i < |items| ==> 0.0 <= items[i].frac < 1.0
    requires forall i :: k <= i < |items| ==> items[i].frac == 0.0
    ensures 0.0 <= TotalFrac(items) <= k as real
    ensures k > 0 ==> TotalFrac(items) < k as real
  {
    if items != [] {
      FractionsAreSmall(items[..|items| - 1], if k == |items| then k - 1 else k);
    }
  }

  lemma NothingBeyondZero(items: seq<Remainder>, k: nat)
    requires forall i :: 0 <= i < |items| ==> 0.0 <= items[i].frac < 1.0
    requires Descending(items, ByFrac) && k < |items| && items[k].frac == 0.0
    ensures TotalFrac(items) <= k as real && (k > 0 ==> TotalFrac(items) < k as real)
  {
    assert forall i :: k <= i < |items| ==> ByFrac(items[k]) >= ByFrac(items[i]);
    FractionsAreSmall(items, k);
  }

  /** What is left over goes to items with a positive fraction. */
  lemma LeftoverIsCovered(items: seq<Remainder>, leftover: int)
    requires forall i :: 0 <= i < |items| ==> 0.0 <= items[i].frac < 1.0
    requires Descending(items, ByFrac) && TotalFrac(items) == leftover as real
    ensures 0 <= leftover <= |items|
    ensures forall i :: 0 <= i < leftover ==> items[i].frac > 0.0
  {
    FractionsAreSmall(items, |items|);
    forall i | 0 <= i < leftover
      ensures items[i].frac > 0.0
    {
      if items[i].frac == 0.0 {
        NothingBeyondZero(items, i);
      }
    }
  }

  ghost predicate Gets(items: seq<Remainder>, n: int, index: nat) {
    exists k :: 0 <= k < n && k < |items| && items[k].index == index
  }

  /** The first items get one each, the others nothing, and the sum is `count`. */
  lemma {:induction false} DistributedExactly(counts: seq<int>, items: seq<Remainder>, count: int)
    requires IndicesAreDistinct(items) && forall i :: 0 <= i < |items| ==> items[i].index < |counts|
    requires Sum(counts) <= count <= Sum(counts) + |items|
    ensures var r := Distributed(counts, items, count);
      Sum(r) == count && |r| == |counts|
    ensures var r := Distributed(counts, items, count);
      forall j :: 0 <= j < |counts| ==> r[j] == counts[j] + if Gets(items, count - Sum(counts), j) then 1 else 0
    decreases |items|
  {
    if items != [] && Sum(counts) < count {
      var i, rest := items[0].index, items[1..];
      var next := counts[i := counts[i] + 1];
      SumOfUpdate(counts, i, counts[i] + 1);
      DistributedExactly(next, rest, count);
      var n := count - Sum(counts);
      forall j | 0 <= j < |counts|
        ensures Gets(items, n, j) <==> j == i || Gets(rest, n - 1, j)
        ensures Gets(rest, n - 1, j) ==> j != i
      {
        if Gets(items, n, j) && j != i {
          var k :| 0 <= k < n && k < |items| && items[k].index == j;
          assert rest[k - 1].index == j;
        }
        if Gets(rest, n - 1, j) {
          var k :| 0 <= k < n - 1 && k < |rest| && rest[k].index == j;
          assert items[k + 1].index == j;
        }
        assert j == i ==> items[0].index == j;
      }
    }
  }

  // ---------------------------------------------------------------------------
  // The allocation
  // ---------------------------------------------------------------------------

  /** A share that is not whole was rounded up. */
  ghost predicate RoundedUp(weights: seq<real>, totalWeight: real, count: nat, i: nat)
    requires totalWeight > 0.0 && i < |weights|
  {
    && Frac(Share(weights[i], totalWeight, count)) > 0.0
    && Allocation(weights, totalWeight, count)[i] == Share(weights[i], totalWeight, count).Floor + 1
  }

  /** How many shares are rounded up. */
  function Leftover(weights: seq<real>, totalWeight: real, count: nat): int
    requires totalWeight > 0.0
  {
    count - Sum(Floors(Shares(weights, totalWeight, count)))
  }

  /** What the fractions add up to is what the floors leave over. */
  lemma LeftoverIsFractions(weights: seq<real>, count: nat)
    requires Total(weights) > 0.0
    ensures var total := Total(weights);
      TotalFrac(Remainders(Shares(weights, total, count))) == Leftover(weights, total, count) as real
  {
    hide Share, Shares, Floors, Remainders;
    var total := Total(weights);
    var scale := ScaleOf(total, count as real);
    TotalOfShares(weights, total, count, scale);
    FloorsAndFractions(Shares(weights, total, count));
  }

  lemma ScaleOf(total: real, count: real) returns (scale: real)
    requires total > 0.0
    ensures scale * total == count && total * scale == count
  {
    scale := count / total;
  }

  /** There are enough remainders for what is left over, and those that get one are not zero. */
  lemma WhatGetsIsPositive(weights: seq<real>, count: nat)
    requires Total(weights) > 0.0
    ensures var total := Total(weights);
      var raw, leftover := Shares(weights, total, count), Leftover(weights, total, count);
      && 0 <= leftover <= |raw|
      && forall i: nat :: i < |raw| && Gets(FractionalRemainders(raw), leftover, i) ==> Frac(raw[i]) > 0.0
  {
    var total := Total(weights);
    var raw, leftover := Shares(weights, total, count), Leftover(weights, total, count);
    var items := FractionalRemainders(raw);
    LeftoverIsFractions(weights, count);
    RemaindersSorted(raw);
    hide FractionalRemainders, Share, Total, TotalFrac, Descending, Leftover;
    LeftoverIsCovered(items, leftover);
    forall i: nat | i < |raw| && Gets(items, leftover, i)
      ensures Frac(raw[i]) > 0.0
    {
      var k :| 0 <= k < leftover && k < |items| && items[k].index == i;
      assert IsRemainder(raw, |raw|, items[k]);
    }
  }

  /** The first of the sorted remainders, and only they, are rounded up; the sum is `count`. */
  lemma AllocationRoundsUpFirst(weights: seq<real>, count: nat)
    requires Total(weights) > 0.0
    ensures Sum(Allocation(weights, Total(weights), count)) == count
    ensures
      var total, r := Total(weights), Allocation(weights, Total(weights), count);
      var items := FractionalRemainders(Shares(weights, total, count));
      forall i: nat :: i < |r| ==>
        if Gets(items, Leftover(weights, total, count), i) then RoundedUp(weights, total, count, i)
        else r[i] == Share(weights[i], total, count).Floor
  {
    var raw := Shares(weights, Total(weights), count);
    RemaindersSorted(raw);
    WhatGetsIsPositive(weights, count);
    hide FractionalRemainders, Distributed, Share, Sum, Frac, Total, TotalFrac, Descending, Gets;
    DistributedExactly(Floors(raw), FractionalRemainders(raw), count);
  }

  lemma RoundedUpIff(weights: seq<real>, count: nat, i: nat)
    requires Total(weights) > 0.0 && i < |weights|
    ensures
      var total, r := Total(weights), Allocation(weights, Total(weights), count);
      var items := FractionalRemainders(Shares(weights, total, count));
      && (RoundedUp(weights, total, count, i) <==> Gets(items, Leftover(weights, total, count), i))
      && (r[i] == Share(weights[i], total, count).Floor || RoundedUp(weights, total, count, i))
  {
    AllocationRoundsUpFirst(weights, count);
    hide Allocation, FractionalRemainders, Leftover, Share, Gets;
  }

  lemma LargestFractionsFirst(weights: seq<real>, count: nat, i: nat, j: nat)
    requires Total(weights) > 0.0 && i < |weights| && j < |weights|
    requires RoundedUp(weights, Total(weights), count, i) && !RoundedUp(weights, Total(weights), count, j)
    ensures Frac(Share(weights[i], Total(weights), count)) >= Frac(Share(weights[j], Total(weights), count))
  {
    RoundedUpIff(weights, count, i);
    RoundedUpIff(weights, count, j);
    var total := Total(weights);
    var raw := Shares(weights, total, count);
    var items, leftover := FractionalRemainders(raw), Leftover(weights, total, count);
    RemaindersSorted(raw);
    hide FractionalRemainders, Allocation, Leftover, Share, Frac, Total, RoundedUp;
    var k :| 0 <= k < leftover && k < |items| && items[k].index == i;
    var l := PositionOf(raw, j);
    assert IsRemainder(raw, |raw|, items[k]);
    assert l < leftover ==> Gets(items, leftover, j);
    assert ByFrac(items[k]) >= ByFrac(items[l]);
  }

  /**
   * The counts add up to the request, each is its exact share rounded down or up (a whole share is
   * itself), and the shares rounded up are those with the largest fractions.
   */
  lemma AllocationIsFair(weights: seq<real>, count: nat)
    requires Total(weights) > 0.0
    ensures var total, r := Total(weights), Allocation(weights, Total(weights), count);
      && Sum(r) == count
      && (forall i: nat :: i < |r| ==>
            r[i] == Share(weights[i], total, count).Floor || RoundedUp(weights, total, count, i))
      && (forall i: nat, j: nat ::
            (i < |r| && j < |r| && RoundedUp(weights, total, count, i) && !RoundedUp(weights, total, count, j)) ==>
            Frac(Share(weights[i], total, count)) >= Frac(Share(weights[j], total, count)))
  {
    AllocationRoundsUpFirst(weights, count);
    hide FractionalRemainders, Allocation, Leftover, Share, Frac, Total, RoundedUp, Sum;
    var total, r := Total(weights), Allocation(weights, Total(weights), count);
    forall i: nat | i < |r|
      ensures r[i] == Share(weights[i], total, count).Floor || RoundedUp(weights, total, count, i)
    {
      RoundedUpIff(weights, count, i);
    }
    forall i: nat, j: nat |
      i < |r| && j < |r| && RoundedUp(weights, total, count, i) && !RoundedUp(weights, total, count, j)
      ensures Frac(Share(weights[i], total, count)) >= Frac(Share(weights[j], total, count))
    {
      LargestFractionsFirst(weights, count, i, j);
    }
  }

  /** Every index has its place among the sorted remainders. */
  lemma PositionOf(raw: seq<real>, j: nat) returns (l: nat)
    requires j < |raw|
    ensures var items := FractionalRemainders(raw);
      l < |items| && items[l].index == j && items[l].frac == Frac(raw[j])
  {
    var all, items := Remainders(raw), FractionalRemainders(raw);
    SortedIsStableSort(all, ByFrac);
    assert all[j] in multiset(all);
    assert all[j] in items;
    l :| 0 <= l < |items| && items[l] == all[j];
  }
}
