/** JavaScript's stable sort, by a numeric key and largest first, and what it guarantees. */
module StableSorting {

  /** Puts `x` behind everything that is not smaller. */
  function Insert<T>(sorted: seq<T>, x: T, key: T -> real): (r: seq<T>)
    ensures |r| == |sorted| + 1
  {
    if sorted == [] || key(sorted[|sorted| - 1]) >= key(x) then sorted + [x]
    else Insert(sorted[..|sorted| - 1], x, key) + [sorted[|sorted| - 1]]
  }

  function Sorted<T>(items: seq<T>, key: T -> real): (r: seq<T>)
    ensures |r| == |items|
  {
    if items == [] then [] else Insert(Sorted(items[..|items| - 1], key), items[|items| - 1], key)
  }

  ghost predicate Descending<T>(s: seq<T>, key: T -> real) {
    forall i, j :: 0 <= i < j < |s| ==> key(s[i]) >= key(s[j])
  }

  /** The elements of one key, in their order. */
  ghost function OfKey<T>(s: seq<T>, key: T -> real, k: real): seq<T> {
    if s == [] then []
    else OfKey(s[..|s| - 1], key, k) + (if key(s[|s| - 1]) == k then [s[|s| - 1]] else [])
  }

  ghost predicate All<T>(s: seq<T>, p: T -> bool) {
    forall i :: 0 <= i < |s| ==> p(s[i])
  }

  lemma SnocKeepsAll<T>(s: seq<T>, last: T, p: T -> bool)
    requires p(last) && All(s, p)
    ensures All(s + [last], p)
  {
    forall i | 0 <= i < |s + [last]|
      ensures p((s + [last])[i])
    {
      if i < |s| {
        assert (s + [last])[i] == s[i];
      }
    }
  }

  /** What holds of all elements holds of all of the longer sequence. */
  lemma {:induction false} InsertKeepsAll<T>(sorted: seq<T>, x: T, key: T -> real, p: T -> bool)
    requires p(x) && All(sorted, p)
    ensures All(Insert(sorted, x, key), p)
  {
    if sorted == [] || key(sorted[|sorted| - 1]) >= key(x) {
      SnocKeepsAll(sorted, x, p);
    } else {
      var front, last := sorted[..|sorted| - 1], sorted[|sorted| - 1];
      assert p(last) && forall i :: 0 <= i < |front| ==> front[i] == sorted[i];
      InsertKeepsAll(front, x, key, p);
      SnocKeepsAll(Insert(front, x, key), last, p);
    }
  }

  lemma SnocKeepsOrder<T>(s: seq<T>, last: T, key: T -> real)
    requires Descending(s, key) && All(s, (y: T) => key(y) >= key(last))
    ensures Descending(s + [last], key)
  {
    var r := s + [last];
    forall i, j | 0 <= i < j < |r|
      ensures key(r[i]) >= key(r[j])
    {
      assert r[i] == s[i];
      if j < |s| {
        assert r[j] == s[j];
      }
    }
  }

  lemma {:induction false} InsertKeepsOrder<T>(sorted: seq<T>, x: T, key: T -> real)
    requires Descending(sorted, key)
    ensures Descending(Insert(sorted, x, key), key)
  {
    if sorted == [] || key(sorted[|sorted| - 1]) >= key(x) {
      SnocKeepsOrder(sorted, x, key);
    } else {
      var front, last := sorted[..|sorted| - 1], sorted[|sorted| - 1];
      InsertKeepsOrder(front, x, key);
      InsertKeepsAll(front, x, key, (y: T) => key(y) >= key(last));
      SnocKeepsOrder(Insert(front, x, key), last, key);
    }
  }

  lemma {:induction false} InsertIsPermutation<T>(sorted: seq<T>, x: T, key: T -> real)
    ensures multiset(Insert(sorted, x, key)) == multiset(sorted) + multiset{x}
  {
    if sorted != [] && key(sorted[|sorted| - 1]) < key(x) {
      var front, last := sorted[..|sorted| - 1], sorted[|sorted| - 1];
      InsertIsPermutation(front, x, key);
      assert sorted == front + [last];
    }
  }

  /** Equal keys keep their order. */
  lemma {:induction false} InsertIsStable<T>(sorted: seq<T>, x: T, key: T -> real, k: real)
    requires Descending(sorted, key)
    ensures OfKey(Insert(sorted, x, key), key, k) == OfKey(sorted, key, k) + (if key(x) == k then [x] else [])
  {
    if sorted == [] || key(sorted[|sorted| - 1]) >= key(x) {
      assert (sorted + [x])[..|sorted|] == sorted;
    } else {
      var front, last := sorted[..|sorted| - 1], sorted[|sorted| - 1];
      InsertIsStable(front, x, key, k);
      var r := Insert(front, x, key);
      assert (r + [last])[..|r|] == r;
      if key(x) == k {
        assert key(last) != k;
      }
    }
  }

  /** Sorted, a rearrangement of the input, and stable. */
  lemma {:induction false} SortedIsStableSort<T>(items: seq<T>, key: T -> real)
    ensures Descending(Sorted(items, key), key)
    ensures multiset(Sorted(items, key)) == multiset(items)
    ensures forall k :: OfKey(Sorted(items, key), key, k) == OfKey(items, key, k)
  {
    if items != [] {
      var front, last := items[..|items| - 1], items[|items| - 1];
      SortedIsStableSort(front, key);
      InsertKeepsOrder(Sorted(front, key), last, key);
      InsertIsPermutation(Sorted(front, key), last, key);
      assert items == front + [last];
      forall k
        ensures OfKey(Sorted(items, key), key, k) == OfKey(items, key, k)
      {
        InsertIsStable(Sorted(front, key), last, key, k);
      }
    }
  }

  /** What is sorted already stays as it is. */
  lemma {:induction false} SortingIsIdempotent<T>(items: seq<T>, key: T -> real)
    requires Descending(items, key)
    ensures Sorted(items, key) == items
  {
    if items != [] {
      var front, last := items[..|items| - 1], items[|items| - 1];
      SortingIsIdempotent(front, key);
      InsertLeast(front, last, key);
      assert items == front + [last];
    }
  }

  lemma InsertLeast<T>(sorted: seq<T>, x: T, key: T -> real)
    requires forall i :: 0 <= i < |sorted| ==> key(sorted[i]) >= key(x)
    ensures Insert(sorted, x, key) == sorted + [x]
  {
  }
}
