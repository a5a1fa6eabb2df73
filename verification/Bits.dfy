/** Bit strings, most significant bit first, and their regrouping into symbols of `k` bits. */
module Bits {
  import opened Prelude

  function Pow2(n: nat): (p: nat)
    ensures p >= 1
  {
    if n == 0 then 1 else 2 * Pow2(n - 1)
  }

  lemma SmallPowers()
    ensures Pow2(0) == 1 && Pow2(1) == 2 && Pow2(2) == 4 && Pow2(3) == 8 && Pow2(4) == 16 && Pow2(5) == 32
    ensures Pow2(6) == 64 && Pow2(7) == 128 && Pow2(8) == 256 && Pow2(9) == 512 && Pow2(10) == 1024
    ensures Pow2(11) == 2048 && Pow2(12) == 4096 && Pow2(13) == 8192
  {
    assert Pow2(5) == 32;
    assert Pow2(10) == 32 * Pow2(5);
  }

  /** The `k` low bits of `v`. */
  function ToBits(v: nat, k: nat): (bits: seq<bool>)
    ensures |bits| == k
  {
    if k == 0 then [] else ToBits(v / 2, k - 1) + [v % 2 == 1]
  }

  /** The number that `bits` denotes. */
  function Val(bits: seq<bool>): nat {
    if bits == [] then 0 else 2 * Val(bits[..|bits| - 1]) + (if bits[|bits| - 1] then 1 else 0)
  }

  lemma {:induction false} ValBound(bits: seq<bool>)
    ensures Val(bits) < Pow2(|bits|)
  {
    if bits != [] {
      ValBound(bits[..|bits| - 1]);
    }
  }

  lemma {:induction false} ValOfToBits(v: nat, k: nat)
    requires v < Pow2(k)
    ensures Val(ToBits(v, k)) == v
  {
    if k > 0 {
      ValOfToBits(v / 2, k - 1);
      var bits := ToBits(v, k);
      assert bits[..|bits| - 1] == ToBits(v / 2, k - 1);
    }
  }

  lemma {:induction false} ToBitsOfVal(bits: seq<bool>)
    ensures ToBits(Val(bits), |bits|) == bits
  {
    if bits != [] {
      var front := bits[..|bits| - 1];
      ToBitsOfVal(front);
      assert bits == front + [bits[|bits| - 1]];
    }
  }

  lemma Twice(x: nat, p: nat)
    ensures x * (2 * p) == 2 * (x * p)
  {
  }

  lemma {:induction false} ValOfConcat(a: seq<bool>, b: seq<bool>)
    ensures Val(a + b) == Val(a) * Pow2(|b|) + Val(b)
  {
    if b == [] {
      assert a + b == a;
    } else {
      var n := |b| - 1;
      var joined := a + b;
      assert joined[..|joined| - 1] == a + b[..n] && joined[|joined| - 1] == b[n];
      var high, power := Val(a), Pow2(n);
      assert Val(a + b[..n]) == high * power + Val(b[..n]) by {
        ValOfConcat(a, b[..n]);
      }
      assert Pow2(|b|) == 2 * power;
      Twice(high, power);
    }
  }

  /** The bits of `values`, `k` for each. */
  function Flatten(values: seq<nat>, k: nat): (bits: seq<bool>)
    ensures |bits| == k * |values|
  {
    if values == [] then []
    else
      assert k * |values| == k + k * |values[1..]|;
      ToBits(values[0], k) + Flatten(values[1..], k)
  }

  /** The numbers that the successive runs of `k` bits denote; a shorter rest is dropped. */
  function Groups(bits: seq<bool>, k: nat): (values: seq<nat>)
    requires k > 0
    ensures k * |values| <= |bits| < k * |values| + k
    ensures forall i :: 0 <= i < |values| ==> values[i] < Pow2(k)
    decreases |bits|
  {
    if |bits| < k then []
    else
      ValBound(bits[..k]);
      var values := [Val(bits[..k])] + Groups(bits[k..], k);
      assert k * |values| == k + k * |values[1..]|;
      values
  }

  /** Whole groups first, a rest shorter than a group last: one more group. */
  lemma {:induction false} GroupsOfNext(done: seq<bool>, q: nat, group: seq<bool>, rest: seq<bool>, k: nat)
    requires k > 0 && |done| == k * q && |group| == k && |rest| < k
    ensures Groups(done + group + rest, k) == Groups(done, k) + [Val(group)]
    decreases q
  {
    var bits := done + group + rest;
    if q == 0 {
      assert bits[..k] == group && bits[k..] == rest;
    } else {
      assert k * q == k + k * (q - 1);
      assert 0 <= k * (q - 1);
      assert bits[..k] == done[..k] && bits[k..] == done[k..] + group + rest;
      GroupsOfNext(done[k..], q - 1, group, rest, k);
    }
  }

  /** Regrouping what was flattened gives it back, whatever shorter rest follows. */
  lemma {:induction false} GroupsOfFlatten(values: seq<nat>, rest: seq<bool>, k: nat)
    requires k > 0 && |rest| < k
    requires forall i :: 0 <= i < |values| ==> values[i] < Pow2(k)
    ensures Groups(Flatten(values, k) + rest, k) == values
  {
    var bits := Flatten(values, k) + rest;
    if values != [] {
      var first := ToBits(values[0], k);
      assert bits[..k] == first && bits[k..] == Flatten(values[1..], k) + rest;
      ValOfToBits(values[0], k);
      GroupsOfFlatten(values[1..], rest, k);
    }
  }

  /** Flattening the groups gives back the bits that were grouped. */
  lemma {:induction false} FlattenOfGroups(bits: seq<bool>, k: nat)
    requires k > 0
    ensures Flatten(Groups(bits, k), k) <= bits
    decreases |bits|
  {
    if |bits| >= k {
      var first, rest := bits[..k], bits[k..];
      FlattenOfGroups(rest, k);
      ToBitsOfVal(first);
      assert Groups(bits, k)[1..] == Groups(rest, k);
      assert bits == first + rest;
    }
  }

  lemma {:induction false} FlattenOfConcat(a: seq<nat>, b: seq<nat>, k: nat)
    ensures Flatten(a + b, k) == Flatten(a, k) + Flatten(b, k)
  {
    if a == [] {
      assert a + b == b;
    } else {
      assert (a + b)[0] == a[0] && (a + b)[1..] == a[1..] + b;
      FlattenOfConcat(a[1..], b, k);
    }
  }

  lemma FlattenOfNext(values: seq<nat>, next: nat, k: nat)
    ensures Flatten(values + [next], k) == Flatten(values, k) + ToBits(next, k)
  {
    FlattenOfConcat(values, [next], k);
    assert Flatten([next], k) == ToBits(next, k) + Flatten([], k);
  }

  /** `bits` with zeros appended up to a multiple of `k`. */
  function Padded(bits: seq<bool>, k: nat): (padded: seq<bool>)
    requires k > 0
    ensures bits <= padded && |padded| < |bits| + k
  {
    bits + seq((k - |bits| % k) % k, _ => false)
  }

  lemma PaddedLength(bits: seq<bool>, k: nat)
    requires k == 5 || k == 6
    ensures |Padded(bits, k)| % k == 0
  {
  }
}
