/**
 * A machine-word bit accumulator that is never masked: bits shifted past the top of the word
 * are lost, and only the low bits that are still to be emitted are ever right.
 */
module Accumulator {
  import opened Bits

  /** The `|tail|` low bits of `buf` are the pending bits, whatever lies above them. */
  ghost predicate Holds(buf: nat, tail: seq<bool>) {
    buf % Pow2(|tail|) == Val(tail)
  }

  lemma Distribute(a: int, b: int, c: int)
    ensures (a + b) * c == a * c + b * c
  {
  }

  lemma Associate(a: int, b: int, c: int)
    ensures a * b * c == a * (b * c)
  {
  }

  lemma AtLeast(d: int, k: int)
    requires d >= 1 && k >= 0
    ensures d * k >= k
  {
  }

  /** Quotient and remainder are unique. */
  lemma DivMod(n: int, q: int, r: int, k: int)
    requires k > 0 && n == q * k + r && 0 <= r < k
    ensures n / k == q && n % k == r
  {
    var d := n / k - q;
    Distribute(n / k, -q, k);
    if d >= 1 {
      AtLeast(d, k);
    } else if d <= -1 {
      AtLeast(-d, k);
    }
  }

  lemma {:induction false} PowerOfSum(a: nat, b: nat)
    ensures Pow2(a + b) == Pow2(a) * Pow2(b)
  {
    if a > 0 {
      PowerOfSum(a - 1, b);
      Associate(2, Pow2(a - 1), Pow2(b));
    }
  }

  lemma PushArithmetic(buf: nat, m: nat, s: nat, c: nat, x: nat, v: nat)
    requires m > 0 && s > 0 && c > 0 && buf % m == x && v < s
    ensures m * s > 0 && m * s * c > 0
    ensures (buf * s % (m * s * c) + v) % (m * s) == x * s + v
  {
    AtLeast(m, s);
    var ms := m * s;
    AtLeast(ms, c);
    var t := buf / m;
    var lost := buf * s / (ms * c);
    assert buf * s == t * ms + x * s by {
      Distribute(t * m, x, s);
      Associate(t, m, s);
    }
    assert lost * (ms * c) == (lost * c) * ms by {
      Associate(lost, c, ms);
    }
    Distribute(t, -(lost * c), ms);
    assert x * s + v < ms by {
      Distribute(x, 1, s);
      Distribute(x + 1, m - x - 1, s);
      assert (m - x - 1) * s >= 0;
    }
    DivMod(buf * s % (ms * c) + v, t - lost * c, x * s + v, ms);
  }

  lemma PopArithmetic(buf: nat, a: nat, b: nat, ab: nat, high: nat, low: nat)
    requires a > 0 && b > 0 && high < a && low < b
    requires ab > 0 && ab == a * b && buf % ab == high * b + low
    ensures buf / b % a == high && buf % b == low
  {
    var t := buf / ab;
    Associate(t, a, b);
    Distribute(t * a, high, b);
    DivMod(buf, t * a + high, low, b);
    DivMod(t * a + high, t, high, a);
  }

  /**
   * Shifting a word of `word` bits left and adding new low bits appends them to the pending
   * bits, as long as all of these fit the word.
   */
  lemma Push(buf: nat, tail: seq<bool>, added: seq<bool>, word: nat)
    requires Holds(buf, tail) && |tail| + |added| <= word
    ensures Holds(buf * Pow2(|added|) % Pow2(word) + Val(added), tail + added)
  {
    hide Pow2, Val;
    var spare := word - |tail| - |added|;
    ValOfConcat(tail, added);
    ValBound(added);
    PowerOfSum(|tail|, |added|);
    PowerOfSum(|tail| + |added|, spare);
    PushArithmetic(buf, Pow2(|tail|), Pow2(|added|), Pow2(spare), Val(tail), Val(added));
    assert |tail + added| == |tail| + |added|;
  }

  lemma Joined(group: seq<bool>, rest: seq<bool>)
    ensures Val(group + rest) == Val(group) * Pow2(|rest|) + Val(rest)
    ensures Pow2(|group + rest|) == Pow2(|group|) * Pow2(|rest|)
  {
    ValOfConcat(group, rest);
    PowerOfSum(|group|, |rest|);
    assert |group + rest| == |group| + |rest|;
  }

  /** Taking the top of the pending bits off by a shift and a mask leaves the others pending. */
  lemma Pop(buf: nat, group: seq<bool>, rest: seq<bool>)
    requires Holds(buf, group + rest)
    ensures buf / Pow2(|rest|) % Pow2(|group|) == Val(group)
    ensures Holds(buf, rest)
  {
    Joined(group, rest);
    ValBound(group);
    ValBound(rest);
    PopArithmetic(buf, Pow2(|group|), Pow2(|rest|), Pow2(|group + rest|), Val(group), Val(rest));
  }
}
