/**
 * The URL wildcard matcher: a scan with one cursor that remembers only the last star it met.
 *
 * `Matches` is the meaning a caller expects of `?` and `*`. `LiteralFirst` is the meaning the
 * matcher really has: a `*` byte of the text that faces a `*` of the pattern is consumed as an
 * ordinary byte, because the literal test comes before the star test. The answers are right
 * under every pattern exactly for the texts without a `*`, and on every text exactly for the
 * patterns without one and for the lone `*`, which the scan never sees.
 */
module UrlMatch {
  import opened Prelude

  const STAR: Byte := 42
  const QUESTION: Byte := 63

  // ---------------------------------------------------------------------------
  // Meaning
  // ---------------------------------------------------------------------------

  /** `pattern[i..]` matches all of `text[j..]`: `?` is any byte, `*` any run of bytes. */
  ghost predicate Matches(pattern: seq<Byte>, text: seq<Byte>, i: nat, j: nat)
    requires i <= |pattern| && j <= |text|
    decreases |pattern| - i
  {
    if i == |pattern| then j == |text|
    else if pattern[i] == STAR then
      var next := i + 1;
      exists k: nat :: j <= k <= |text| && Matches(pattern, text, next, k)
    else j < |text| && (pattern[i] == QUESTION || pattern[i] == text[j]) && Matches(pattern, text, i + 1, j + 1)
  }

  predicate LiteralOrQuestion(pattern: seq<Byte>, text: seq<Byte>, p: nat, t: nat)
    requires t < |text|
  {
    p < |pattern| && (pattern[p] == QUESTION || pattern[p] == text[t])
  }

  predicate StarAt(pattern: seq<Byte>, p: nat) {
    p < |pattern| && pattern[p] == STAR
  }

  /** Like `Matches`, except that a star facing a `*` byte stands for exactly that byte. */
  ghost predicate LiteralFirst(pattern: seq<Byte>, text: seq<Byte>, i: nat, j: nat)
    requires i <= |pattern| && j <= |text|
    decreases |pattern| - i
  {
    if i == |pattern| then j == |text|
    else if j < |text| && LiteralOrQuestion(pattern, text, i, j) then LiteralFirst(pattern, text, i + 1, j + 1)
    else
      var next := i + 1;
      pattern[i] == STAR && exists k: nat :: j <= k <= |text| && LiteralFirst(pattern, text, next, k)
  }

  // ---------------------------------------------------------------------------
  // Remembering only the last star loses nothing
  // ---------------------------------------------------------------------------

  /** The pattern after the star at `star`, up to `p`, lies byte by byte on the text from `starT`. */
  ghost predicate Aligned(pattern: seq<Byte>, text: seq<Byte>, star: nat, starT: nat, p: nat, t: nat) {
    && star < p <= |pattern|
    && t == starT + (p - star - 1) <= |text|
    && forall i: nat, j: nat | star < i < p && j == starT + (i - star - 1) :: LiteralOrQuestion(pattern, text, i, j)
  }

  /**
   * A match of what follows the star, placed anywhere at or after the current placement, reaches
   * pattern position `p` no earlier than the current placement does.
   */
  lemma {:induction false} LaterPlacementArrivesLater(
      pattern: seq<Byte>, text: seq<Byte>, star: nat, starT: nat, p: nat, t: nat, i: nat, j: nat)
    returns (arrival: nat)
    requires Aligned(pattern, text, star, starT, p, t)
    requires star < i <= p && starT + (i - star - 1) <= j <= |text|
    requires LiteralFirst(pattern, text, i, j)
    ensures t <= arrival <= |text| && LiteralFirst(pattern, text, p, arrival)
    decreases p - i
  {
    if i == p {
      arrival := j;
    } else {
      assert LiteralOrQuestion(pattern, text, i, starT + (i - star - 1));
      if j < |text| && LiteralOrQuestion(pattern, text, i, j) {
        arrival := LaterPlacementArrivesLater(pattern, text, star, starT, p, t, i + 1, j + 1);
      } else {
        var k: nat :| j <= k <= |text| && LiteralFirst(pattern, text, i + 1, k);
        arrival := LaterPlacementArrivesLater(pattern, text, star, starT, p, t, i + 1, k);
      }
    }
  }

  /** Some placement of the text after the star at `star`, strictly after `starT`, still matches. */
  ghost predicate Retry(pattern: seq<Byte>, text: seq<Byte>, star: nat, starT: nat)
    requires star < |pattern|
  {
    var next := star + 1;
    exists k: nat :: starT < k <= |text| && LiteralFirst(pattern, text, next, k)
  }

  lemma StarIsPlacementOrRetry(pattern: seq<Byte>, text: seq<Byte>, star: nat, starT: nat)
    requires StarAt(pattern, star) && starT <= |text|
    ensures starT < |text| ==>
      (Retry(pattern, text, star, starT) <==>
        LiteralFirst(pattern, text, star + 1, starT + 1) || Retry(pattern, text, star, starT + 1))
    ensures starT < |text| && !LiteralOrQuestion(pattern, text, star, starT) ==>
      (LiteralFirst(pattern, text, star, starT) <==>
        LiteralFirst(pattern, text, star + 1, starT) || Retry(pattern, text, star, starT))
  {
    if starT < |text| && Retry(pattern, text, star, starT) {
      var k: nat :| starT < k <= |text| && LiteralFirst(pattern, text, star + 1, k);
      assert k == starT + 1 || Retry(pattern, text, star, starT + 1);
    }
    if starT < |text| && !LiteralOrQuestion(pattern, text, star, starT) && LiteralFirst(pattern, text, star, starT) {
      var k: nat :| starT <= k <= |text| && LiteralFirst(pattern, text, star + 1, k);
      assert k == starT || Retry(pattern, text, star, starT);
    }
  }

  /** Reaching a second star makes every retry of the first one redundant. */
  lemma LastStarSuffices(pattern: seq<Byte>, text: seq<Byte>, star: nat, starT: nat, p: nat, t: nat)
    requires Aligned(pattern, text, star, starT, p, t)
    requires StarAt(pattern, p) && t < |text| && !LiteralOrQuestion(pattern, text, p, t)
    ensures Retry(pattern, text, star, starT) ==> LiteralFirst(pattern, text, p, t)
  {
    if Retry(pattern, text, star, starT) {
      var k: nat :| starT < k <= |text| && LiteralFirst(pattern, text, star + 1, k);
      var arrival := LaterPlacementArrivesLater(pattern, text, star, starT, p, t, star + 1, k);
      if arrival < |text| && LiteralOrQuestion(pattern, text, p, arrival) {
        assert LiteralFirst(pattern, text, p + 1, arrival + 1);
      } else {
        var later: nat :| arrival <= later <= |text| && LiteralFirst(pattern, text, p + 1, later);
      }
    }
  }

  /** Once the text is used up, a retry could only end where the current placement is. */
  lemma RetryIsExhausted(pattern: seq<Byte>, text: seq<Byte>, star: nat, starT: nat, p: nat)
    requires Aligned(pattern, text, star, starT, p, |text|)
    ensures Retry(pattern, text, star, starT) ==> LiteralFirst(pattern, text, p, |text|)
  {
    if Retry(pattern, text, star, starT) {
      var k: nat :| starT < k <= |text| && LiteralFirst(pattern, text, star + 1, k);
      var arrival := LaterPlacementArrivesLater(pattern, text, star, starT, p, |text|, star + 1, k);
    }
  }

  // ---------------------------------------------------------------------------
  // The matcher
  // ---------------------------------------------------------------------------

  class Cursor {
    var p: nat
    var t: nat
    var starP: Option<nat>
    var starT: nat

    constructor ()
      ensures p == 0 && t == 0 && starP == None && starT == 0
    {
      p, t, starP, starT := 0, 0, None, 0;
    }

    method AdvanceBoth()
      modifies this
      ensures p == old(p) + 1 && t == old(t) + 1 && starP == old(starP) && starT == old(starT)
    {
      p := p + 1;
      t := t + 1;
    }

    method RememberStar()
      modifies this
      ensures starP == Some(old(p)) && starT == old(t) && p == old(p) + 1 && t == old(t)
    {
      starP := Some(p);
      starT := t;
      p := p + 1;
    }

    method Backtrack() returns (resumed: bool)
      modifies this
      ensures resumed <==> old(starP).Some?
      ensures starP == old(starP)
      ensures resumed ==> p == starP.value + 1 && t == starT == old(starT) + 1
      ensures !resumed ==> p == old(p) && t == old(t) && starT == old(starT)
    {
      if starP.None? {
        return false;
      }
      p := starP.value + 1;
      starT := starT + 1;
      t := starT;
      resumed := true;
    }

    method ConsumeTrailingStars(pattern: seq<Byte>)
      requires p <= |pattern|
      modifies this
      ensures old(p) <= p <= |pattern| && !StarAt(pattern, p)
      ensures forall i :: old(p) <= i < p ==> pattern[i] == STAR
      ensures t == old(t) && starP == old(starP) && starT == old(starT)
    {
      while StarAt(pattern, p)
        invariant old(p) <= p <= |pattern|
        invariant forall i :: old(p) <= i < p ==> pattern[i] == STAR
        invariant t == old(t) && starP == old(starP) && starT == old(starT)
        decreases |pattern| - p
      {
        p := p + 1;
      }
    }

    /** What the cursor still stands for: the current placement or a retry of the last star. */
    ghost predicate Hope(pattern: seq<Byte>, text: seq<Byte>)
      requires p <= |pattern| && t <= |text|
      requires starP.Some? ==> starP.value < |pattern|
      reads this
    {
      LiteralFirst(pattern, text, p, t) || (starP.Some? && Retry(pattern, text, starP.value, starT))
    }
  }

  lemma {:induction false} OnlyStarsRemain(pattern: seq<Byte>, text: seq<Byte>, p: nat, q: nat)
    requires p <= q <= |pattern| && !StarAt(pattern, q)
    requires forall i :: p <= i < q ==> pattern[i] == STAR
    ensures LiteralFirst(pattern, text, p, |text|) <==> q == |pattern|
    decreases q - p
  {
    if p < q {
      OnlyStarsRemain(pattern, text, p + 1, q);
    }
  }

  /** Terminates and decides exactly `LiteralFirst`. */
  method WildcardMatch(pattern: seq<Byte>, text: seq<Byte>) returns (matched: bool)
    ensures matched <==> LiteralFirst(pattern, text, 0, 0)
  {
    var cursor := new Cursor();
    while cursor.t < |text|
      invariant fresh(cursor)
      invariant cursor.p <= |pattern| && cursor.t <= |text| && cursor.starT <= cursor.t
      invariant cursor.starP.Some? ==>
          StarAt(pattern, cursor.starP.value)
          && Aligned(pattern, text, cursor.starP.value, cursor.starT, cursor.p, cursor.t)
      invariant cursor.Hope(pattern, text) <==> LiteralFirst(pattern, text, 0, 0)
      decreases |text| - cursor.starT,
                |pattern| - (if cursor.starP.Some? then cursor.starP.value else -1),
                |text| - cursor.t
    {
      if LiteralOrQuestion(pattern, text, cursor.p, cursor.t) {
        cursor.AdvanceBoth();
      } else if StarAt(pattern, cursor.p) {
        if cursor.starP.Some? {
          LastStarSuffices(pattern, text, cursor.starP.value, cursor.starT, cursor.p, cursor.t);
        }
        StarIsPlacementOrRetry(pattern, text, cursor.p, cursor.t);
        cursor.RememberStar();
      } else {
        if cursor.starP.Some? {
          StarIsPlacementOrRetry(pattern, text, cursor.starP.value, cursor.starT);
        }
        var resumed := cursor.Backtrack();
        if !resumed {
          return false;
        }
      }
    }
    if cursor.starP.Some? {
      RetryIsExhausted(pattern, text, cursor.starP.value, cursor.starT, cursor.p);
    }
    ghost var reached := cursor.p;
    cursor.ConsumeTrailingStars(pattern);
    OnlyStarsRemain(pattern, text, reached, cursor.p);
    matched := cursor.p == |pattern|;
  }

  /** The two signs with a meaning of their own. */
  lemma SignsAreAscii()
    ensures STAR == '*' as int && QUESTION == '?' as int
  {
  }

  /** What the entry point answers: an empty pattern and a lone star accept every URL. */
  ghost predicate Accepts(pattern: seq<Byte>, url: seq<Byte>) {
    pattern == [] || pattern == [STAR] || LiteralFirst(pattern, url, 0, 0)
  }

  method PatternMatch(url: seq<Byte>, pattern: seq<Byte>) returns (matched: bool)
    ensures matched <==> Accepts(pattern, url)
    ensures pattern == [] ==> matched
    ensures matched && pattern != [] ==> Matches(pattern, url, 0, 0)
    ensures pattern != [] && STAR !in url ==> (matched <==> Matches(pattern, url, 0, 0))
  {
    if pattern == [] || pattern == [STAR] {
      if pattern == [STAR] {
        assert Matches(pattern, url, 1, |url|);
      }
      return true;
    }
    matched := WildcardMatch(pattern, url);
    if matched {
      LiteralFirstIsSound(pattern, url, 0, 0);
    }
    if STAR !in url && Matches(pattern, url, 0, 0) {
      LiteralFirstIsCompleteWithoutStars(pattern, url, 0, 0);
    }
  }

  // ---------------------------------------------------------------------------
  // When the matcher means what `?` and `*` mean
  // ---------------------------------------------------------------------------

  /** Every answer `true` is right, whatever bytes the text holds. */
  lemma {:induction false} LiteralFirstIsSound(pattern: seq<Byte>, text: seq<Byte>, i: nat, j: nat)
    requires i <= |pattern| && j <= |text|
    requires LiteralFirst(pattern, text, i, j)
    ensures Matches(pattern, text, i, j)
    decreases |pattern| - i
  {
    if i < |pattern| {
      if j < |text| && LiteralOrQuestion(pattern, text, i, j) {
        LiteralFirstIsSound(pattern, text, i + 1, j + 1);
      } else {
        var k: nat :| j <= k <= |text| && LiteralFirst(pattern, text, i + 1, k);
        LiteralFirstIsSound(pattern, text, i + 1, k);
      }
    }
  }

  lemma {:induction false} LiteralFirstIsCompleteWithoutStars(pattern: seq<Byte>, text: seq<Byte>, i: nat, j: nat)
    requires i <= |pattern| && j <= |text|
    requires STAR !in text && Matches(pattern, text, i, j)
    ensures LiteralFirst(pattern, text, i, j)
    decreases |pattern| - i
  {
    if i < |pattern| {
      if pattern[i] == STAR {
        var k: nat :| j <= k <= |text| && Matches(pattern, text, i + 1, k);
        LiteralFirstIsCompleteWithoutStars(pattern, text, i + 1, k);
      } else {
        LiteralFirstIsCompleteWithoutStars(pattern, text, i + 1, j + 1);
      }
    }
  }

  /** A run of `?` matches a text of its own length and no other, under either meaning. */
  lemma {:induction false} QuestionMarksCount(pattern: seq<Byte>, text: seq<Byte>, i: nat, j: nat)
    requires i <= |pattern| && j <= |text|
    requires forall x :: i <= x < |pattern| ==> pattern[x] == QUESTION
    ensures Matches(pattern, text, i, j) <==> |pattern| - i == |text| - j
    ensures LiteralFirst(pattern, text, i, j) <==> |pattern| - i == |text| - j
    decreases |pattern| - i
  {
    if i < |pattern| && j < |text| {
      QuestionMarksCount(pattern, text, i + 1, j + 1);
    }
  }

  /** Both meanings walk over a run of `?` in the same way. */
  lemma {:induction false} SkipQuestionMarks(pattern: seq<Byte>, text: seq<Byte>, i: nat, n: nat)
    requires i <= n <= |pattern| && n <= |text|
    requires forall x :: i <= x < n ==> pattern[x] == QUESTION
    ensures Matches(pattern, text, i, i) <==> Matches(pattern, text, n, n)
    ensures LiteralFirst(pattern, text, i, i) <==> LiteralFirst(pattern, text, n, n)
    decreases n - i
  {
    if i < n {
      SkipQuestionMarks(pattern, text, i + 1, n);
    }
  }

  /** For a text with a `*` byte there is a pattern that matches it and is refused. */
  lemma TextWithStarIsMisjudged(text: seq<Byte>) returns (pattern: seq<Byte>)
    requires STAR in text
    ensures Matches(pattern, text, 0, 0) && !Accepts(pattern, text)
  {
    var n: nat :| n < |text| && text[n] == STAR;
    pattern := seq(n, _ => QUESTION) + [STAR] + seq(|text| - n, _ => QUESTION);
    SkipQuestionMarks(pattern, text, 0, n);
    QuestionMarksCount(pattern, text, n + 1, n);
    QuestionMarksCount(pattern, text, n + 1, n + 1);
    assert Matches(pattern, text, n, n);
  }

  /** The answer is that of the meaning, which an empty pattern is not asked for. */
  ghost predicate IsRight(pattern: seq<Byte>, text: seq<Byte>) {
    Accepts(pattern, text) <==> Matches(pattern, text, 0, 0)
  }

  lemma {:induction false} LoneStarIsRight(text: seq<Byte>)
    ensures IsRight([STAR], text)
  {
    assert Matches([STAR], text, 1, |text|);
  }

  /** Every non-empty pattern is answered rightly on a text iff the text holds no `*` byte. */
  lemma {:induction false} TextIsJudgedRightly(text: seq<Byte>)
    ensures (forall pattern: seq<Byte> :: pattern != [] ==> IsRight(pattern, text)) <==> STAR !in text
  {
    if STAR in text {
      var pattern := TextWithStarIsMisjudged(text);
      assert pattern != [] && !IsRight(pattern, text);
    } else {
      forall pattern: seq<Byte> | pattern != []
        ensures IsRight(pattern, text)
      {
        if Matches(pattern, text, 0, 0) {
          LiteralFirstIsCompleteWithoutStars(pattern, text, 0, 0);
        } else if LiteralFirst(pattern, text, 0, 0) {
          LiteralFirstIsSound(pattern, text, 0, 0);
        } else {
          LoneStarIsRight(text);
        }
      }
    }
  }

  /** A pattern matches the text that repeats it, `shift` bytes later. */
  lemma {:induction false} PatternMatchesItself(pattern: seq<Byte>, text: seq<Byte>, i: nat, shift: nat)
    requires i <= |pattern| && |text| == |pattern| + shift
    requires forall x :: i <= x < |pattern| ==> text[x + shift] == pattern[x]
    ensures Matches(pattern, text, i, i + shift)
    decreases |pattern| - i
  {
    if i < |pattern| {
      PatternMatchesItself(pattern, text, i + 1, shift);
    }
  }

  /** Facing only `*` bytes and with no star remembered, the matcher runs out of pattern first. */
  lemma {:induction false} StuckOnStars(pattern: seq<Byte>, text: seq<Byte>, i: nat)
    requires i <= |pattern| < |text|
    requires forall x :: i <= x <= |pattern| ==> text[x] == STAR
    ensures !LiteralFirst(pattern, text, i, i)
    decreases |pattern| - i
  {
    if i < |pattern| {
      StuckOnStars(pattern, text, i + 1);
    }
  }

  lemma {:induction false} SkipEqualBytes(pattern: seq<Byte>, text: seq<Byte>, i: nat, n: nat)
    requires i <= n <= |pattern| && n <= |text|
    requires forall x :: i <= x < n ==> pattern[x] == text[x] && pattern[x] != STAR
    ensures Matches(pattern, text, i, i) <==> Matches(pattern, text, n, n)
    ensures LiteralFirst(pattern, text, i, i) <==> LiteralFirst(pattern, text, n, n)
    decreases n - i
  {
    if i < n {
      SkipEqualBytes(pattern, text, i + 1, n);
    }
  }

  lemma {:induction false} FirstStar(pattern: seq<Byte>) returns (n: nat)
    requires STAR in pattern
    ensures n < |pattern| && pattern[n] == STAR && forall x :: 0 <= x < n ==> pattern[x] != STAR
  {
    n := 0;
    while pattern[n] != STAR
      invariant n < |pattern| && STAR in pattern[n..]
      invariant forall x :: 0 <= x < n ==> pattern[x] != STAR
      decreases |pattern| - n
    {
      n := n + 1;
    }
  }

  /** For a pattern with a star, and not that alone, there is a text that it matches and that is refused. */
  lemma {:induction false} PatternWithStarMisjudges(pattern: seq<Byte>) returns (text: seq<Byte>)
    requires STAR in pattern && pattern != [STAR]
    ensures Matches(pattern, text, 0, 0) && !Accepts(pattern, text)
  {
    var n := FirstStar(pattern);
    var shift := |pattern| + 1;
    text := pattern[..n] + seq(shift + 1, _ => STAR) + pattern[n + 1..];
    SkipEqualBytes(pattern, text, 0, n);
    PatternMatchesItself(pattern, text, n + 1, shift);
    assert Matches(pattern, text, n, n);
    StuckOnStars(pattern, text, n + 1);
  }

  /** A non-empty pattern is answered rightly on every text iff it holds no star or is a star alone. */
  lemma {:induction false} PatternJudgesRightly(pattern: seq<Byte>)
    requires pattern != []
    ensures (forall text: seq<Byte> :: IsRight(pattern, text)) <==> STAR !in pattern || pattern == [STAR]
  {
    if STAR in pattern && pattern != [STAR] {
      var text := PatternWithStarMisjudges(pattern);
      assert !IsRight(pattern, text);
    } else {
      forall text: seq<Byte>
        ensures IsRight(pattern, text)
      {
        if pattern == [STAR] {
          LoneStarIsRight(text);
        } else {
          StarlessMeaningsAgree(pattern, text, 0, 0);
        }
      }
    }
  }

  lemma {:induction false} StarlessMeaningsAgree(pattern: seq<Byte>, text: seq<Byte>, i: nat, j: nat)
    requires i <= |pattern| && j <= |text| && STAR !in pattern
    ensures LiteralFirst(pattern, text, i, j) == Matches(pattern, text, i, j)
    decreases |pattern| - i
  {
    if i < |pattern| && j < |text| {
      StarlessMeaningsAgree(pattern, text, i + 1, j + 1);
    }
  }
}
