/**
 * Path patterns of robots.txt rules, matched by placing the literal segments between stars
 * from left to right, each at its leftmost position.
 *
 * `RfcMatch` is the meaning given in section 2.2.3 of RFC 9309: `*` is any run of characters and
 * a `$` that ends the pattern ties it to the end of the path. The placement is sound exactly for
 * the patterns that do not end in two dollars, and exact if moreover the pattern does not put a
 * star between its last literal text and the final `$`.
 */
module RobotsPattern {
  import opened Prelude

  // ---------------------------------------------------------------------------
  // Meaning
  // ---------------------------------------------------------------------------

  /** `pattern` matches `path` from position `pos`: up to its end if `anchored`, else a prefix of it. */
  ghost predicate Globs(path: string, pos: nat, pattern: string, anchored: bool)
    requires pos <= |path|
    decreases |pattern|
  {
    if pattern == "" then !anchored || pos == |path|
    else if pattern[0] == '*' then
      var rest := pattern[1..];
      exists k: nat :: pos <= k <= |path| && Globs(path, k, rest, anchored)
    else pos < |path| && path[pos] == pattern[0] && Globs(path, pos + 1, pattern[1..], anchored)
  }

  /** `pattern` matches from `pos` or from any later position, as it does after a star. */
  ghost predicate AfterStar(path: string, pos: nat, pattern: string, anchored: bool)
    requires pos <= |path|
  {
    exists k: nat :: pos <= k <= |path| && Globs(path, k, pattern, anchored)
  }

  ghost predicate RfcMatch(path: string, pattern: string)
    requires pattern != ""
  {
    if pattern[|pattern| - 1] == '$' then Globs(path, 0, pattern[..|pattern| - 1], true)
    else Globs(path, 0, pattern, false)
  }

  // ---------------------------------------------------------------------------
  // Segments
  // ---------------------------------------------------------------------------

  predicate EndsWith(s: string, suffix: string) {
    |suffix| <= |s| && s[|s| - |suffix|..] == suffix
  }

  /** Leftmost occurrence of `part` at or after `pos`. */
  function Find(path: string, pos: nat, part: string): (found: Option<nat>)
    requires pos <= |path|
    ensures found.Some? ==> pos <= found.value <= |path| && part <= path[found.value..]
    ensures found.Some? ==> forall k: nat :: pos <= k < found.value ==> !(part <= path[k..])
    ensures found.None? ==> forall k: nat :: pos <= k <= |path| ==> !(part <= path[k..])
    decreases |path| - pos
  {
    if part <= path[pos..] then Some(pos)
    else if pos == |path| then None
    else Find(path, pos + 1, part)
  }

  predicate LastIs(pattern: string, c: char) {
    pattern != "" && pattern[|pattern| - 1] == c
  }

  predicate LastTwoAre(pattern: string, c: char, d: char) {
    |pattern| >= 2 && pattern[|pattern| - 2] == c && pattern[|pattern| - 1] == d
  }

  /** How much of `pattern` comes before its first star. */
  function StarFreeLength(pattern: string): (n: nat)
    ensures n <= |pattern|
    ensures forall k :: 0 <= k < n ==> pattern[k] != '*'
    ensures n < |pattern| ==> pattern[n] == '*'
  {
    if pattern == "" || pattern[0] == '*' then 0 else 1 + StarFreeLength(pattern[1..])
  }

  /** The non-empty pieces of `pattern` between its stars. */
  function Parts(pattern: string): (parts: seq<string>)
    decreases |pattern|
  {
    var n := StarFreeLength(pattern);
    if pattern == "" then []
    else if n == |pattern| then [pattern]
    else if n == 0 then Parts(pattern[1..])
    else [pattern[..n]] + Parts(pattern[n + 1..])
  }

  function TrimDollars(pattern: string): (trimmed: string)
    ensures trimmed <= pattern && !LastIs(trimmed, '$')
    ensures forall k :: |trimmed| <= k < |pattern| ==> pattern[k] == '$'
  {
    if LastIs(pattern, '$') then TrimDollars(pattern[..|pattern| - 1]) else pattern
  }

  // ---------------------------------------------------------------------------
  // The matcher
  // ---------------------------------------------------------------------------

  /** Where the last of `parts` ends when each takes its leftmost place after the one before. */
  function Place(path: string, parts: seq<string>, pos: nat): (end: Option<nat>)
    requires pos <= |path|
    ensures end.Some? ==> pos <= end.value <= |path|
    decreases |parts|
  {
    if parts == [] then Some(pos)
    else
      var found := Find(path, pos, parts[0]);
      if found.None? then None else Place(path, parts[1..], found.value + |parts[0]|)
  }

  /** As `Place`, but the first part must start the path unless the pattern starts with a star. */
  function PlacePattern(path: string, pattern: string): Option<nat> {
    var parts := Parts(pattern);
    if parts != [] && pattern[0] != '*' then
      if parts[0] <= path then Place(path, parts[1..], |parts[0]|) else None
    else
      Place(path, parts, 0)
  }

  predicate WildcardFits(path: string, pattern: string, anchoredEnd: bool) {
    var parts := Parts(pattern);
    PlacePattern(path, pattern).Some? && (!anchoredEnd || parts == [] || EndsWith(path, parts[|parts| - 1]))
  }

  predicate PlainMatch(path: string, pattern: string, anchoredEnd: bool) {
    pattern <= path && (!anchoredEnd || |path| == |pattern|)
  }

  /** What the matcher answers on a pattern without its dollars. */
  predicate Fits(path: string, trimmed: string, anchoredEnd: bool) {
    if StarFreeLength(trimmed) == |trimmed| then PlainMatch(path, trimmed, anchoredEnd)
    else WildcardFits(path, trimmed, anchoredEnd)
  }

  /** What `RobotsMatch` decides. */
  predicate RobotsMatches(path: string, pattern: string) {
    pattern != "" &&
    var anchoredEnd := pattern[|pattern| - 1] == '$';
    Fits(path, TrimDollars(pattern), anchoredEnd)
  }

  function NextPartPos(path: string, pattern: string, part: string, pos: nat, first: bool): (next: Option<nat>)
    requires pos <= |path|
    ensures next.Some? ==> pos <= next.value <= |path|
  {
    if first && (pattern == "" || pattern[0] != '*') then
      if part <= path[pos..] then Some(pos + |part|) else None
    else
      var found := Find(path, pos, part);
      if found.None? then None else Some(found.value + |part|)
  }

  lemma {:induction false} PlaceStep(path: string, parts: seq<string>, i: nat, pos: nat)
    requires pos <= |path| && i < |parts|
    ensures
      var found := Find(path, pos, parts[i]);
      Place(path, parts[i..], pos) ==
        if found.None? then None else Place(path, parts[i + 1..], found.value + |parts[i]|)
  {
    hide Find;
    assert parts[i..][0] == parts[i] && parts[i..][1..] == parts[i + 1..];
  }

  lemma {:induction false} PlaceNone(path: string, pos: nat)
    requires pos <= |path|
    ensures Place(path, [], pos) == Some(pos)
  {
  }

  /** What the first segment found leaves to place. */
  lemma {:induction false} FirstStep(path: string, pattern: string)
    requires Parts(pattern) != []
    ensures
      var parts := Parts(pattern);
      var next := NextPartPos(path, pattern, parts[0], 0, true);
      PlacePattern(path, pattern) == if next.None? then None else Place(path, parts[1..], next.value)
  {
    PeelParts(pattern);
    hide Parts, Find, StarFreeLength, Place;
    assert path[0..] == path;
    var parts := Parts(pattern);
    PlaceStep(path, parts, 0, 0);
    assert parts[0..] == parts;
  }

  method WildcardMatch(path: string, pattern: string, anchoredEnd: bool) returns (matched: bool)
    ensures matched <==> WildcardFits(path, pattern, anchoredEnd)
  {
    hide Parts, Find, EndsWith, StarFreeLength, Place, PlacePattern;
    var parts := Parts(pattern);
    var pos: nat := 0;
    var first := true;
    if parts == [] {
      NoParts(path, pattern);
    }
    for i := 0 to |parts|
      invariant pos <= |path| && (first <==> i == 0)
      invariant first ==> pos == 0
      invariant !first ==> PlacePattern(path, pattern) == Place(path, parts[i..], pos)
    {
      var next := NextPartPos(path, pattern, parts[i], pos, first);
      if first {
        FirstStep(path, pattern);
      } else {
        PlaceStep(path, parts, i, pos);
      }
      if next.None? {
        return false;
      }
      pos := next.value;
      first := false;
    }
    assert parts[|parts|..] == [];
    PlaceNone(path, pos);
    matched := !anchoredEnd || parts == [] || EndsWith(path, parts[|parts| - 1]);
  }

  lemma {:induction false} NoParts(path: string, pattern: string)
    requires Parts(pattern) == []
    ensures PlacePattern(path, pattern) == Some(0)
  {
    hide Parts;
  }

  method RobotsMatch(path: string, pattern: string) returns (matched: bool)
    ensures matched <==> RobotsMatches(path, pattern)
    ensures pattern == "" ==> !matched
  {
    if pattern == "" {
      return false;
    }
    var anchoredEnd := pattern[|pattern| - 1] == '$';
    var trimmed := TrimDollars(pattern);
    if StarFreeLength(trimmed) == |trimmed| {
      matched := PlainMatch(path, trimmed, anchoredEnd);
    } else {
      matched := WildcardMatch(path, trimmed, anchoredEnd);
    }
  }

  // ---------------------------------------------------------------------------
  // Leftmost placement is complete
  // ---------------------------------------------------------------------------

  lemma StarMeaning(path: string, pos: nat, pattern: string, anchored: bool)
    requires pos <= |path| && pattern != "" && pattern[0] == '*'
    ensures Globs(path, pos, pattern, anchored) <==> AfterStar(path, pos, pattern[1..], anchored)
  {
  }

  /** The text before the first star must be there literally; the rest follows a star. */
  lemma {:induction false} LiteralFirst(path: string, pos: nat, pattern: string, anchored: bool)
    requires pos <= |path|
    ensures
      var n := StarFreeLength(pattern);
      Globs(path, pos, pattern, anchored) <==>
        && pattern[..n] <= path[pos..]
        && (if n == |pattern| then !anchored || pos + n == |path|
            else AfterStar(path, pos + n, pattern[n + 1..], anchored))
    decreases |pattern|
  {
    var n := StarFreeLength(pattern);
    if n == 0 && pattern != "" {
      StarMeaning(path, pos, pattern, anchored);
    } else if n > 0 && pos < |path| {
      LiteralFirst(path, pos + 1, pattern[1..], anchored);
      assert path[pos..] == [path[pos]] + path[pos + 1..];
      assert pattern[..n] == [pattern[0]] + pattern[1..][..n - 1];
      assert n < |pattern| ==> pattern[1..][n..] == pattern[n + 1..];
    }
  }

  lemma TwoStarsAreOne(path: string, pos: nat, pattern: string, anchored: bool)
    requires pos <= |path| && pattern != "" && pattern[0] == '*'
    ensures AfterStar(path, pos, pattern, anchored) <==> AfterStar(path, pos, pattern[1..], anchored)
  {
    if AfterStar(path, pos, pattern, anchored) {
      var k: nat :| pos <= k <= |path| && Globs(path, k, pattern, anchored);
      StarMeaning(path, k, pattern, anchored);
    }
    if AfterStar(path, pos, pattern[1..], anchored) {
      StarMeaning(path, pos, pattern, anchored);
    }
  }

  /** After a star, a literal that another star follows may as well take its leftmost place. */
  lemma LeftmostIsBest(path: string, pos: nat, pattern: string, anchored: bool)
    requires pos <= |path| && StarFreeLength(pattern) < |pattern|
    ensures
      var n := StarFreeLength(pattern);
      var found := Find(path, pos, pattern[..n]);
      AfterStar(path, pos, pattern, anchored) <==>
        found.Some? && AfterStar(path, found.value + n, pattern[n + 1..], anchored)
  {
    var n := StarFreeLength(pattern);
    var found := Find(path, pos, pattern[..n]);
    if AfterStar(path, pos, pattern, anchored) {
      var k: nat :| pos <= k <= |path| && Globs(path, k, pattern, anchored);
      LiteralFirst(path, k, pattern, anchored);
      assert found.Some? && found.value <= k;
    }
    if found.Some? {
      LiteralFirst(path, found.value, pattern, anchored);
    }
  }

  /** The last segment: unanchored it needs any place, anchored it needs the end of the path. */
  lemma LastSegment(path: string, pos: nat, pattern: string)
    requires pos <= |path| && StarFreeLength(pattern) == |pattern|
    ensures AfterStar(path, pos, pattern, false) <==> Find(path, pos, pattern).Some?
    ensures AfterStar(path, pos, pattern, true) <==> Find(path, pos, pattern).Some? && EndsWith(path, pattern)
  {
    var found := Find(path, pos, pattern);
    assert pattern[..|pattern|] == pattern;
    forall k: nat, anchored: bool | pos <= k <= |path|
      ensures Globs(path, k, pattern, anchored)
          <==> pattern <= path[k..] && (!anchored || k + |pattern| == |path|)
    {
      LiteralFirst(path, k, pattern, anchored);
    }
    if found.Some? {
      assert Globs(path, found.value, pattern, false);
      if EndsWith(path, pattern) {
        assert Globs(path, |path| - |pattern|, pattern, true);
      }
    }
  }

  lemma {:induction false} PeelParts(pattern: string)
    ensures
      var n := StarFreeLength(pattern);
      Parts(pattern) ==
        if pattern == "" then []
        else if n == |pattern| then [pattern]
        else if n == 0 then Parts(pattern[1..])
        else [pattern[..n]] + Parts(pattern[n + 1..])
  {
  }

  /** The first segment takes its place, then the rest do. */
  lemma {:induction false} PlaceFirstPart(path: string, pos: nat, pattern: string)
    requires pos <= |path| && StarFreeLength(pattern) < |pattern|
    ensures
      var n := StarFreeLength(pattern);
      var found := Find(path, pos, pattern[..n]);
      Place(path, Parts(pattern), pos) ==
        if n == 0 then Place(path, Parts(pattern[1..]), pos)
        else if found.None? then None
        else Place(path, Parts(pattern[n + 1..]), found.value + n)
  {
    PeelParts(pattern);
    hide Parts, StarFreeLength, Find, Place;
    var n := StarFreeLength(pattern);
    if n > 0 {
      PlaceStep(path, Parts(pattern), 0, pos);
      assert Parts(pattern)[0..] == Parts(pattern) && Parts(pattern)[1..] == Parts(pattern[n + 1..]);
    }
  }

  lemma {:induction false} PlaceLastPart(path: string, pos: nat, pattern: string)
    requires pos <= |path| && StarFreeLength(pattern) == |pattern|
    ensures Place(path, Parts(pattern), pos).Some? <==> Find(path, pos, pattern).Some?
  {
    PeelParts(pattern);
    hide Parts, StarFreeLength;
    if pattern != "" {
      assert [pattern][1..] == [];
    }
  }

  /** Placing the segments leftmost succeeds iff any placement does. */
  lemma {:induction false} PlacementIsComplete(path: string, pos: nat, pattern: string)
    requires pos <= |path|
    ensures Place(path, Parts(pattern), pos).Some? <==> AfterStar(path, pos, pattern, false)
    decreases |pattern|
  {
    hide Parts, StarFreeLength, Find, Place, AfterStar, Globs;
    var n := StarFreeLength(pattern);
    if n == |pattern| {
      LastSegment(path, pos, pattern);
      PlaceLastPart(path, pos, pattern);
    } else {
      var rest := pattern[n + 1..];
      PlaceFirstPart(path, pos, pattern);
      if n == 0 {
        TwoStarsAreOne(path, pos, pattern, false);
        PlacementIsComplete(path, pos, rest);
      } else {
        LeftmostIsBest(path, pos, pattern, false);
        var found := Find(path, pos, pattern[..n]);
        if found.Some? {
          PlacementIsComplete(path, found.value + n, rest);
        }
      }
    }
  }

  function LastPart(pattern: string): (last: string)
    requires Parts(pattern) != []
  {
    Parts(pattern)[|Parts(pattern)| - 1]
  }

  lemma {:induction false} LastPartOfRest(pattern: string)
    requires StarFreeLength(pattern) < |pattern| && Parts(pattern[StarFreeLength(pattern) + 1..]) != []
    ensures Parts(pattern) != [] && LastPart(pattern) == LastPart(pattern[StarFreeLength(pattern) + 1..])
  {
    PeelParts(pattern);
    hide Parts, StarFreeLength;
  }

  lemma {:induction false} LiteralEndHasParts(pattern: string)
    requires pattern != "" && !LastIs(pattern, '*')
    ensures Parts(pattern) != []
    decreases |pattern|
  {
    var n := StarFreeLength(pattern);
    if n < |pattern| {
      LiteralEndHasParts(pattern[n + 1..]);
    }
  }

  /** With the end anchored and a literal last, the end check never overlaps an earlier segment. */
  lemma {:induction false} AnchoredPlacementIsComplete(path: string, pos: nat, pattern: string)
    requires pos <= |path| && pattern != "" && !LastIs(pattern, '*') && Parts(pattern) != []
    ensures AfterStar(path, pos, pattern, true)
        <==> Place(path, Parts(pattern), pos).Some? && EndsWith(path, LastPart(pattern))
    decreases |pattern|
  {
    hide Parts, StarFreeLength, Find, Place, AfterStar, Globs;
    var n := StarFreeLength(pattern);
    if n == |pattern| {
      LastSegment(path, pos, pattern);
      PlaceLastPart(path, pos, pattern);
      PeelParts(pattern);
    } else {
      var rest := pattern[n + 1..];
      LiteralEndHasParts(rest);
      LastPartOfRest(pattern);
      PlaceFirstPart(path, pos, pattern);
      if n == 0 {
        TwoStarsAreOne(path, pos, pattern, true);
        AnchoredPlacementIsComplete(path, pos, rest);
      } else {
        LeftmostIsBest(path, pos, pattern, true);
        var found := Find(path, pos, pattern[..n]);
        if found.Some? {
          AnchoredPlacementIsComplete(path, found.value + n, rest);
        }
      }
    }
  }

  /** A star at the end of the pattern takes whatever the path has left. */
  lemma {:induction false} FinalStarAbsorbs(path: string, pos: nat, pattern: string)
    requires pos <= |path| && LastIs(pattern, '*')
    ensures Globs(path, pos, pattern, true) <==> Globs(path, pos, pattern, false)
    decreases |pattern|
  {
    var rest := pattern[1..];
    if pattern[0] == '*' {
      StarMeaning(path, pos, pattern, true);
      StarMeaning(path, pos, pattern, false);
    }
    if rest == "" {
      assert Globs(path, |path|, rest, true) && Globs(path, |path|, rest, false);
    } else {
      forall k: nat | pos <= k <= |path|
        ensures Globs(path, k, rest, true) <==> Globs(path, k, rest, false)
      {
        FinalStarAbsorbs(path, k, rest);
      }
    }
  }

  // ---------------------------------------------------------------------------
  // The trimmed pattern, whether it starts with a star or not
  // ---------------------------------------------------------------------------

  lemma {:induction false} PlacePatternIsComplete(path: string, pattern: string)
    requires StarFreeLength(pattern) < |pattern|
    ensures PlacePattern(path, pattern).Some? <==> Globs(path, 0, pattern, false)
  {
    var n := StarFreeLength(pattern);
    LiteralFirst(path, 0, pattern, false);
    assert path[0..] == path;
    if n == 0 {
      PlacementIsComplete(path, 0, pattern[1..]);
    } else if pattern[..n] <= path {
      assert Parts(pattern)[1..] == Parts(pattern[n + 1..]);
      PlacementIsComplete(path, n, pattern[n + 1..]);
    }
  }

  lemma PlainMatchIsExact(path: string, pattern: string, anchored: bool)
    requires StarFreeLength(pattern) == |pattern|
    ensures PlainMatch(path, pattern, anchored) <==> Globs(path, 0, pattern, anchored)
  {
    LiteralFirst(path, 0, pattern, anchored);
    assert pattern[..|pattern|] == pattern && path[0..] == path;
  }

  lemma {:induction false} FitsUnanchored(path: string, pattern: string)
    ensures Fits(path, pattern, false) <==> Globs(path, 0, pattern, false)
  {
    if StarFreeLength(pattern) == |pattern| {
      PlainMatchIsExact(path, pattern, false);
    } else {
      PlacePatternIsComplete(path, pattern);
    }
  }

  lemma {:induction false} FitsAnchored(path: string, pattern: string)
    requires !LastIs(pattern, '*')
    ensures Fits(path, pattern, true) <==> Globs(path, 0, pattern, true)
  {
    var n := StarFreeLength(pattern);
    if n == |pattern| {
      PlainMatchIsExact(path, pattern, true);
    } else {
      var rest := pattern[n + 1..];
      LiteralEndHasParts(rest);
      LastPartOfRest(pattern);
      LiteralFirst(path, 0, pattern, true);
      PeelParts(pattern);
      hide Parts, Find, Globs, StarFreeLength, Place;
      assert path[0..] == path;
      assert n > 0 ==> Parts(pattern)[1..] == Parts(rest);
      if pattern[..n] <= path {
        AnchoredPlacementIsComplete(path, n, rest);
      }
    }
  }

  lemma FitsAnchoredAfterStar(path: string, pattern: string)
    requires LastIs(pattern, '*')
    ensures Fits(path, pattern, true)
        <==> Globs(path, 0, pattern, true) && (Parts(pattern) == [] || EndsWith(path, LastPart(pattern)))
  {
    PlacePatternIsComplete(path, pattern);
    FinalStarAbsorbs(path, 0, pattern);
  }

  // ---------------------------------------------------------------------------
  // When the matcher agrees with RFC 9309
  // ---------------------------------------------------------------------------

  /** The pattern's own text: all of it but the stars. */
  function LiteralText(pattern: string): string {
    if pattern == "" then ""
    else if pattern[0] == '*' then LiteralText(pattern[1..])
    else [pattern[0]] + LiteralText(pattern[1..])
  }

  /** Some text, a star, and then the final dollar. */
  predicate StarBeforeDollar(pattern: string) {
    LastTwoAre(pattern, '*', '$') && LiteralText(pattern[..|pattern| - 1]) != ""
  }

  lemma TrimOneDollar(pattern: string)
    requires pattern != "" && !LastTwoAre(pattern, '$', '$')
    ensures TrimDollars(pattern) == if LastIs(pattern, '$') then pattern[..|pattern| - 1] else pattern
  {
    if LastIs(pattern, '$') {
      assert !LastIs(pattern[..|pattern| - 1], '$');
    }
  }

  lemma {:induction false} TextOfSplit(pattern: string, n: nat)
    requires n <= |pattern|
    ensures LiteralText(pattern) == LiteralText(pattern[..n]) + LiteralText(pattern[n..])
  {
    if n == 0 {
      assert pattern[..0] == "" && pattern[0..] == pattern;
    } else {
      assert pattern[..n][1..] == pattern[1..][..n - 1] && pattern[n..] == pattern[1..][n - 1..];
      TextOfSplit(pattern[1..], n - 1);
    }
  }

  lemma {:induction false} TextOfLiteral(literal: string)
    requires forall k :: 0 <= k < |literal| ==> literal[k] != '*'
    ensures LiteralText(literal) == literal
  {
    if literal != "" {
      TextOfLiteral(literal[1..]);
    }
  }

  lemma TextAfterFirstStar(pattern: string)
    requires StarFreeLength(pattern) < |pattern|
    ensures var n := StarFreeLength(pattern); LiteralText(pattern) == pattern[..n] + LiteralText(pattern[n + 1..])
  {
    var n := StarFreeLength(pattern);
    TextOfSplit(pattern, n);
    TextOfLiteral(pattern[..n]);
    assert pattern[n..][1..] == pattern[n + 1..];
  }

  /** A pattern with text has parts, and its text ends with the last of them. */
  lemma {:induction false} TextEndsWithLastPart(pattern: string)
    ensures Parts(pattern) == [] <==> LiteralText(pattern) == ""
    ensures Parts(pattern) != [] ==> LastPart(pattern) != "" && EndsWith(LiteralText(pattern), LastPart(pattern))
    decreases |pattern|
  {
    var n := StarFreeLength(pattern);
    if n == |pattern| {
      TextOfLiteral(pattern);
      assert pattern[..n] == pattern;
    } else {
      var rest := pattern[n + 1..];
      TextAfterFirstStar(pattern);
      TextEndsWithLastPart(rest);
      PeelParts(pattern);
      hide Parts, LiteralText, StarFreeLength;
      if Parts(rest) != [] {
        LastPartOfRest(pattern);
      }
    }
  }

  /** With at most one trailing dollar the matcher is sound, and exact but for `StarBeforeDollar`. */
  lemma MatcherMeetsRfc(path: string, pattern: string)
    requires pattern != "" && !LastTwoAre(pattern, '$', '$')
    ensures RobotsMatches(path, pattern) ==> RfcMatch(path, pattern)
    ensures !StarBeforeDollar(pattern) ==> (RobotsMatches(path, pattern) <==> RfcMatch(path, pattern))
  {
    TrimOneDollar(pattern);
    var trimmed := TrimDollars(pattern);
    if pattern[|pattern| - 1] != '$' {
      FitsUnanchored(path, trimmed);
    } else if LastIs(trimmed, '*') {
      FitsAnchoredAfterStar(path, trimmed);
      TextEndsWithLastPart(trimmed);
    } else {
      FitsAnchored(path, trimmed);
    }
  }

  /** The pattern's own text matches it, with anything after. */
  lemma {:induction false} OwnTextMatches(path: string, pos: nat, pattern: string)
    requires pos <= |path| && LiteralText(pattern) <= path[pos..]
    ensures Globs(path, pos, pattern, false)
    decreases |pattern|
  {
    if pattern != "" {
      if pattern[0] == '*' {
        OwnTextMatches(path, pos, pattern[1..]);
        StarMeaning(path, pos, pattern, false);
      } else {
        assert path[pos] == LiteralText(pattern)[0];
        assert LiteralText(pattern)[1..] <= path[pos..][1..];
        assert path[pos..][1..] == path[pos + 1..];
        OwnTextMatches(path, pos + 1, pattern[1..]);
      }
    }
  }

  lemma {:induction false} MatchNeedsOwnText(path: string, pos: nat, pattern: string, anchored: bool)
    requires pos <= |path| && Globs(path, pos, pattern, anchored)
    ensures |LiteralText(pattern)| <= |path| - pos
    decreases |pattern|
  {
    if pattern != "" {
      if pattern[0] == '*' {
        var rest := pattern[1..];
        StarMeaning(path, pos, pattern, anchored);
        var k: nat :| pos <= k <= |path| && Globs(path, k, rest, anchored);
        MatchNeedsOwnText(path, k, rest, anchored);
      } else {
        MatchNeedsOwnText(path, pos + 1, pattern[1..], anchored);
      }
    }
  }

  lemma MatcherTakesOwnText(pattern: string)
    ensures Fits(LiteralText(pattern), pattern, true)
  {
    var path := LiteralText(pattern);
    if StarFreeLength(pattern) == |pattern| {
      TextOfLiteral(pattern);
    } else {
      assert path[0..] == path;
      OwnTextMatches(path, 0, pattern);
      PlacePatternIsComplete(path, pattern);
      TextEndsWithLastPart(pattern);
    }
  }

  /** Two trailing dollars: the matcher drops both and takes a path that lacks the literal one. */
  lemma TwoDollarsAreUnsound(pattern: string) returns (path: string)
    requires LastTwoAre(pattern, '$', '$')
    ensures RobotsMatches(path, pattern) && !RfcMatch(path, pattern)
  {
    var body := pattern[..|pattern| - 1];
    var trimmed := TrimDollars(pattern);
    assert trimmed == TrimDollars(body) == TrimDollars(body[..|body| - 1]);
    path := LiteralText(trimmed);
    MatcherTakesOwnText(trimmed);
    assert body[..|trimmed|] == trimmed;
    TextOfSplit(body, |trimmed|);
    assert body[|trimmed|..][0] == '$';
    assert |LiteralText(body)| > |path|;
    if RfcMatch(path, pattern) {
      MatchNeedsOwnText(path, 0, body, true);
    }
  }

  /** A text that ends in another character than the last part does not end with it. */
  lemma {:induction false} OtherEnd(path: string, last: string, other: char)
    requires path != "" && path[|path| - 1] == other && last != "" && last[|last| - 1] != other
    ensures !EndsWith(path, last)
  {
    if |last| <= |path| {
      assert path[|path| - |last|..][|last| - 1] == other;
    }
  }

  /** A star before the final dollar: the path may go on, but the matcher asks for the last text again. */
  lemma {:induction false} StarBeforeDollarIsIncomplete(pattern: string) returns (path: string)
    requires StarBeforeDollar(pattern)
    ensures RfcMatch(path, pattern) && !RobotsMatches(path, pattern)
  {
    var trimmed := pattern[..|pattern| - 1];
    TrimOneDollar(pattern);
    TextEndsWithLastPart(trimmed);
    var last := LastPart(trimmed);
    var other := if last[|last| - 1] == 'a' then 'b' else 'a';
    path := LiteralText(trimmed) + [other];
    assert LiteralText(trimmed) <= path[0..];
    OwnTextMatches(path, 0, trimmed);
    FinalStarAbsorbs(path, 0, trimmed);
    OtherEnd(path, last, other);
    FitsAnchoredAfterStar(path, trimmed);
    hide EndsWith, Globs, Parts, Fits, LiteralText;
  }

  /** The matcher never exceeds RFC 9309 on a pattern iff the pattern does not end in two dollars. */
  lemma MatcherIsSoundIff(pattern: string)
    requires pattern != ""
    ensures (forall path: string :: RobotsMatches(path, pattern) ==> RfcMatch(path, pattern))
        <==> !LastTwoAre(pattern, '$', '$')
  {
    if LastTwoAre(pattern, '$', '$') {
      var path := TwoDollarsAreUnsound(pattern);
    } else {
      forall path: string
        ensures RobotsMatches(path, pattern) ==> RfcMatch(path, pattern)
      {
        MatcherMeetsRfc(path, pattern);
      }
    }
  }

  /** The patterns on which the matcher and RFC 9309 agree for every path. */
  lemma MatcherIsExactIff(pattern: string)
    requires pattern != ""
    ensures (forall path: string :: RobotsMatches(path, pattern) <==> RfcMatch(path, pattern))
        <==> !LastTwoAre(pattern, '$', '$') && !StarBeforeDollar(pattern)
  {
    if LastTwoAre(pattern, '$', '$') {
      var path := TwoDollarsAreUnsound(pattern);
    } else if StarBeforeDollar(pattern) {
      var path := StarBeforeDollarIsIncomplete(pattern);
    } else {
      forall path: string
        ensures RobotsMatches(path, pattern) <==> RfcMatch(path, pattern)
      {
        MatcherMeetsRfc(path, pattern);
      }
    }
  }
}
