/**
 * How a line of robots.txt may look: the directive in any letter case, white space wherever it may stand, and a
 * comment behind. And what each directive does, told by the builder's fields.
 */
module RobotsLooks {
  import opened Prelude
  import opened Text
  import opened RobotsParse

  predicate IsBlank(s: string) {
    forall i :: 0 <= i < |s| ==> IsWhite(s[i])
  }

  /** What stands in a line besides its value. */
  datatype Look = Look(indent: string, field: string, behindField: string, beforeValue: string, behindValue: string,
                       comment: string)

  /** The field is spelled in any case; around field and value is white space; the comment starts with its sign. */
  predicate IsLook(look: Look) {
    && IsBlank(look.indent) && IsBlank(look.behindField) && IsBlank(look.beforeValue) && IsBlank(look.behindValue)
    && FieldName(Lower(look.field)) && (look.comment != "" ==> look.comment[0] == '#')
  }

  function LookLine(look: Look, value: string): string {
    look.indent + (look.field + (look.behindField
      + (":" + (look.beforeValue + (value + (look.behindValue + look.comment))))))
  }

  /** A value, which may be missing. */
  predicate IsValue(value: string) {
    IsTrimmed(value) && forall i :: 0 <= i < |value| ==> value[i] != '#'
  }

  // ---------------------------------------------------------------------------
  // Letter case
  // ---------------------------------------------------------------------------

  lemma LowerKeepsSigns(c: char)
    ensures IsWhite(LowerChar(c)) <==> IsWhite(c)
    ensures LowerChar(c) == '#' <==> c == '#'
    ensures LowerChar(c) == ':' <==> c == ':'
    ensures LowerChar(LowerChar(c)) == LowerChar(c)
  {
  }

  lemma LowerTwice(s: string)
    ensures Lower(Lower(s)) == Lower(s)
  {
    hide IsWhite;
    forall i | 0 <= i < |s|
      ensures LowerChar(LowerChar(s[i])) == LowerChar(s[i])
    {
      LowerKeepsSigns(s[i]);
    }
    assert Lower(Lower(s)) == Lower(s);
  }

  /** A field in any case has no sign that its name lacks. */
  lemma FieldIsPlain(field: string)
    requires FieldName(Lower(field))
    ensures field != "" && IsTrimmed(field)
    ensures forall i :: 0 <= i < |field| ==> field[i] != '#' && field[i] != ':'
  {
    hide IsWhite;
    var lower := Lower(field);
    assert |lower| == |field| && field != "";
    LowerKeepsSigns(field[0]);
    LowerKeepsSigns(field[|field| - 1]);
    forall i | 0 <= i < |field|
      ensures field[i] != '#' && field[i] != ':'
    {
      LowerKeepsSigns(field[i]);
      assert lower[i] == LowerChar(field[i]);
    }
  }

  /** The letter case of a directive does not matter. */
  lemma CaseDoesNotMatter(s: State, field: string, value: string, parseDelay: string -> Option<real>)
    ensures AfterDirective(s, field, value, parseDelay) == AfterDirective(s, Lower(field), value, parseDelay)
  {
    LowerTwice(field);
    hide Lower;
  }

  // ---------------------------------------------------------------------------
  // White space and comments
  // ---------------------------------------------------------------------------

  lemma BlankHasNoSign(s: string)
    requires IsBlank(s)
    ensures forall i :: 0 <= i < |s| ==> s[i] != '#' && s[i] != ':'
  {
    forall i | 0 <= i < |s|
      ensures s[i] != '#' && s[i] != ':'
    {
      assert IsWhite(s[i]);
    }
  }

  /** A text that begins and ends in something else than white space, with white space around it, is what is trimmed. */
  lemma TrimmedAgain(before: string, text: string, after: string)
    requires IsBlank(before) && IsBlank(after) && IsTrimmed(text)
    ensures Trim(before + (text + after)) == text
  {
    hide IsWhite, Trim;
    TrimSurrounded(before, text, after);
  }

  predicate LacksSign(s: string, c: char) {
    forall i :: 0 <= i < |s| ==> s[i] != c
  }

  lemma LacksInTwo(a: string, b: string, c: char)
    requires LacksSign(a, c) && LacksSign(b, c)
    ensures LacksSign(a + b, c)
  {
  }

  /** What a comment leaves is what stands before it. */
  lemma {:induction false} CutComment(text: string, comment: string)
    requires LacksSign(text, '#') && (comment != "" ==> comment[0] == '#')
    ensures (text + comment)[..IndexOf(text + comment, '#')] == text
  {
    if comment == "" {
      assert text + comment == text;
      IndexOfAbsent(text, '#');
    } else {
      assert comment == ['#'] + comment[1..];
      IndexOfFirst(text, '#', comment[1..]);
    }
  }

  /** The line without its indent, its comment and the white space at its end. */
  function Core(look: Look, value: string): string {
    look.field + (look.behindField + ([':'] + if value == "" then "" else look.beforeValue + value))
  }

  function Tail(look: Look, value: string): string {
    if value == "" then look.beforeValue + look.behindValue else look.behindValue
  }

  lemma LineInParts(look: Look, value: string)
    ensures LookLine(look, value) == look.indent + (Core(look, value) + Tail(look, value)) + look.comment
  {
    var colon := [':'];
    assert ":" == colon;
    var line, parts := LookLine(look, value), look.indent + (Core(look, value) + Tail(look, value)) + look.comment;
    if value == "" {
      assert look.beforeValue + ("" + (look.behindValue + look.comment)) == Tail(look, value) + look.comment;
    } else {
      assert look.beforeValue + (value + (look.behindValue + look.comment))
        == (look.beforeValue + value) + (Tail(look, value) + look.comment);
    }
    assert line == parts;
  }

  lemma {:induction false} CoreIsTrimmed(look: Look, value: string)
    requires IsLook(look) && IsValue(value)
    ensures IsTrimmed(Core(look, value)) && IsBlank(Tail(look, value))
    ensures LacksSign(look.indent + (Core(look, value) + Tail(look, value)), '#')
  {
    FieldIsPlain(look.field);
    BlankHasNoSign(look.indent);
    BlankHasNoSign(look.behindField);
    BlankHasNoSign(look.beforeValue);
    BlankHasNoSign(look.behindValue);
    LowerKeepsSigns(':');
    ColonIsNotWhite();
    hide IsWhite, FieldName, Lower;
    var core := Core(look, value);
    assert core[0] == look.field[0];
    assert core[|core| - 1] == if value == "" then ':' else value[|value| - 1];
  }

  lemma ColonIsNotWhite()
    ensures !IsWhite(':')
  {
  }

  function Behind(look: Look, value: string): string {
    if value == "" then "" else look.beforeValue + value
  }

  lemma {:induction false} ColonOfCore(look: Look, value: string)
    requires IsLook(look)
    ensures
      var core, before := Core(look, value), look.field + look.behindField;
      && IndexOf(core, ':') == |before| < |core|
      && core[..|before|] == before && core[|before| + 1..] == Behind(look, value)
  {
    FieldIsPlain(look.field);
    BlankHasNoSign(look.behindField);
    var before, core := look.field + look.behindField, Core(look, value);
    assert core == before + ([':'] + Behind(look, value));
    IndexOfFirst(before, ':', Behind(look, value));
  }

  lemma {:induction false} PartsOfCore(look: Look, value: string)
    requires IsLook(look) && IsValue(value)
    ensures
      var core := Core(look, value);
      var colon := IndexOf(core, ':');
      && core != "" && colon < |core|
      && Trim(core[..colon]) == look.field && Trim(core[colon + 1..]) == value
  {
    FieldIsPlain(look.field);
    hide IsWhite, FieldName, Lower, IndexOf, Trim, Core;
    ColonOfCore(look, value);
    TrimBack(look.field, look.behindField);
    TrimFront(look.beforeValue, value);
    NothingToTrim();
  }

  /** However a directive is spelled and spaced, and whatever comment stands behind it, it is read as itself. */
  lemma {:induction false} LookIsRead(s: State, look: Look, value: string, parseDelay: string -> Option<real>)
    requires IsLook(look) && IsValue(value)
    ensures AfterLine(s, LookLine(look, value), parseDelay) == AfterDirective(s, Lower(look.field), value, parseDelay)
  {
    LineInParts(look, value);
    CoreIsTrimmed(look, value);
    var text := look.indent + (Core(look, value) + Tail(look, value));
    CutComment(text, look.comment);
    TrimmedAgain(look.indent, Core(look, value), Tail(look, value));
    PartsOfCore(look, value);
    CaseDoesNotMatter(s, look.field, value, parseDelay);
    hide IsLook, IsValue, IsBlank, AfterDirective, LookLine, Core, Tail, Trim, IndexOf, Lower, LacksSign;
    assert Content(LookLine(look, value)) == Core(look, value);
  }

  // ---------------------------------------------------------------------------
  // What each directive does
  // ---------------------------------------------------------------------------

  /** The group is closed: it is kept if it has an agent, and its rules are lost otherwise. */
  predicate IsClosed(s: State, t: State) {
    && t.agents == [] && t.rules == [] && t.crawlDelay == None
    && t.groups == (if s.agents == [] then s.groups else s.groups + [Group(s.agents, s.rules, s.crawlDelay)])
    && t.sitemaps == s.sitemaps && t.order == s.order
  }

  /** An agent, in lower case, joins the group; behind rules it opens a new one. */
  predicate IsAgentAdded(s: State, value: string, t: State) {
    var added := if value == "" then [] else [Lower(value)];
    if s.seenRule then
      && t.groups == (if s.agents == [] then s.groups else s.groups + [Group(s.agents, s.rules, s.crawlDelay)])
      && t == State(t.groups, added, [], None, s.sitemaps, s.order, false)
    else t == State(s.groups, s.agents + added, s.rules, s.crawlDelay, s.sitemaps, s.order, false)
  }

  predicate IsRuleAdded(s: State, allow: bool, value: string, t: State) {
    if value == "" then t == State(s.groups, s.agents, s.rules, s.crawlDelay, s.sitemaps, s.order, true)
    else
      t == State(s.groups, s.agents, s.rules + [Rule(allow, value, s.order)], s.crawlDelay, s.sitemaps,
                 s.order + 1, true)
  }

  /** A number is kept, at least zero; anything else leaves the delay as it was. */
  predicate IsDelaySet(s: State, number: Option<real>, t: State) {
    && t == State(s.groups, s.agents, s.rules, t.crawlDelay, s.sitemaps, s.order, true)
    && (number.None? ==> t.crawlDelay == s.crawlDelay)
    && (number.Some? ==>
          && t.crawlDelay.Some? && t.crawlDelay.value >= 0.0 && t.crawlDelay.value >= number.value
          && (t.crawlDelay.value == number.value || t.crawlDelay.value == 0.0))
  }

  predicate IsSitemapAdded(s: State, value: string, t: State) {
    t == State(s.groups, s.agents, s.rules, s.crawlDelay,
               if value == "" then s.sitemaps else s.sitemaps + [value], s.order, s.seenRule)
  }

  /** What a line does whose field is one of the five, and that any other does nothing. */
  lemma {:induction false} DirectiveAnswers(
    s: State, look: Look, value: string, parseDelay: string -> Option<real>)
    requires IsLook(look) && IsValue(value)
    ensures
      var name, t := Lower(look.field), AfterLine(s, LookLine(look, value), parseDelay);
      && (name == "user-agent" ==> IsAgentAdded(s, value, t))
      && (name == "allow" ==> IsRuleAdded(s, true, value, t))
      && (name == "disallow" ==> IsRuleAdded(s, false, value, t))
      && (name == "crawl-delay" ==> IsDelaySet(s, parseDelay(value), t))
      && (name == "sitemap" ==> IsSitemapAdded(s, value, t))
      && (name !in {"user-agent", "allow", "disallow", "crawl-delay", "sitemap"} ==> t == s)
  {
    LookIsRead(s, look, value, parseDelay);
    LowerTwice(look.field);
    hide IsLook, IsValue, LookLine, Lower, AfterLine;
    var name := Lower(look.field);
    assert name == "user-agent" ==> AfterDirective(s, name, value, parseDelay) == AfterAgent(s, value);
    assert name == "allow" ==> AfterDirective(s, name, value, parseDelay) == AfterRule(s, true, value);
    assert name == "disallow" ==> AfterDirective(s, name, value, parseDelay) == AfterRule(s, false, value);
    assert s.agents + [] == s.agents && [] + [Lower(value)] == [Lower(value)];
  }

  /** A blank line or a comment closes the group; a line without a colon does nothing. */
  lemma {:induction false} OtherLinesAnswer(
    s: State, indent: string, words: string, comment: string, parseDelay: string -> Option<real>)
    requires IsBlank(indent) && LacksSign(words, '#') && LacksSign(words, ':')
    requires comment != "" ==> comment[0] == '#'
    ensures
      var t := AfterLine(s, indent + words + comment, parseDelay);
      if IsBlank(words) then IsClosed(s, t) && !t.seenRule else t == s
  {
    BlankHasNoSign(indent);
    var text := indent + words;
    CutComment(text, comment);
    assert Content(text + comment) == Trim(text);
    TrimFront(indent, words);
    hide IsWhite;
    TrimmedAway(words);
    IndexOfAbsent(Trim(words), ':');
    hide Trim, IndexOf;
  }

  /** Only a blank text is trimmed to nothing, and trimming adds no sign. */
  lemma {:induction false} TrimmedAway(s: string)
    ensures Trim(s) == "" <==> IsBlank(s)
    ensures LacksSign(s, ':') ==> LacksSign(Trim(s), ':')
    decreases |s|
  {
    hide IsWhite;
    if s != "" && IsWhite(s[0]) {
      TrimmedAway(s[1..]);
      assert IsBlank(s) <==> IsBlank(s[1..]);
    } else if s != "" && IsWhite(s[|s| - 1]) {
      TrimmedAway(s[..|s| - 1]);
    }
  }

  // ---------------------------------------------------------------------------
  // Whole texts in any look
  // ---------------------------------------------------------------------------

  /** The line is the plain one, or the same directive and value in another look. */
  ghost predicate Restyles(line: string, plain: string) {
    line == plain ||
    exists look: Look, value: string ::
      && IsLook(look) && Clean(value) && line == LookLine(look, value)
      && plain == Line(Lower(look.field), value)
  }

  lemma {:induction false} RestyledIsRead(s: State, line: string, plain: string, parseDelay: string -> Option<real>)
    requires Restyles(line, plain)
    ensures AfterLine(s, line, parseDelay) == AfterLine(s, plain, parseDelay)
  {
    if line != plain {
      var look: Look, value: string :|
        IsLook(look) && Clean(value) && line == LookLine(look, value) && plain == Line(Lower(look.field), value);
      hide AfterLine, AfterDirective, LookLine, Line, Lower, IsTrimmed;
      LookIsRead(s, look, value, parseDelay);
      LineIsRead(s, Lower(look.field), value, parseDelay);
    }
  }

  ghost predicate AllRestyle(lines: seq<string>, plain: seq<string>) {
    |lines| == |plain| && forall i :: 0 <= i < |lines| ==> Restyles(lines[i], plain[i])
  }

  lemma {:induction false} RestyledAreRead(
    s: State, lines: seq<string>, plain: seq<string>, parseDelay: string -> Option<real>)
    requires AllRestyle(lines, plain)
    ensures AfterLines(s, lines, parseDelay) == AfterLines(s, plain, parseDelay)
  {
    hide AfterLine, Restyles;
    if lines != [] {
      var n := |lines| - 1;
      RestyledAreRead(s, lines[..n], plain[..n], parseDelay);
      RestyledIsRead(AfterLines(s, lines[..n], parseDelay), lines[n], plain[n], parseDelay);
    }
  }

  /**
   * Groups and sitemaps written in any look, with blank lines and comments anywhere, are parsed back if and only
   * if none stands between the first line of a group and its last.
   */
  lemma {:induction false} RoundTripInAnyLook(
    txt: RobotsTxt, layout: Layout, lines: seq<string>, showDelay: real -> string,
    parseDelay: string -> Option<real>)
    requires Writable(txt) && DelaysAreReadBack(txt.groups, showDelay, parseDelay) && Fits(txt, layout)
    requires AllRestyle(lines, WrittenLines(txt, layout, showDelay)) && WholeLines(lines)
    ensures Parsed(Joined(lines), parseDelay) == txt <==> AllSolid(layout.groups)
  {
    hide Writable, DelaysAreReadBack, Fits, WrittenLines, AllSolid, Lines, Joined, AfterLines, Restyles, WholeLine;
    WrittenIsRead(txt, layout, showDelay, parseDelay);
    LinesOfJoined(lines);
    RestyledAreRead(START, lines, WrittenLines(txt, layout, showDelay), parseDelay);
    RoundTripIff(txt, layout, showDelay, parseDelay);
  }
}
