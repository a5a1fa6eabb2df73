/**
 * The robots.txt parser. Numbers are read by a function left open.
 */
module RobotsParse {
  import opened Prelude
  import opened Text

  datatype Rule = Rule(allow: bool, pattern: string, order: nat)

  datatype Group = Group(agents: seq<string>, rules: seq<Rule>, crawlDelay: Option<real>)

  datatype RobotsTxt = RobotsTxt(groups: seq<Group>, sitemaps: seq<string>)

  /** The position of a character, or the length when it does not occur. */
  function IndexOf(s: string, c: char): (i: nat)
    ensures i <= |s|
    ensures i < |s| ==> s[i] == c
    ensures forall j :: 0 <= j < i ==> s[j] != c
  {
    if s == "" || s[0] == c then 0 else 1 + IndexOf(s[1..], c)
  }

  /** The lines of a text, without their ends: a newline, or a carriage return and a newline. */
  function Lines(body: string): seq<string>
    decreases |body|
  {
    if body == "" then []
    else
      var i := IndexOf(body, '\n');
      if i == |body| then [body]
      else [if i > 0 && body[i - 1] == '\r' then body[..i - 1] else body[..i]] + Lines(body[i + 1..])
  }

  // ---------------------------------------------------------------------------
  // What the builder does, on values
  // ---------------------------------------------------------------------------

  datatype State = State(
    groups: seq<Group>, agents: seq<string>, rules: seq<Rule>, crawlDelay: Option<real>,
    sitemaps: seq<string>, order: nat, seenRule: bool)

  const START := State([], [], [], None, [], 0, false)

  function Flushed(s: State): State {
    if s.agents == [] then s.(rules := [], crawlDelay := None)
    else
      s.(groups := s.groups + [Group(s.agents, s.rules, s.crawlDelay)],
         agents := [], rules := [], crawlDelay := None)
  }

  function AfterAgent(s: State, value: string): State {
    var t := if s.seenRule then Flushed(s).(seenRule := false) else s;
    if value == "" then t else t.(agents := t.agents + [Lower(value)])
  }

  function AfterRule(s: State, allow: bool, value: string): State {
    if value == "" then s.(seenRule := true)
    else s.(seenRule := true, rules := s.rules + [Rule(allow, value, s.order)], order := s.order + 1)
  }

  function AfterDelay(s: State, delay: Option<real>): State {
    if delay.None? then s.(seenRule := true)
    else s.(seenRule := true, crawlDelay := Some(if delay.value < 0.0 then 0.0 else delay.value))
  }

  function AfterSitemap(s: State, value: string): State {
    if value == "" then s else s.(sitemaps := s.sitemaps + [value])
  }

  function AfterDirective(s: State, field: string, value: string, parseDelay: string -> Option<real>): State {
    var name := Lower(field);
    if name == "user-agent" then AfterAgent(s, value)
    else if name == "allow" || name == "disallow" then AfterRule(s, name == "allow", value)
    else if name == "crawl-delay" then AfterDelay(s, parseDelay(value))
    else if name == "sitemap" then AfterSitemap(s, value)
    else s
  }

  /** A line without its comment and the white space around it. */
  function Content(line: string): string {
    Trim(line[..IndexOf(line, '#')])
  }

  function AfterLine(s: State, line: string, parseDelay: string -> Option<real>): State {
    var text := Content(line);
    var colon := IndexOf(text, ':');
    if text == "" then Flushed(s).(seenRule := false)
    else if colon == |text| then s
    else AfterDirective(s, Trim(text[..colon]), Trim(text[colon + 1..]), parseDelay)
  }

  function AfterLines(s: State, lines: seq<string>, parseDelay: string -> Option<real>): State {
    if lines == [] then s
    else AfterLine(AfterLines(s, lines[..|lines| - 1], parseDelay), lines[|lines| - 1], parseDelay)
  }

  function Finished(s: State): RobotsTxt {
    var t := Flushed(s);
    RobotsTxt(t.groups, t.sitemaps)
  }

  function Parsed(body: string, parseDelay: string -> Option<real>): RobotsTxt {
    Finished(AfterLines(START, Lines(body), parseDelay))
  }

  // ---------------------------------------------------------------------------
  // The builder
  // ---------------------------------------------------------------------------

  class Builder {
    var groups: seq<Group>
    var agents: seq<string>
    var rules: seq<Rule>
    var crawlDelay: Option<real>
    var sitemaps: seq<string>
    var order: nat
    var seenRule: bool
    const parseDelay: string -> Option<real>

    ghost function Value(): State
      reads this
    {
      State(groups, agents, rules, crawlDelay, sitemaps, order, seenRule)
    }

    constructor (parseDelay: string -> Option<real>)
      ensures Value() == START && this.parseDelay == parseDelay
    {
      groups, agents, rules, crawlDelay, sitemaps, order, seenRule := [], [], [], None, [], 0, false;
      this.parseDelay := parseDelay;
    }

    method Flush()
      modifies this
      ensures Value() == Flushed(old(Value()))
    {
      if agents == [] {
        rules := [];
        crawlDelay := None;
        return;
      }
      groups := groups + [Group(agents, rules, crawlDelay)];
      agents, rules, crawlDelay := [], [], None;
    }

    method AcceptLine(rawLine: string)
      modifies this
      ensures Value() == AfterLine(old(Value()), rawLine, parseDelay)
    {
      var line := Content(rawLine);
      if line == "" {
        Flush();
        seenRule := false;
        return;
      }
      var colon := IndexOf(line, ':');
      if colon == |line| {
        return;
      }
      AcceptDirective(Trim(line[..colon]), Trim(line[colon + 1..]));
    }

    method AcceptDirective(field: string, value: string)
      modifies this
      ensures Value() == AfterDirective(old(Value()), field, value, parseDelay)
    {
      match Lower(field) {
        case "user-agent" => AcceptAgent(value);
        case "allow" => AcceptRule(field, value);
        case "disallow" => AcceptRule(field, value);
        case "crawl-delay" => AcceptDelay(value);
        case "sitemap" => AcceptSitemap(value);
        case _ =>
      }
    }

    method AcceptAgent(value: string)
      modifies this
      ensures Value() == AfterAgent(old(Value()), value)
    {
      if seenRule {
        Flush();
        seenRule := false;
      }
      if value != "" {
        agents := agents + [Lower(value)];
      }
    }

    method AcceptRule(field: string, value: string)
      modifies this
      ensures Value() == AfterRule(old(Value()), Lower(field) == "allow", value)
    {
      seenRule := true;
      if value == "" {
        return;
      }
      rules := rules + [Rule(Lower(field) == "allow", value, order)];
      order := order + 1;
    }

    method AcceptDelay(value: string)
      modifies this
      ensures Value() == AfterDelay(old(Value()), parseDelay(value))
    {
      seenRule := true;
      var delay := parseDelay(value);
      if delay.Some? {
        crawlDelay := Some(if delay.value < 0.0 then 0.0 else delay.value);
      }
    }

    method AcceptSitemap(value: string)
      modifies this
      ensures Value() == AfterSitemap(old(Value()), value)
    {
      if value != "" {
        sitemaps := sitemaps + [value];
      }
    }

    method Finish() returns (txt: RobotsTxt)
      modifies this
      ensures txt == Finished(old(Value()))
    {
      Flush();
      txt := RobotsTxt(groups, sitemaps);
    }
  }

  method ParseRobots(body: string, parseDelay: string -> Option<real>) returns (txt: RobotsTxt)
    ensures txt == Parsed(body, parseDelay)
  {
    hide Lines, AfterLine;
    var builder := new Builder(parseDelay);
    var lines := Lines(body);
    for i := 0 to |lines|
      invariant builder.parseDelay == parseDelay
      invariant builder.Value() == AfterLines(START, lines[..i], parseDelay)
    {
      assert lines[..i + 1][..i] == lines[..i];
      builder.AcceptLine(lines[i]);
    }
    assert lines[..|lines|] == lines;
    txt := builder.Finish();
  }

  // ---------------------------------------------------------------------------
  // What holds of every parsed text
  // ---------------------------------------------------------------------------

  /** The rules of all groups, in their order. */
  function AllRules(groups: seq<Group>): seq<Rule> {
    if groups == [] then [] else AllRules(groups[..|groups| - 1]) + groups[|groups| - 1].rules
  }

  ghost predicate Ordered(rules: seq<Rule>, limit: nat) {
    && (forall i :: 0 <= i < |rules| ==> rules[i].order < limit)
    && (forall i, j :: 0 <= i < j < |rules| ==> rules[i].order < rules[j].order)
  }

  predicate GoodAgent(agent: string) {
    agent != "" && IsTrimmed(agent) && Lower(agent) == agent
  }

  predicate GoodGroup(g: Group) {
    && g.agents != []
    && (forall i :: 0 <= i < |g.agents| ==> GoodAgent(g.agents[i]))
    && (forall i :: 0 <= i < |g.rules| ==> g.rules[i].pattern != "" && IsTrimmed(g.rules[i].pattern))
    && (g.crawlDelay.Some? ==> g.crawlDelay.value >= 0.0)
  }

  ghost predicate Sound(s: State) {
    && (forall i :: 0 <= i < |s.groups| ==> GoodGroup(s.groups[i]))
    && (s.agents != [] ==> GoodGroup(Group(s.agents, s.rules, s.crawlDelay)))
    && (forall i :: 0 <= i < |s.rules| ==> s.rules[i].pattern != "" && IsTrimmed(s.rules[i].pattern))
    && (s.crawlDelay.Some? ==> s.crawlDelay.value >= 0.0)
    && Ordered(AllRules(s.groups) + s.rules, s.order)
    && (s.rules != [] ==> s.seenRule)
  }

  lemma {:induction false} FlushIsSound(s: State)
    requires Sound(s)
    ensures Sound(Flushed(s).(seenRule := false))
  {
    hide GoodGroup, IsTrimmed;
    if s.agents == [] {
      assert AllRules(s.groups) + s.rules == AllRules(s.groups) + s.rules;
      OrderedPrefix(AllRules(s.groups), s.rules, s.order);
      assert AllRules(s.groups) + [] == AllRules(s.groups);
    } else {
      var groups := Flushed(s).groups;
      assert groups[..|s.groups|] == s.groups;
      assert AllRules(groups) + [] == AllRules(s.groups) + s.rules;
    }
  }

  lemma OrderedPrefix(rules: seq<Rule>, more: seq<Rule>, limit: nat)
    requires Ordered(rules + more, limit)
    ensures Ordered(rules, limit)
  {
    assert forall i :: 0 <= i < |rules| ==> (rules + more)[i] == rules[i];
  }

  lemma LowerIsLower(value: string)
    requires value != "" && IsTrimmed(value)
    ensures GoodAgent(Lower(value))
  {
    assert Lower(Lower(value)) == Lower(value);
  }

  lemma {:induction false} AgentIsSound(s: State, value: string)
    requires Sound(s) && IsTrimmed(value)
    ensures Sound(AfterAgent(s, value))
  {
    hide IsTrimmed, GoodAgent;
    var t := if s.seenRule then Flushed(s).(seenRule := false) else s;
    if s.seenRule {
      FlushIsSound(s);
    }
    if value != "" {
      LowerIsLower(value);
    }
  }

  lemma {:induction false} RuleIsSound(s: State, allow: bool, value: string)
    requires Sound(s) && IsTrimmed(value)
    ensures Sound(AfterRule(s, allow, value))
  {
    hide IsTrimmed, GoodAgent, AllRules;
    if value != "" {
      var rule, all := Rule(allow, value, s.order), AllRules(s.groups) + s.rules;
      assert AllRules(s.groups) + (s.rules + [rule]) == all + [rule];
      assert Ordered(all + [rule], s.order + 1);
    }
  }

  lemma {:induction false} LineIsSound(s: State, line: string, parseDelay: string -> Option<real>)
    requires Sound(s)
    ensures Sound(AfterLine(s, line, parseDelay))
  {
    hide Trim, IsTrimmed, Flushed, AfterAgent, AfterRule, GoodAgent, AllRules;
    var text := Content(line);
    var colon := IndexOf(text, ':');
    if text == "" {
      FlushIsSound(s);
    } else if colon < |text| {
      AgentIsSound(s, Trim(text[colon + 1..]));
      RuleIsSound(s, Lower(Trim(text[..colon])) == "allow", Trim(text[colon + 1..]));
    }
  }

  lemma {:induction false} LinesAreSound(lines: seq<string>, parseDelay: string -> Option<real>)
    ensures Sound(AfterLines(START, lines, parseDelay))
  {
    if lines != [] {
      hide AfterLine, Sound;
      LinesAreSound(lines[..|lines| - 1], parseDelay);
      LineIsSound(AfterLines(START, lines[..|lines| - 1], parseDelay), lines[|lines| - 1], parseDelay);
    } else {
      assert AllRules([]) + [] == [];
    }
  }

  /**
   * Whatever the text: every group has an agent, agents are lower case, patterns are not empty, and the
   * order numbers of rules increase through the groups, so no two are equal.
   */
  lemma ParsedIsSound(body: string, parseDelay: string -> Option<real>)
    ensures var txt := Parsed(body, parseDelay);
      && (forall i :: 0 <= i < |txt.groups| ==> GoodGroup(txt.groups[i]))
      && forall i, j :: 0 <= i < j < |AllRules(txt.groups)| ==>
           AllRules(txt.groups)[i].order < AllRules(txt.groups)[j].order
  {
    hide GoodGroup, AllRules;
    var s := AfterLines(START, Lines(body), parseDelay);
    LinesAreSound(Lines(body), parseDelay);
    FlushIsSound(s);
    var t := Flushed(s);
    assert AllRules(t.groups) + [] == AllRules(t.groups);
    assert Ordered(AllRules(t.groups), t.order);
  }

  // ---------------------------------------------------------------------------
  // Written groups are read back
  // ---------------------------------------------------------------------------

  function Line(field: string, value: string): string {
    field + (": " + value)
  }

  function AgentLines(agents: seq<string>): (lines: seq<string>)
    ensures |lines| == |agents|
  {
    if agents == [] then [] else AgentLines(agents[..|agents| - 1]) + [Line("user-agent", agents[|agents| - 1])]
  }

  function RuleLine(rule: Rule): string {
    Line(if rule.allow then "allow" else "disallow", rule.pattern)
  }

  function RuleLines(rules: seq<Rule>): (lines: seq<string>)
    ensures |lines| == |rules|
  {
    if rules == [] then [] else RuleLines(rules[..|rules| - 1]) + [RuleLine(rules[|rules| - 1])]
  }

  function DelayLines(delay: Option<real>, showDelay: real -> string): seq<string> {
    if delay.None? then [] else [Line("crawl-delay", showDelay(delay.value))]
  }

  function DirectiveLines(g: Group, showDelay: real -> string): (lines: seq<string>)
    ensures |lines| == LineCount(g)
  {
    AgentLines(g.agents) + RuleLines(g.rules) + DelayLines(g.crawlDelay, showDelay)
  }

  function LineCount(g: Group): nat {
    |g.agents| + |g.rules| + if g.crawlDelay.Some? then 1 else 0
  }

  /** A blank line or a comment. */
  predicate IsGap(line: string) {
    Content(line) == "" && WholeLine(line)
  }

  ghost predicate AreGaps(gaps: seq<seq<string>>) {
    forall i, j :: 0 <= i < |gaps| && 0 <= j < |gaps[i]| ==> IsGap(gaps[i][j])
  }

  /** Each line with its gap before it. */
  function Spaced(lines: seq<string>, gaps: seq<seq<string>>): seq<string>
    requires |gaps| == |lines|
  {
    if lines == [] then []
    else
      var n := |lines| - 1;
      Spaced(lines[..n], gaps[..n]) + gaps[n] + [lines[n]]
  }

  /** A group with its gaps; it ends with a blank line. */
  function GroupLines(g: Group, gaps: seq<seq<string>>, showDelay: real -> string): seq<string>
    requires |gaps| == LineCount(g)
  {
    Spaced(DirectiveLines(g, showDelay), gaps) + [""]
  }

  predicate Fit(groups: seq<Group>, gaps: seq<seq<seq<string>>>) {
    |gaps| == |groups| && forall i :: 0 <= i < |groups| ==> |gaps[i]| == LineCount(groups[i])
  }

  function GroupsLines(groups: seq<Group>, gaps: seq<seq<seq<string>>>, showDelay: real -> string): seq<string>
    requires Fit(groups, gaps)
  {
    if groups == [] then []
    else
      var n := |groups| - 1;
      GroupsLines(groups[..n], gaps[..n], showDelay) + GroupLines(groups[n], gaps[n], showDelay)
  }

  function SitemapLines(sitemaps: seq<string>): (lines: seq<string>)
    ensures |lines| == |sitemaps|
  {
    if sitemaps == [] then []
    else SitemapLines(sitemaps[..|sitemaps| - 1]) + [Line("sitemap", sitemaps[|sitemaps| - 1])]
  }

  function Joined(lines: seq<string>): string {
    if lines == [] then "" else lines[0] + ("\n" + Joined(lines[1..]))
  }

  /** Where blank lines and comments stand: before each line of each group and each sitemap, and at the end. */
  datatype Layout = Layout(groups: seq<seq<seq<string>>>, sitemaps: seq<seq<string>>, ending: seq<string>)

  ghost predicate Fits(txt: RobotsTxt, layout: Layout) {
    && Fit(txt.groups, layout.groups) && |layout.sitemaps| == |txt.sitemaps|
    && (forall k :: 0 <= k < |layout.groups| ==> AreGaps(layout.groups[k]))
    && AreGaps(layout.sitemaps) && AreGaps([layout.ending])
  }

  ghost function WrittenLines(txt: RobotsTxt, layout: Layout, showDelay: real -> string): seq<string>
    requires Fits(txt, layout)
  {
    GroupsLines(txt.groups, layout.groups, showDelay)
      + (Spaced(SitemapLines(txt.sitemaps), layout.sitemaps) + layout.ending)
  }

  ghost function Written(txt: RobotsTxt, layout: Layout, showDelay: real -> string): string
    requires Fits(txt, layout)
  {
    Joined(WrittenLines(txt, layout, showDelay))
  }

  /** Nothing stands between the first line of a group and its last. */
  predicate IsSolid(gaps: seq<seq<string>>) {
    forall i :: 0 < i < |gaps| ==> gaps[i] == []
  }

  /** A value that a line can carry. */
  predicate Clean(value: string) {
    && value != "" && IsTrimmed(value)
    && forall i :: 0 <= i < |value| ==> value[i] != '#' && value[i] != '\n'
  }

  predicate CleanGroup(g: Group) {
    && g.agents != []
    && (forall i :: 0 <= i < |g.agents| ==> Clean(g.agents[i]) && Lower(g.agents[i]) == g.agents[i])
    && (forall i :: 0 <= i < |g.rules| ==> Clean(g.rules[i].pattern))
    && (g.crawlDelay.Some? ==> g.crawlDelay.value >= 0.0)
  }

  predicate Numbered(rules: seq<Rule>, from: nat) {
    forall i :: 0 <= i < |rules| ==> rules[i].order == from + i
  }

  /** What can be written: clean groups, with the rules numbered from zero. */
  ghost predicate Writable(txt: RobotsTxt) {
    && (forall i :: 0 <= i < |txt.groups| ==> CleanGroup(txt.groups[i]))
    && Numbered(AllRules(txt.groups), 0)
    && (forall i :: 0 <= i < |txt.sitemaps| ==> Clean(txt.sitemaps[i]))
  }

  /** This delay, if there is one, is read as it was written. */
  predicate IsReadBack(delay: Option<real>, showDelay: real -> string, parseDelay: string -> Option<real>) {
    delay.Some? ==> Clean(showDelay(delay.value)) && parseDelay(showDelay(delay.value)) == delay
  }

  /** So are the delays of the groups; no other number need be. */
  ghost predicate DelaysAreReadBack(groups: seq<Group>, showDelay: real -> string, parseDelay: string -> Option<real>) {
    forall i :: 0 <= i < |groups| ==> IsReadBack(groups[i].crawlDelay, showDelay, parseDelay)
  }

  predicate FieldName(field: string) {
    && field != "" && IsTrimmed(field) && Lower(field) == field
    && forall i :: 0 <= i < |field| ==> field[i] != '#' && field[i] != ':' && field[i] != '\n'
  }

  lemma IndexOfAbsent(s: string, c: char)
    requires forall i :: 0 <= i < |s| ==> s[i] != c
    ensures IndexOf(s, c) == |s|
  {
  }

  lemma IndexOfFirst(before: string, c: char, after: string)
    requires forall i :: 0 <= i < |before| ==> before[i] != c
    ensures IndexOf(before + ([c] + after), c) == |before|
  {
    var s := before + ([c] + after);
    assert s[|before|] == c && forall i :: 0 <= i < |before| ==> s[i] == before[i];
  }

  lemma {:induction false} ContentOfLine(field: string, value: string)
    requires FieldName(field) && Clean(value)
    ensures Content(Line(field, value)) == Line(field, value)
  {
    hide IsWhite, Trim, Lower;
    var line := Line(field, value);
    assert line[0] == field[0] && line[|line| - 1] == value[|value| - 1];
    IndexOfAbsent(line, '#');
    hide IndexOf;
    assert line[..|line|] == line;
  }

  lemma {:induction false} PartsOfLine(field: string, value: string)
    requires FieldName(field) && Clean(value)
    ensures var line := Line(field, value);
      && line != "" && IndexOf(line, ':') == |field| < |line|
      && Trim(line[..|field|]) == field && Trim(line[|field| + 1..]) == value
  {
    var line := Line(field, value);
    assert ": " + value == [':'] + (" " + value);
    IndexOfFirst(field, ':', " " + value);
    WhiteCharacters();
    TrimFront(" ", value);
    hide IsWhite, Trim, IndexOf, Lower;
    assert line[..|field|] == field && line[|field| + 1..] == " " + value;
  }

  /** A field and a clean value make a line that the builder reads as just that. */
  lemma {:induction false} LineIsRead(s: State, field: string, value: string, parseDelay: string -> Option<real>)
    requires FieldName(field) && Clean(value)
    ensures AfterLine(s, Line(field, value), parseDelay) == AfterDirective(s, field, value, parseDelay)
  {
    ContentOfLine(field, value);
    PartsOfLine(field, value);
    hide FieldName, Clean, AfterDirective, Content, Line, Trim, IndexOf;
  }

  /** One more line of this kind. */
  lemma {:induction false} NextLine(
    s: State, lines: seq<string>, field: string, value: string, parseDelay: string -> Option<real>)
    requires FieldName(field) && Clean(value)
    ensures value != "" && AfterLines(s, lines + [Line(field, value)], parseDelay)
      == AfterDirective(AfterLines(s, lines, parseDelay), field, value, parseDelay)
  {
    LineIsRead(AfterLines(s, lines, parseDelay), field, value, parseDelay);
    hide FieldName, Clean, AfterDirective, Line, AfterLine;
    assert (lines + [Line(field, value)])[..|lines|] == lines;
  }

  lemma WhiteCharacters()
    ensures IsWhite(' ') && IsWhite('\r')
  {
  }

  lemma PlainName(name: string)
    requires name != "" && forall i :: 0 <= i < |name| ==> 'a' <= name[i] <= 'z' || name[i] == '-'
    ensures FieldName(name)
  {
    assert Lower(name) == name;
  }

  lemma FieldNames()
    ensures FieldName("user-agent") && FieldName("allow") && FieldName("disallow")
    ensures FieldName("crawl-delay") && FieldName("sitemap")
  {
    hide FieldName;
    PlainName("user-agent");
    PlainName("allow");
    PlainName("disallow");
    PlainName("crawl-delay");
    PlainName("sitemap");
  }

  lemma {:induction false} LinesInTwo(s: State, a: seq<string>, b: seq<string>, parseDelay: string -> Option<real>)
    ensures AfterLines(s, a + b, parseDelay) == AfterLines(AfterLines(s, a, parseDelay), b, parseDelay)
    decreases |b|
  {
    if b == [] {
      assert a + b == a;
    } else {
      var front := b[..|b| - 1];
      LinesInTwo(s, a, front, parseDelay);
      assert (a + b)[..|a + b| - 1] == a + front;
    }
  }

  lemma FewLines(s: State, line: string, parseDelay: string -> Option<real>)
    ensures AfterLines(s, [], parseDelay) == s
    ensures AfterLines(s, [line], parseDelay) == AfterLine(s, line, parseDelay)
  {
    assert AfterLines(s, [line][..0], parseDelay) == s;
  }

  lemma {:induction false} AgentsAreRead(s: State, agents: seq<string>, parseDelay: string -> Option<real>)
    requires !s.seenRule
    requires forall i :: 0 <= i < |agents| ==> Clean(agents[i]) && Lower(agents[i]) == agents[i]
    ensures AfterLines(s, AgentLines(agents), parseDelay) == s.(agents := s.agents + agents)
  {
    hide Clean, FieldName, AfterLine, AfterLines, AfterDirective, Line;
    if agents == [] {
      FewLines(s, "", parseDelay);
      assert s.agents + agents == s.agents;
    } else {
      var front, last := agents[..|agents| - 1], agents[|agents| - 1];
      AgentsAreRead(s, front, parseDelay);
      var t := s.(agents := s.agents + front);
      FieldNames();
      NextLine(s, AgentLines(front), "user-agent", last, parseDelay);
      Directives(t, last, true, parseDelay);
      assert s.agents + agents == (s.agents + front) + [last];
    }
  }

  /** What the directives that a writer uses do. */
  lemma Directives(s: State, value: string, allow: bool, parseDelay: string -> Option<real>)
    ensures AfterDirective(s, "user-agent", value, parseDelay) == AfterAgent(s, value)
    ensures AfterDirective(s, if allow then "allow" else "disallow", value, parseDelay) == AfterRule(s, allow, value)
    ensures AfterDirective(s, "crawl-delay", value, parseDelay) == AfterDelay(s, parseDelay(value))
    ensures AfterDirective(s, "sitemap", value, parseDelay) == AfterSitemap(s, value)
  {
    FieldNames();
  }

  lemma {:induction false} RulesAreRead(s: State, rules: seq<Rule>, parseDelay: string -> Option<real>)
    requires forall i :: 0 <= i < |rules| ==> Clean(rules[i].pattern) && rules[i].order == s.order + i
    ensures AfterLines(s, RuleLines(rules), parseDelay)
      == s.(rules := s.rules + rules, order := s.order + |rules|, seenRule := s.seenRule || rules != [])
  {
    hide Clean, FieldName, AfterLine, AfterLines, AfterDirective, Line;
    if rules == [] {
      FewLines(s, "", parseDelay);
      assert s.rules + rules == s.rules;
    } else {
      var front, last := rules[..|rules| - 1], rules[|rules| - 1];
      RulesAreRead(s, front, parseDelay);
      var t := s.(rules := s.rules + front, order := s.order + |front|, seenRule := s.seenRule || front != []);
      FieldNames();
      NextLine(s, RuleLines(front), if last.allow then "allow" else "disallow", last.pattern, parseDelay);
      Directives(t, last.pattern, last.allow, parseDelay);
      assert s.rules + rules == (s.rules + front) + [last];
    }
  }

  lemma {:induction false} DelayIsRead(
    s: State, delay: Option<real>, showDelay: real -> string, parseDelay: string -> Option<real>)
    requires IsReadBack(delay, showDelay, parseDelay) && (delay.Some? ==> delay.value >= 0.0) && s.crawlDelay.None?
    ensures AfterLines(s, DelayLines(delay, showDelay), parseDelay)
      == s.(crawlDelay := delay, seenRule := s.seenRule || delay.Some?)
  {
    hide Clean, FieldName, AfterLine, AfterLines, AfterDirective, Line;
    if delay.None? {
      FewLines(s, "", parseDelay);
    } else {
      var value := showDelay(delay.value);
      FieldNames();
      LineIsRead(s, "crawl-delay", value, parseDelay);
      Directives(s, value, true, parseDelay);
      FewLines(s, Line("crawl-delay", value), parseDelay);
    }
  }

  /** Blank lines and comments close the group, however many there are. */
  lemma {:induction false} GapsAreRead(s: State, gap: seq<string>, parseDelay: string -> Option<real>)
    requires forall i :: 0 <= i < |gap| ==> IsGap(gap[i])
    ensures AfterLines(s, gap, parseDelay) == if gap == [] then s else Flushed(s).(seenRule := false)
  {
    hide Content, WholeLine;
    if gap != [] {
      GapsAreRead(s, gap[..|gap| - 1], parseDelay);
    }
  }

  lemma BlankIsGap()
    ensures IsGap("")
  {
    NothingToTrim();
    assert ""[..0] == "";
  }

  /** The state between two groups. */
  function Between(groups: seq<Group>, sitemaps: seq<string>, order: nat): State {
    State(groups, [], [], None, sitemaps, order, false)
  }

  /** The state once the lines of a group are read, and it is not closed yet. */
  lemma {:induction false} DirectivesAreRead(
    groups: seq<Group>, order: nat, g: Group, showDelay: real -> string, parseDelay: string -> Option<real>)
    returns (v: State)
    requires IsReadBack(g.crawlDelay, showDelay, parseDelay) && CleanGroup(g)
    requires Numbered(g.rules, order)
    ensures v == AfterLines(Between(groups, [], order), DirectiveLines(g, showDelay), parseDelay)
    ensures Flushed(v).(seenRule := false) == Between(groups + [g], [], order + |g.rules|)
  {
    hide Clean, AfterLines, AgentLines, RuleLines, DelayLines, IsReadBack;
    var s := Between(groups, [], order);
    var t := s.(agents := g.agents);
    assert [] + g.agents == g.agents && [] + g.rules == g.rules;
    AgentsAreRead(s, g.agents, parseDelay);
    RulesAreRead(t, g.rules, parseDelay);
    var u := t.(rules := g.rules, order := order + |g.rules|, seenRule := g.rules != []);
    DelayIsRead(u, g.crawlDelay, showDelay, parseDelay);
    v := u.(crawlDelay := g.crawlDelay, seenRule := u.seenRule || g.crawlDelay.Some?);
    LinesInTwo(s, AgentLines(g.agents), RuleLines(g.rules), parseDelay);
    LinesInTwo(s, AgentLines(g.agents) + RuleLines(g.rules), DelayLines(g.crawlDelay, showDelay), parseDelay);
  }

  /** With a gap before it and one behind it, a group is read whole. */
  lemma {:induction false} GroupIsRead(
    groups: seq<Group>, order: nat, g: Group, before: seq<string>, behind: seq<string>, showDelay: real -> string,
    parseDelay: string -> Option<real>)
    requires IsReadBack(g.crawlDelay, showDelay, parseDelay) && CleanGroup(g) && behind != []
    requires Numbered(g.rules, order)
    requires (forall i :: 0 <= i < |before| ==> IsGap(before[i])) && forall i :: 0 <= i < |behind| ==> IsGap(behind[i])
    ensures
      AfterLines(Between(groups, [], order), before + DirectiveLines(g, showDelay) + behind, parseDelay)
        == Between(groups + [g], [], order + |g.rules|)
  {
    hide AfterLines, DirectiveLines, IsReadBack, CleanGroup, IsGap;
    var s := Between(groups, [], order);
    GapsAreRead(s, before, parseDelay);
    var v := DirectivesAreRead(groups, order, g, showDelay, parseDelay);
    GapsAreRead(v, behind, parseDelay);
    LinesInTwo(s, before, DirectiveLines(g, showDelay), parseDelay);
    LinesInTwo(s, before + DirectiveLines(g, showDelay), behind, parseDelay);
  }

  lemma {:induction false} SolidIsSpaced(lines: seq<string>, gaps: seq<seq<string>>)
    requires |gaps| == |lines| && lines != [] && IsSolid(gaps)
    ensures Spaced(lines, gaps) == gaps[0] + lines
  {
    var n := |lines| - 1;
    if n > 0 {
      SolidIsSpaced(lines[..n], gaps[..n]);
    }
  }

  lemma {:induction false} SpacedInTwo(lines: seq<string>, gaps: seq<seq<string>>, i: nat) returns (rest: seq<string>)
    requires |gaps| == |lines| && i < |lines|
    ensures Spaced(lines, gaps) == Spaced(lines[..i], gaps[..i]) + gaps[i] + rest
  {
    var n := |lines| - 1;
    if i == n {
      rest := [lines[n]];
    } else {
      assert lines[..n][..i] == lines[..i] && gaps[..n][..i] == gaps[..i];
      rest := SpacedInTwo(lines[..n], gaps[..n], i);
      rest := rest + gaps[n] + [lines[n]];
    }
  }

  lemma {:induction false} FirstInnerGap(gaps: seq<seq<string>>) returns (i: nat)
    requires !IsSolid(gaps)
    ensures 0 < i < |gaps| && gaps[i] != [] && IsSolid(gaps[..i])
  {
    i := 1;
    while gaps[i] == []
      invariant 0 < i < |gaps| && forall k :: 0 < k < i ==> gaps[k] == []
      invariant exists k :: i <= k < |gaps| && gaps[k] != []
      decreases |gaps| - i
    {
      i := i + 1;
    }
  }

  /** The first `i` lines of a group. */
  function Truncated(g: Group, i: nat): Group
    requires i < LineCount(g)
  {
    if i <= |g.agents| then Group(g.agents[..i], [], None)
    else Group(g.agents, g.rules[..i - |g.agents|], None)
  }

  lemma {:induction false} AgentLinesUpTo(agents: seq<string>, i: nat)
    requires i <= |agents|
    ensures AgentLines(agents)[..i] == AgentLines(agents[..i])
  {
    var n := |agents| - 1;
    if i <= n {
      AgentLinesUpTo(agents[..n], i);
      assert agents[..n][..i] == agents[..i];
    } else {
      assert agents[..i] == agents;
    }
  }

  lemma {:induction false} RuleLinesUpTo(rules: seq<Rule>, i: nat)
    requires i <= |rules|
    ensures RuleLines(rules)[..i] == RuleLines(rules[..i])
  {
    var n := |rules| - 1;
    if i <= n {
      RuleLinesUpTo(rules[..n], i);
      assert rules[..n][..i] == rules[..i];
    } else {
      assert rules[..i] == rules;
    }
  }

  lemma {:induction false} TruncatedLines(g: Group, i: nat, showDelay: real -> string)
    requires 0 < i < LineCount(g) && CleanGroup(g)
    ensures DirectiveLines(g, showDelay)[..i] == DirectiveLines(Truncated(g, i), showDelay)
    ensures Truncated(g, i) != g && CleanGroup(Truncated(g, i))
  {
    hide Clean, AgentLines, RuleLines;
    assert RuleLines([]) == [] by { RuleLinesUpTo([], 0); }
    if i <= |g.agents| {
      AgentLinesUpTo(g.agents, i);
    } else {
      RuleLinesUpTo(g.rules, i - |g.agents|);
    }
  }

  lemma {:induction false} LineKeepsGroups(s: State, line: string, parseDelay: string -> Option<real>)
    ensures s.groups <= AfterLine(s, line, parseDelay).groups
  {
    hide Content, Lower, Trim, IndexOf;
  }

  /** Lines only add groups. */
  lemma {:induction false} GroupsGrow(s: State, lines: seq<string>, parseDelay: string -> Option<real>)
    ensures s.groups <= AfterLines(s, lines, parseDelay).groups <= Finished(AfterLines(s, lines, parseDelay)).groups
  {
    hide AfterLine;
    if lines != [] {
      GroupsGrow(s, lines[..|lines| - 1], parseDelay);
      LineKeepsGroups(AfterLines(s, lines[..|lines| - 1], parseDelay), lines[|lines| - 1], parseDelay);
    }
  }

  /** A gap inside a group closes it too early, and what is missing is not made up for. */
  lemma {:induction false} GroupIsTorn(
    groups: seq<Group>, order: nat, g: Group, gaps: seq<seq<string>>, showDelay: real -> string,
    parseDelay: string -> Option<real>) returns (torn: Group)
    requires IsReadBack(g.crawlDelay, showDelay, parseDelay) && CleanGroup(g)
    requires |gaps| == LineCount(g) && AreGaps(gaps) && !IsSolid(gaps)
    requires Numbered(g.rules, order)
    ensures torn != g
    ensures groups + [torn] <= AfterLines(Between(groups, [], order), GroupLines(g, gaps, showDelay), parseDelay).groups
  {
    hide AfterLines, DirectiveLines, IsGap, Finished;
    var i := FirstInnerGap(gaps);
    torn := Truncated(g, i);
    var lines := DirectiveLines(g, showDelay);
    TruncatedLines(g, i, showDelay);
    hide CleanGroup;
    assert gaps[..i][0] == gaps[0];
    SolidIsSpaced(lines[..i], gaps[..i]);
    var rest := SpacedInTwo(lines, gaps, i);
    var s := Between(groups, [], order);
    GroupIsRead(groups, order, torn, gaps[0], gaps[i], showDelay, parseDelay);
    var read := gaps[0] + DirectiveLines(torn, showDelay) + gaps[i];
    assert GroupLines(g, gaps, showDelay) == read + (rest + [""]);
    LinesInTwo(s, read, rest + [""], parseDelay);
    GroupsGrow(AfterLines(s, read, parseDelay), rest + [""], parseDelay);
  }

  lemma {:induction false} SolidGroupIsRead(
    groups: seq<Group>, order: nat, g: Group, gaps: seq<seq<string>>, showDelay: real -> string,
    parseDelay: string -> Option<real>)
    requires IsReadBack(g.crawlDelay, showDelay, parseDelay) && CleanGroup(g)
    requires |gaps| == LineCount(g) && AreGaps(gaps) && IsSolid(gaps)
    requires Numbered(g.rules, order)
    ensures AfterLines(Between(groups, [], order), GroupLines(g, gaps, showDelay), parseDelay)
      == Between(groups + [g], [], order + |g.rules|)
  {
    hide AfterLines, DirectiveLines, IsGap;
    SolidIsSpaced(DirectiveLines(g, showDelay), gaps);
    BlankIsGap();
    GroupIsRead(groups, order, g, gaps[0], [""], showDelay, parseDelay);
  }

  ghost predicate AllSolid(gaps: seq<seq<seq<string>>>) {
    forall k :: 0 <= k < |gaps| ==> IsSolid(gaps[k])
  }

  /** The groups and their gaps can be written, and their delays are read back. */
  ghost predicate Ready(
    groups: seq<Group>, gaps: seq<seq<seq<string>>>, showDelay: real -> string, parseDelay: string -> Option<real>)
  {
    && DelaysAreReadBack(groups, showDelay, parseDelay) && Numbered(AllRules(groups), 0)
    && (forall i :: 0 <= i < |groups| ==> CleanGroup(groups[i]))
    && (forall i :: 0 <= i < |gaps| ==> AreGaps(gaps[i]))
  }

  /** The numbers of the rules go through the groups up to the last one, and on through that. */
  lemma {:induction false} NumbersGoOn(front: seq<Group>, last: Group)
    requires Numbered(AllRules(front + [last]), 0)
    ensures Numbered(AllRules(front), 0) && Numbered(last.rules, |AllRules(front)|)
    ensures |AllRules(front + [last])| == |AllRules(front)| + |last.rules|
  {
    var groups, n := front + [last], |AllRules(front)|;
    assert groups[..|front|] == front;
    assert forall k :: 0 <= k < n ==> AllRules(groups)[k] == AllRules(front)[k];
    assert forall i :: 0 <= i < |last.rules| ==> last.rules[i] == AllRules(groups)[n + i];
  }

  /** The last group with its gaps, and those before it. */
  lemma {:induction false} LastIsReady(
    groups: seq<Group>, gaps: seq<seq<seq<string>>>, showDelay: real -> string, parseDelay: string -> Option<real>)
    returns (m: nat, n: nat)
    requires groups != [] && Fit(groups, gaps) && Ready(groups, gaps, showDelay, parseDelay)
    ensures m == |groups| - 1 && groups == groups[..m] + [groups[m]]
    ensures Fit(groups[..m], gaps[..m]) && Ready(groups[..m], gaps[..m], showDelay, parseDelay)
    ensures |gaps[m]| == LineCount(groups[m]) && AreGaps(gaps[m])
    ensures IsReadBack(groups[m].crawlDelay, showDelay, parseDelay) && CleanGroup(groups[m])
    ensures n == |AllRules(groups[..m])| && Numbered(groups[m].rules, n)
    ensures |AllRules(groups)| == n + |groups[m].rules|
    ensures AllSolid(gaps) <==> AllSolid(gaps[..m]) && IsSolid(gaps[m])
  {
    hide CleanGroup, IsReadBack, AreGaps, LineCount, AllRules, Numbered, IsSolid;
    m := |groups| - 1;
    n := |AllRules(groups[..m])|;
    assert groups == groups[..m] + [groups[m]];
    NumbersGoOn(groups[..m], groups[m]);
  }

  /** The lines before those of the last group come first. */
  lemma {:induction false} LastLines(
    s: State, groups: seq<Group>, gaps: seq<seq<seq<string>>>, m: nat, showDelay: real -> string,
    parseDelay: string -> Option<real>)
    requires Fit(groups, gaps) && m == |groups| - 1 && Fit(groups[..m], gaps[..m])
    ensures AfterLines(s, GroupsLines(groups, gaps, showDelay), parseDelay)
      == AfterLines(AfterLines(s, GroupsLines(groups[..m], gaps[..m], showDelay), parseDelay),
                    GroupLines(groups[m], gaps[m], showDelay), parseDelay)
  {
    hide AfterLines, GroupLines, LineCount;
    var before, last := GroupsLines(groups[..m], gaps[..m], showDelay), GroupLines(groups[m], gaps[m], showDelay);
    LinesInTwo(s, before, last, parseDelay);
  }

  lemma {:induction false} GroupsAreRead(
    groups: seq<Group>, gaps: seq<seq<seq<string>>>, showDelay: real -> string, parseDelay: string -> Option<real>)
    requires Fit(groups, gaps) && Ready(groups, gaps, showDelay, parseDelay) && AllSolid(gaps)
    ensures AfterLines(START, GroupsLines(groups, gaps, showDelay), parseDelay)
      == Between(groups, [], |AllRules(groups)|)
  {
    if groups != [] {
      hide AfterLines, GroupsLines, GroupLines, AllRules, Ready, Fit, AllSolid, LineCount, Numbered, AreGaps, IsSolid;
      var m, n := LastIsReady(groups, gaps, showDelay, parseDelay);
      GroupsAreRead(groups[..m], gaps[..m], showDelay, parseDelay);
      SolidGroupIsRead(groups[..m], n, groups[m], gaps[m], showDelay, parseDelay);
      LastLines(START, groups, gaps, m, showDelay, parseDelay);
    }
  }

  /** The `k`-th group that was read is not the one written. */
  predicate IsTorn(read: seq<Group>, groups: seq<Group>, k: nat) {
    k < |groups| && k < |read| && read[k] != groups[k]
  }

  lemma TornStaysTorn(read: seq<Group>, more: seq<Group>, groups: seq<Group>, m: nat, k: nat)
    requires m <= |groups| && IsTorn(read, groups[..m], k) && read <= more
    ensures IsTorn(more, groups, k)
  {
  }

  /** Some group comes out different from what was written. */
  lemma {:induction false} SomeGroupIsTorn(
    groups: seq<Group>, gaps: seq<seq<seq<string>>>, showDelay: real -> string, parseDelay: string -> Option<real>)
    returns (k: nat)
    requires Fit(groups, gaps) && Ready(groups, gaps, showDelay, parseDelay) && !AllSolid(gaps)
    ensures IsTorn(AfterLines(START, GroupsLines(groups, gaps, showDelay), parseDelay).groups, groups, k)
  {
    assert groups != [];
    hide AfterLines, GroupsLines, GroupLines, AllRules, Ready, AllSolid, LineCount, Numbered, AreGaps, IsSolid;
    hide Finished, IsReadBack, CleanGroup, Fit, IsTorn;
    var m, n := LastIsReady(groups, gaps, showDelay, parseDelay);
    LastLines(START, groups, gaps, m, showDelay, parseDelay);
    var before := AfterLines(START, GroupsLines(groups[..m], gaps[..m], showDelay), parseDelay);
    var after := AfterLines(before, GroupLines(groups[m], gaps[m], showDelay), parseDelay);
    if AllSolid(gaps[..m]) {
      GroupsAreRead(groups[..m], gaps[..m], showDelay, parseDelay);
      var torn := GroupIsTorn(groups[..m], n, groups[m], gaps[m], showDelay, parseDelay);
      k := m;
      LastIsTorn(groups, m, torn, after.groups);
    } else {
      k := SomeGroupIsTorn(groups[..m], gaps[..m], showDelay, parseDelay);
      GroupsGrow(before, GroupLines(groups[m], gaps[m], showDelay), parseDelay);
      TornStaysTorn(before.groups, after.groups, groups, m, k);
    }
  }

  lemma LastIsTorn(groups: seq<Group>, m: nat, torn: Group, read: seq<Group>)
    requires m < |groups| && torn != groups[m] && groups[..m] + [torn] <= read
    ensures IsTorn(read, groups, m)
  {
    assert (groups[..m] + [torn])[m] == torn;
  }

  lemma {:induction false} SitemapsAreRead(
    groups: seq<Group>, order: nat, sitemaps: seq<string>, gaps: seq<seq<string>>, parseDelay: string -> Option<real>)
    requires |gaps| == |sitemaps| && AreGaps(gaps)
    requires forall i :: 0 <= i < |sitemaps| ==> Clean(sitemaps[i])
    ensures AfterLines(Between(groups, [], order), Spaced(SitemapLines(sitemaps), gaps), parseDelay)
      == Between(groups, sitemaps, order)
  {
    hide Clean, FieldName, AfterLine, AfterLines, AfterDirective, Line, IsGap;
    if sitemaps == [] {
      FewLines(Between(groups, [], order), "", parseDelay);
    } else {
      var n := |sitemaps| - 1;
      var front, last := sitemaps[..n], sitemaps[n];
      SitemapsAreRead(groups, order, front, gaps[..n], parseDelay);
      var t := Between(groups, front, order);
      var before := Spaced(SitemapLines(front), gaps[..n]);
      GapsAreRead(t, gaps[n], parseDelay);
      LinesInTwo(Between(groups, [], order), before, gaps[n], parseDelay);
      FieldNames();
      NextLine(Between(groups, [], order), before + gaps[n], "sitemap", last, parseDelay);
      Directives(t, last, true, parseDelay);
      assert SitemapLines(sitemaps)[..n] == SitemapLines(front);
      assert sitemaps == front + [last];
    }
  }

  /** A line that can be told from its neighbours. */
  predicate WholeLine(line: string) {
    && (forall i :: 0 <= i < |line| ==> line[i] != '\n')
    && (line != "" ==> line[|line| - 1] != '\r')
  }

  lemma {:induction false} FirstLine(first: string, rest: string)
    requires WholeLine(first)
    ensures Lines(first + ("\n" + rest)) == [first] + Lines(rest)
  {
    var body := first + ("\n" + rest);
    assert "\n" + rest == ['\n'] + rest;
    IndexOfFirst(first, '\n', rest);
    hide IndexOf;
    assert body[..|first|] == first && body[|first| + 1..] == rest;
    assert first != "" ==> body[|first| - 1] == first[|first| - 1];
  }

  lemma {:induction false} LinesOfJoined(lines: seq<string>)
    requires forall i :: 0 <= i < |lines| ==> WholeLine(lines[i])
    ensures Lines(Joined(lines)) == lines
  {
    hide WholeLine;
    if lines != [] {
      LinesOfJoined(lines[1..]);
      FirstLine(lines[0], Joined(lines[1..]));
    }
  }

  lemma LineIsWhole(field: string, value: string)
    requires FieldName(field) && Clean(value)
    ensures WholeLine(Line(field, value))
  {
    var line := Line(field, value);
    assert line[|line| - 1] == value[|value| - 1];
    WhiteCharacters();
    hide IsWhite;
    assert forall i :: 0 <= i < |field| ==> line[i] == field[i];
    assert forall i :: 0 <= i < |value| ==> line[|field| + 2 + i] == value[i];
    assert line[|field|] == ':' && line[|field| + 1] == ' ';
  }

  ghost predicate WholeLines(lines: seq<string>) {
    forall i :: 0 <= i < |lines| ==> WholeLine(lines[i])
  }

  lemma {:induction false} AgentLinesAreWhole(agents: seq<string>)
    requires forall i :: 0 <= i < |agents| ==> Clean(agents[i])
    ensures WholeLines(AgentLines(agents))
  {
    hide Clean, WholeLine, FieldName;
    if agents != [] {
      AgentLinesAreWhole(agents[..|agents| - 1]);
      FieldNames();
      LineIsWhole("user-agent", agents[|agents| - 1]);
    }
  }

  lemma {:induction false} RuleLinesAreWhole(rules: seq<Rule>)
    requires forall i :: 0 <= i < |rules| ==> Clean(rules[i].pattern)
    ensures WholeLines(RuleLines(rules))
  {
    hide Clean, WholeLine, FieldName;
    if rules != [] {
      var last := rules[|rules| - 1];
      RuleLinesAreWhole(rules[..|rules| - 1]);
      FieldNames();
      LineIsWhole(if last.allow then "allow" else "disallow", last.pattern);
    }
  }

  lemma {:induction false} SitemapLinesAreWhole(sitemaps: seq<string>)
    requires forall i :: 0 <= i < |sitemaps| ==> Clean(sitemaps[i])
    ensures WholeLines(SitemapLines(sitemaps))
  {
    hide Clean, WholeLine, FieldName;
    if sitemaps != [] {
      SitemapLinesAreWhole(sitemaps[..|sitemaps| - 1]);
      FieldNames();
      LineIsWhole("sitemap", sitemaps[|sitemaps| - 1]);
    }
  }

  lemma {:induction false} DirectiveLinesAreWhole(
    g: Group, showDelay: real -> string, parseDelay: string -> Option<real>)
    requires CleanGroup(g) && IsReadBack(g.crawlDelay, showDelay, parseDelay)
    ensures WholeLines(DirectiveLines(g, showDelay))
  {
    hide Clean, FieldName, AgentLines, RuleLines;
    AgentLinesAreWhole(g.agents);
    RuleLinesAreWhole(g.rules);
    if g.crawlDelay.Some? {
      FieldNames();
      LineIsWhole("crawl-delay", showDelay(g.crawlDelay.value));
    }
  }

  lemma {:induction false} SpacedIsWhole(lines: seq<string>, gaps: seq<seq<string>>)
    requires |gaps| == |lines| && WholeLines(lines) && AreGaps(gaps)
    ensures WholeLines(Spaced(lines, gaps))
  {
    hide Content, WholeLine;
    if lines != [] {
      SpacedIsWhole(lines[..|lines| - 1], gaps[..|lines| - 1]);
    }
  }

  lemma {:induction false} GroupsLinesAreWhole(
    groups: seq<Group>, gaps: seq<seq<seq<string>>>, showDelay: real -> string, parseDelay: string -> Option<real>)
    requires DelaysAreReadBack(groups, showDelay, parseDelay) && Fit(groups, gaps)
    requires forall i :: 0 <= i < |groups| ==> CleanGroup(groups[i]) && AreGaps(gaps[i])
    ensures WholeLines(GroupsLines(groups, gaps, showDelay))
  {
    hide CleanGroup, IsReadBack, DirectiveLines, WholeLine, AreGaps, LineCount;
    if groups != [] {
      var n := |groups| - 1;
      GroupsLinesAreWhole(groups[..n], gaps[..n], showDelay, parseDelay);
      DirectiveLinesAreWhole(groups[n], showDelay, parseDelay);
      SpacedIsWhole(DirectiveLines(groups[n], showDelay), gaps[n]);
      BlankIsWhole();
    }
  }

  lemma BlankIsWhole()
    ensures WholeLine("")
  {
  }

  /** What is written is read line by line. */
  lemma {:induction false} WrittenIsRead(
    txt: RobotsTxt, layout: Layout, showDelay: real -> string, parseDelay: string -> Option<real>)
    requires Writable(txt) && DelaysAreReadBack(txt.groups, showDelay, parseDelay) && Fits(txt, layout)
    ensures Lines(Written(txt, layout, showDelay)) == WrittenLines(txt, layout, showDelay)
  {
    hide CleanGroup, Clean, IsReadBack, GroupsLines, SitemapLines, Joined, Lines, AllRules, Content, LineCount;
    GroupsLinesAreWhole(txt.groups, layout.groups, showDelay, parseDelay);
    SitemapLinesAreWhole(txt.sitemaps);
    SpacedIsWhole(SitemapLines(txt.sitemaps), layout.sitemaps);
    assert forall j :: 0 <= j < |layout.ending| ==> IsGap([layout.ending][0][j]);
    LinesOfJoined(WrittenLines(txt, layout, showDelay));
  }

  /** Groups and sitemaps written out are read back, rule by rule, with blank lines and comments around groups. */
  lemma {:induction false} RoundTrip(
    txt: RobotsTxt, layout: Layout, showDelay: real -> string, parseDelay: string -> Option<real>)
    requires Writable(txt) && DelaysAreReadBack(txt.groups, showDelay, parseDelay)
    requires Fits(txt, layout) && AllSolid(layout.groups)
    ensures Parsed(Written(txt, layout, showDelay), parseDelay) == txt
  {
    hide AllRules, CleanGroup, Clean, IsReadBack, GroupsLines, SitemapLines, Lines, AfterLines, Written, IsGap;
    hide LineCount, IsSolid, Spaced;
    var a, b := GroupsLines(txt.groups, layout.groups, showDelay), Spaced(SitemapLines(txt.sitemaps), layout.sitemaps);
    WrittenIsRead(txt, layout, showDelay, parseDelay);
    assert Ready(txt.groups, layout.groups, showDelay, parseDelay);
    GroupsAreRead(txt.groups, layout.groups, showDelay, parseDelay);
    SitemapsAreRead(txt.groups, |AllRules(txt.groups)|, txt.sitemaps, layout.sitemaps, parseDelay);
    var read := Between(txt.groups, txt.sitemaps, |AllRules(txt.groups)|);
    assert forall j :: 0 <= j < |layout.ending| ==> IsGap([layout.ending][0][j]);
    GapsAreRead(read, layout.ending, parseDelay);
    LinesInTwo(START, a, b + layout.ending, parseDelay);
    LinesInTwo(AfterLines(START, a, parseDelay), b, layout.ending, parseDelay);
  }

  /**
   * Groups written with blank lines and comments anywhere, as section 2.2 of RFC 9309 allows, are read back
   * if and only if none stands between the first line of a group and its last.
   */
  lemma {:induction false} RoundTripIff(
    txt: RobotsTxt, layout: Layout, showDelay: real -> string, parseDelay: string -> Option<real>)
    requires Writable(txt) && DelaysAreReadBack(txt.groups, showDelay, parseDelay) && Fits(txt, layout)
    ensures Parsed(Written(txt, layout, showDelay), parseDelay) == txt <==> AllSolid(layout.groups)
  {
    hide AllRules, CleanGroup, Clean, GroupsLines, SitemapLines, Lines, AfterLines, Written, AreGaps, IsReadBack;
    hide LineCount, IsSolid, Spaced;
    if AllSolid(layout.groups) {
      RoundTrip(txt, layout, showDelay, parseDelay);
    } else {
      var a, b := GroupsLines(txt.groups, layout.groups, showDelay),
        Spaced(SitemapLines(txt.sitemaps), layout.sitemaps) + layout.ending;
      WrittenIsRead(txt, layout, showDelay, parseDelay);
      assert Ready(txt.groups, layout.groups, showDelay, parseDelay);
      var k := SomeGroupIsTorn(txt.groups, layout.groups, showDelay, parseDelay);
      LinesInTwo(START, a, b, parseDelay);
      GroupsGrow(AfterLines(START, a, parseDelay), b, parseDelay);
    }
  }
}
