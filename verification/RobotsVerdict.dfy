/**
 * The verdict on a path: which groups apply to a user agent, and which rule wins.
 */
module RobotsVerdict {
  import opened Prelude
  import opened Text
  import opened RobotsParse
  import RobotsPattern

  /** A group, with one of its agents. */
  datatype Claim = Claim(group: Group, agent: string)

  function ClaimsOf(group: Group, n: nat): (claims: seq<Claim>)
    requires n <= |group.agents|
    ensures |claims| == n && forall i :: 0 <= i < n ==> claims[i] == Claim(group, group.agents[i])
  {
    seq(n, i requires 0 <= i < n => Claim(group, group.agents[i]))
  }

  /** All agents of all groups, in their order. */
  function Claims(groups: seq<Group>): seq<Claim> {
    if groups == [] then []
    else
      var last := groups[|groups| - 1];
      Claims(groups[..|groups| - 1]) + ClaimsOf(last, |last.agents|)
  }

  function Utf8Length(s: string): nat {
    if s == "" then 0
    else
      var c := s[0] as int;
      (if c < 0x80 then 1 else if c < 0x800 then 2 else if c < 0x1_0000 then 3 else 4) + Utf8Length(s[1..])
  }

  predicate Contains(s: string, part: string)
    decreases |s|
  {
    part <= s || (s != "" && Contains(s[1..], part))
  }

  /** How well an agent names the user agent; its length is counted in bytes. */
  function AgentMatchLen(agent: string, ua: string): nat {
    if agent == "*" then 1
    else if Contains(ua, agent) then Utf8Length(agent)
    else 0
  }

  function Len(claim: Claim, ua: string): nat {
    AgentMatchLen(claim.agent, ua)
  }

  /** The longest match. */
  function Longest(claims: seq<Claim>, ua: string): (n: nat)
    ensures forall i :: 0 <= i < |claims| ==> Len(claims[i], ua) <= n
    ensures n > 0 ==> exists i :: 0 <= i < |claims| && Len(claims[i], ua) == n
  {
    if claims == [] then 0
    else
      var front, last := claims[..|claims| - 1], claims[|claims| - 1];
      var n := Longest(front, ua);
      assert forall i :: 0 <= i < |front| ==> front[i] == claims[i];
      assert n > 0 ==> exists i :: 0 <= i < |front| && Len(claims[i], ua) == n;
      if Len(last, ua) > n then Len(last, ua) else n
  }

  /** The groups of the claims of one length, once for each. */
  function Reaching(claims: seq<Claim>, ua: string, n: nat): seq<Group> {
    if claims == [] then []
    else
      var last := claims[|claims| - 1];
      Reaching(claims[..|claims| - 1], ua, n) + if Len(last, ua) == n then [last.group] else []
  }

  function MatchingGroups(groups: seq<Group>, userAgent: string): seq<Group> {
    var claims, ua := Claims(groups), Lower(userAgent);
    if Longest(claims, ua) == 0 then [] else Reaching(claims, ua, Longest(claims, ua))
  }

  // ---------------------------------------------------------------------------
  // Choosing the groups
  // ---------------------------------------------------------------------------

  /** What the loops hold after some of the claims. */
  ghost predicate Collected(claims: seq<Claim>, ua: string, bestLen: nat, matches: seq<Group>) {
    bestLen == Longest(claims, ua) && matches == if bestLen == 0 then [] else Reaching(claims, ua, bestLen)
  }

  lemma {:induction false} NoneReachesMore(claims: seq<Claim>, ua: string, n: nat)
    requires forall i :: 0 <= i < |claims| ==> Len(claims[i], ua) < n
    ensures Reaching(claims, ua, n) == []
  {
    if claims != [] {
      NoneReachesMore(claims[..|claims| - 1], ua, n);
    }
  }

  lemma CollectOne(claims: seq<Claim>, claim: Claim, ua: string, bestLen: nat, matches: seq<Group>)
    requires Collected(claims, ua, bestLen, matches)
    ensures var n := Len(claim, ua);
      && (n > bestLen ==> Collected(claims + [claim], ua, n, [claim.group]))
      && (0 < n == bestLen ==> Collected(claims + [claim], ua, bestLen, matches + [claim.group]))
      && (n < bestLen || n == 0 ==> Collected(claims + [claim], ua, bestLen, matches))
  {
    hide Len;
    var n := Len(claim, ua);
    assert (claims + [claim])[..|claims|] == claims;
    if n > bestLen {
      NoneReachesMore(claims, ua, n);
    }
  }

  lemma ClaimsOfGroup(groups: seq<Group>, i: nat)
    requires i < |groups|
    ensures Claims(groups[..i + 1]) == Claims(groups[..i]) + ClaimsOf(groups[i], |groups[i].agents|)
  {
    assert groups[..i + 1][..i] == groups[..i];
  }

  method AcceptGroupMatch(group: Group, ua: string, bestLen: nat, matches: seq<Group>, ghost before: seq<Claim>)
    returns (newBest: nat, newMatches: seq<Group>)
    requires Collected(before, ua, bestLen, matches)
    ensures Collected(before + ClaimsOf(group, |group.agents|), ua, newBest, newMatches)
  {
    hide Collected, AgentMatchLen;
    newBest, newMatches := bestLen, matches;
    assert before + ClaimsOf(group, 0) == before;
    for j := 0 to |group.agents|
      invariant Collected(before + ClaimsOf(group, j), ua, newBest, newMatches)
    {
      var claim := Claim(group, group.agents[j]);
      CollectOne(before + ClaimsOf(group, j), claim, ua, newBest, newMatches);
      assert before + ClaimsOf(group, j) + [claim] == before + ClaimsOf(group, j + 1);
      var len := AgentMatchLen(group.agents[j], ua);
      if len != 0 {
        if len > newBest {
          newBest, newMatches := len, [];
        }
        if len == newBest {
          newMatches := newMatches + [group];
          assert [] + [group] == [group];
        }
      }
    }
  }

  method FindMatchingGroups(txt: RobotsTxt, userAgent: string) returns (matches: seq<Group>)
    ensures matches == MatchingGroups(txt.groups, userAgent)
  {
    var ua := Lower(userAgent);
    var bestLen := 0;
    matches := [];
    for i := 0 to |txt.groups|
      invariant Collected(Claims(txt.groups[..i]), ua, bestLen, matches)
    {
      ClaimsOfGroup(txt.groups, i);
      bestLen, matches := AcceptGroupMatch(txt.groups[i], ua, bestLen, matches, Claims(txt.groups[..i]));
    }
    assert txt.groups[..|txt.groups|] == txt.groups;
  }

  // ---------------------------------------------------------------------------
  // Choosing the rule
  // ---------------------------------------------------------------------------

  function LiteralCount(pattern: string): nat {
    if pattern == "" then 0 else (if pattern[0] != '*' then 1 else 0) + LiteralCount(pattern[1..])
  }

  function RuleSpecificity(pattern: string): nat {
    LiteralCount(RobotsPattern.TrimDollars(pattern))
  }

  /** Comparing specificity, then permission, then order: whether `left` ranks after `right`. */
  predicate RanksAbove(left: Rule, right: Rule) {
    var m, n := RuleSpecificity(left.pattern), RuleSpecificity(right.pattern);
    m > n || (m == n && ((left.allow && !right.allow) || (left.allow == right.allow && left.order > right.order)))
  }

  /** The rules of the groups that match the path. */
  function Applicable(groups: seq<Group>, path: string): seq<Rule> {
    Filtered(AllRules(groups), path)
  }

  function Filtered(rules: seq<Rule>, path: string): seq<Rule> {
    if rules == [] then []
    else
      var last := rules[|rules| - 1];
      Filtered(rules[..|rules| - 1], path) + if RobotsPattern.RobotsMatches(path, last.pattern) then [last] else []
  }

  /** The last of the greatest, as `max_by` returns it. */
  function Best(rules: seq<Rule>): (best: Option<Rule>)
    ensures best.None? <==> rules == []
  {
    if rules == [] then None
    else
      var best, last := Best(rules[..|rules| - 1]), rules[|rules| - 1];
      if best.None? || !RanksAbove(best.value, last) then Some(last) else best
  }

  lemma {:induction false} BestIsGreatest(rules: seq<Rule>)
    ensures var best := Best(rules);
      best.Some? ==> best.value in rules && forall i :: 0 <= i < |rules| ==> !RanksAbove(rules[i], best.value)
  {
    hide RuleSpecificity;
    if rules != [] {
      var front, last := rules[..|rules| - 1], rules[|rules| - 1];
      BestIsGreatest(front);
      var best := Best(front);
      if best.Some? {
        assert rules == front + [last];
        forall i | 0 <= i < |rules|
          ensures !RanksAbove(rules[i], Best(rules).value)
        {
          assert i < |front| ==> !RanksAbove(front[i], best.value);
        }
      }
    }
  }

  lemma NoneRanksAboveBest(rules: seq<Rule>, rule: Rule)
    requires rule in rules
    ensures Best(rules).Some? && !RanksAbove(rule, Best(rules).value)
  {
    hide RanksAbove, Best;
    BestIsGreatest(rules);
    var i :| 0 <= i < |rules| && rules[i] == rule;
  }

  datatype RobotsCheck = RobotsCheck(
    allowed: bool, matchedRule: Option<string>, crawlDelay: Option<real>, sitemaps: seq<string>)

  predicate NoDelayBefore(groups: seq<Group>, i: nat) {
    forall j :: 0 <= j < i && j < |groups| ==> groups[j].crawlDelay.None?
  }

  function FirstDelay(groups: seq<Group>): (delay: Option<real>)
    ensures delay.None? ==> forall i :: 0 <= i < |groups| ==> groups[i].crawlDelay.None?
    ensures delay.Some? ==> exists i :: 0 <= i < |groups| && groups[i].crawlDelay == delay && NoDelayBefore(groups, i)
  {
    if groups == [] then None
    else if groups[0].crawlDelay.Some? then groups[0].crawlDelay
    else FirstDelay(groups[1..])
  }

  /** The check of a path; how a path is taken from a URL is not part of this model. */
  function Checked(txt: RobotsTxt, userAgent: string, path: string): RobotsCheck {
    var groups := MatchingGroups(txt.groups, userAgent);
    var best := Best(Applicable(groups, path));
    RobotsCheck(best.None? || best.value.allow, if best.Some? then Some(best.value.pattern) else None,
                FirstDelay(groups), txt.sitemaps)
  }

  method CheckRobots(txt: RobotsTxt, userAgent: string, path: string) returns (r: RobotsCheck)
    ensures r == Checked(txt, userAgent, path)
  {
    var groups := FindMatchingGroups(txt, userAgent);
    var best := Best(Applicable(groups, path));
    r := RobotsCheck(best.None? || best.value.allow, if best.Some? then Some(best.value.pattern) else None,
                     FirstDelay(groups), txt.sitemaps);
  }

  // ---------------------------------------------------------------------------
  // The chosen groups
  // ---------------------------------------------------------------------------

  /** Some agent of the group names the user agent, and no agent of any group names it at greater length. */
  ghost predicate Chosen(groups: seq<Group>, userAgent: string, g: Group) {
    && g in groups
    && exists a :: a in g.agents && AgentMatchLen(a, Lower(userAgent)) > 0 &&
         forall h, b :: h in groups && b in h.agents ==>
           AgentMatchLen(b, Lower(userAgent)) <= AgentMatchLen(a, Lower(userAgent))
  }

  lemma {:induction false} ClaimsCover(groups: seq<Group>, g: Group, a: string)
    ensures Claim(g, a) in Claims(groups) <==> g in groups && a in g.agents
  {
    if groups != [] {
      var front, last := groups[..|groups| - 1], groups[|groups| - 1];
      ClaimsCover(front, g, a);
      assert groups == front + [last];
      var own := ClaimsOf(last, |last.agents|);
      if g == last && a in g.agents {
        var i :| 0 <= i < |g.agents| && g.agents[i] == a;
        assert own[i] == Claim(g, a);
      }
    }
  }

  lemma {:induction false} ReachingCovers(claims: seq<Claim>, ua: string, n: nat, g: Group)
    ensures g in Reaching(claims, ua, n) <==> exists c :: c in claims && c.group == g && Len(c, ua) == n
  {
    if claims != [] {
      var front, last := claims[..|claims| - 1], claims[|claims| - 1];
      ReachingCovers(front, ua, n, g);
      assert claims == front + [last];
    }
  }

  /** The matching groups are exactly those that reach the longest match. */
  lemma MatchingIffChosen(groups: seq<Group>, userAgent: string, g: Group)
    ensures g in MatchingGroups(groups, userAgent) <==> Chosen(groups, userAgent, g)
  {
    var claims, ua := Claims(groups), Lower(userAgent);
    var n := Longest(claims, ua);
    ReachingCovers(claims, ua, n, g);
    hide AgentMatchLen, Claims, Reaching, Lower, Longest;
    if g in MatchingGroups(groups, userAgent) {
      var c :| c in claims && c.group == g && Len(c, ua) == n;
      ClaimsCover(groups, g, c.agent);
      forall h, b | h in groups && b in h.agents
        ensures AgentMatchLen(b, ua) <= AgentMatchLen(c.agent, ua)
      {
        BoundedByLongest(groups, ua, h, b);
      }
    }
    if Chosen(groups, userAgent, g) {
      var a :| a in g.agents && AgentMatchLen(a, ua) > 0 &&
        forall h, b :: h in groups && b in h.agents ==> AgentMatchLen(b, ua) <= AgentMatchLen(a, ua);
      BoundedByLongest(groups, ua, g, a);
      ClaimsCover(groups, g, a);
      var i :| 0 <= i < |claims| && Len(claims[i], ua) == n;
      ClaimsCover(groups, claims[i].group, claims[i].agent);
      assert claims[i] in claims && Claim(claims[i].group, claims[i].agent) == claims[i];
      assert Len(Claim(g, a), ua) == n;
    }
  }

  lemma BoundedByLongest(groups: seq<Group>, ua: string, h: Group, b: string)
    requires h in groups && b in h.agents
    ensures AgentMatchLen(b, ua) <= Longest(Claims(groups), ua)
  {
    ClaimsCover(groups, h, b);
    var claims := Claims(groups);
    var i :| 0 <= i < |claims| && claims[i] == Claim(h, b);
    assert Len(claims[i], ua) <= Longest(claims, ua);
  }

  // ---------------------------------------------------------------------------
  // The verdict
  // ---------------------------------------------------------------------------

  /** The rule stands in a chosen group and matches the path. */
  ghost predicate Applies(txt: RobotsTxt, userAgent: string, path: string, rule: Rule) {
    && RobotsPattern.RobotsMatches(path, rule.pattern)
    && exists g :: Chosen(txt.groups, userAgent, g) && rule in g.rules
  }

  lemma {:induction false} AllRulesCover(groups: seq<Group>, rule: Rule)
    ensures rule in AllRules(groups) <==> exists g :: g in groups && rule in g.rules
  {
    if groups != [] {
      var front, last := groups[..|groups| - 1], groups[|groups| - 1];
      AllRulesCover(front, rule);
      assert groups == front + [last];
    }
  }

  lemma {:induction false} FilteredCovers(rules: seq<Rule>, path: string, rule: Rule)
    ensures rule in Filtered(rules, path) <==> rule in rules && RobotsPattern.RobotsMatches(path, rule.pattern)
  {
    if rules != [] {
      var front, last := rules[..|rules| - 1], rules[|rules| - 1];
      FilteredCovers(front, path, rule);
      assert rules == front + [last];
    }
  }

  lemma ApplicableIffApplies(txt: RobotsTxt, userAgent: string, path: string, rule: Rule)
    ensures rule in Applicable(MatchingGroups(txt.groups, userAgent), path) <==> Applies(txt, userAgent, path, rule)
  {
    var groups := MatchingGroups(txt.groups, userAgent);
    FilteredCovers(AllRules(groups), path, rule);
    AllRulesCover(groups, rule);
    hide Chosen, MatchingGroups, AllRules, Filtered;
    forall g
      ensures g in groups <==> Chosen(txt.groups, userAgent, g)
    {
      MatchingIffChosen(txt.groups, userAgent, g);
    }
  }

  /** A matching rule that allows the path and is at least as specific as every matching one that does not. */
  ghost predicate Prevails(txt: RobotsTxt, userAgent: string, path: string, rule: Rule) {
    && rule.allow && Applies(txt, userAgent, path, rule)
    && forall other :: Applies(txt, userAgent, path, other) && !other.allow ==>
         RuleSpecificity(rule.pattern) >= RuleSpecificity(other.pattern)
  }

  ghost predicate NoneApplies(txt: RobotsTxt, userAgent: string, path: string) {
    forall rule :: !Applies(txt, userAgent, path, rule)
  }

  ghost predicate SomePrevails(txt: RobotsTxt, userAgent: string, path: string) {
    exists rule :: Prevails(txt, userAgent, path, rule)
  }

  /** A path is allowed if and only if no rule applies, or one that allows it prevails. */
  lemma AllowedIff(txt: RobotsTxt, userAgent: string, path: string)
    ensures Checked(txt, userAgent, path).allowed <==>
      NoneApplies(txt, userAgent, path) || SomePrevails(txt, userAgent, path)
  {
    var rules := Applicable(MatchingGroups(txt.groups, userAgent), path);
    forall rule
      ensures rule in rules <==> Applies(txt, userAgent, path, rule)
    {
      ApplicableIffApplies(txt, userAgent, path, rule);
    }
    hide Applies, Applicable, MatchingGroups, RuleSpecificity, Best;
    var best := Best(rules);
    BestIsGreatest(rules);
    if best.None? {
      assert forall rule :: Applies(txt, userAgent, path, rule) ==> rule in rules;
    } else {
      assert Applies(txt, userAgent, path, best.value);
      forall rule | Applies(txt, userAgent, path, rule)
        ensures !RanksAbove(rule, best.value)
      {
        NoneRanksAboveBest(rules, rule);
      }
      if best.value.allow {
        assert Prevails(txt, userAgent, path, best.value);
      }
    }
  }

  // ---------------------------------------------------------------------------
  // What a text says, however it is arranged
  // ---------------------------------------------------------------------------

  ghost predicate NamesAgent(txt: RobotsTxt, agent: string) {
    exists g :: g in txt.groups && agent in g.agents
  }

  ghost predicate HasRule(g: Group, allow: bool, pattern: string) {
    exists r :: r in g.rules && r.allow == allow && r.pattern == pattern
  }

  /** Some group of the agent holds such a rule. */
  ghost predicate Tells(txt: RobotsTxt, agent: string, allow: bool, pattern: string) {
    exists g :: g in txt.groups && agent in g.agents && HasRule(g, allow, pattern)
  }

  /** The same agents are named and told the same, in whatever groups, order and numbering. */
  ghost predicate SayTheSame(one: RobotsTxt, other: RobotsTxt) {
    && (forall agent :: NamesAgent(one, agent) <==> NamesAgent(other, agent))
    && (forall agent, allow, pattern :: Tells(one, agent, allow, pattern) <==> Tells(other, agent, allow, pattern))
  }

  ghost predicate AreAlike(g: Group, h: Group) {
    && (forall agent :: agent in g.agents <==> agent in h.agents)
    && (forall allow, pattern :: HasRule(g, allow, pattern) <==> HasRule(h, allow, pattern))
  }

  /** Every group of the one text has its like in the other. */
  ghost predicate LikesIn(one: RobotsTxt, other: RobotsTxt) {
    forall g :: g in one.groups ==> exists h :: h in other.groups && AreAlike(g, h)
  }

  /** Groups in another order, with their agents and rules in another order and renumbered, say the same. */
  lemma RearrangedSaysTheSame(one: RobotsTxt, other: RobotsTxt)
    requires LikesIn(one, other) && LikesIn(other, one)
    ensures SayTheSame(one, other)
  {
    LikesTell(one, other);
    LikesTell(other, one);
  }

  lemma LikesTell(one: RobotsTxt, other: RobotsTxt)
    requires LikesIn(one, other)
    ensures forall agent :: NamesAgent(one, agent) ==> NamesAgent(other, agent)
    ensures forall agent, allow, pattern :: Tells(one, agent, allow, pattern) ==> Tells(other, agent, allow, pattern)
  {
    hide HasRule;
    forall agent | NamesAgent(one, agent)
      ensures NamesAgent(other, agent)
    {
      var g :| g in one.groups && agent in g.agents;
      var h :| h in other.groups && AreAlike(g, h);
    }
    forall agent, allow, pattern | Tells(one, agent, allow, pattern)
      ensures Tells(other, agent, allow, pattern)
    {
      var g :| g in one.groups && agent in g.agents && HasRule(g, allow, pattern);
      var h :| h in other.groups && AreAlike(g, h);
    }
  }

  /** A chosen group has an agent that names the user agent at least as well as all others do. */
  lemma ChosenBy(groups: seq<Group>, userAgent: string, g: Group) returns (agent: string)
    requires Chosen(groups, userAgent, g)
    ensures g in groups && agent in g.agents && AgentMatchLen(agent, Lower(userAgent)) > 0
    ensures forall h, b :: h in groups && b in h.agents ==>
      AgentMatchLen(b, Lower(userAgent)) <= AgentMatchLen(agent, Lower(userAgent))
  {
    hide AgentMatchLen, Lower;
    agent :| agent in g.agents && AgentMatchLen(agent, Lower(userAgent)) > 0 &&
      forall h, b :: h in groups && b in h.agents ==>
        AgentMatchLen(b, Lower(userAgent)) <= AgentMatchLen(agent, Lower(userAgent));
  }

  lemma LikeOf(one: RobotsTxt, other: RobotsTxt, userAgent: string, path: string, rule: Rule) returns (like: Rule)
    requires SayTheSame(one, other) && Applies(one, userAgent, path, rule)
    ensures Applies(other, userAgent, path, like) && like.allow == rule.allow && like.pattern == rule.pattern
  {
    var g :| Chosen(one.groups, userAgent, g) && rule in g.rules;
    var agent := ChosenBy(one.groups, userAgent, g);
    hide AgentMatchLen, Lower, Chosen;
    assert HasRule(g, rule.allow, rule.pattern) && Tells(one, agent, rule.allow, rule.pattern);
    var h :| h in other.groups && agent in h.agents && HasRule(h, rule.allow, rule.pattern);
    like :| like in h.rules && like.allow == rule.allow && like.pattern == rule.pattern;
    BestNamedIsChosen(one, other, userAgent, agent, h);
  }

  lemma BestNamedIsChosen(one: RobotsTxt, other: RobotsTxt, userAgent: string, agent: string, h: Group)
    requires SayTheSame(one, other) && h in other.groups && agent in h.agents
    requires AgentMatchLen(agent, Lower(userAgent)) > 0
    requires forall g, b :: g in one.groups && b in g.agents ==>
      AgentMatchLen(b, Lower(userAgent)) <= AgentMatchLen(agent, Lower(userAgent))
    ensures Chosen(other.groups, userAgent, h)
  {
    hide AgentMatchLen, Lower, Tells;
    forall k, b | k in other.groups && b in k.agents
      ensures AgentMatchLen(b, Lower(userAgent)) <= AgentMatchLen(agent, Lower(userAgent))
    {
      assert NamesAgent(other, b);
      var g :| g in one.groups && b in g.agents;
    }
  }

  lemma PrevailsThere(one: RobotsTxt, other: RobotsTxt, userAgent: string, path: string)
    requires SayTheSame(one, other)
    ensures SomePrevails(one, userAgent, path) ==> SomePrevails(other, userAgent, path)
    ensures NoneApplies(one, userAgent, path) ==> NoneApplies(other, userAgent, path)
  {
    hide Applies, RuleSpecificity, NamesAgent, Tells;
    if rule :| Prevails(one, userAgent, path, rule) {
      var like := LikeOf(one, other, userAgent, path, rule);
      forall against | Applies(other, userAgent, path, against) && !against.allow
        ensures RuleSpecificity(like.pattern) >= RuleSpecificity(against.pattern)
      {
        var there := LikeOf(other, one, userAgent, path, against);
      }
      assert Prevails(other, userAgent, path, like);
    }
    if rule :| Applies(other, userAgent, path, rule) {
      var there := LikeOf(other, one, userAgent, path, rule);
    }
  }

  /** Texts that say the same give the same verdict, however they are ordered, grouped, numbered or repeated. */
  lemma VerdictIgnoresOrder(one: RobotsTxt, other: RobotsTxt, userAgent: string, path: string)
    requires SayTheSame(one, other)
    ensures Checked(one, userAgent, path).allowed == Checked(other, userAgent, path).allowed
  {
    hide Checked, NoneApplies, SomePrevails, NamesAgent, Tells;
    AllowedIff(one, userAgent, path);
    AllowedIff(other, userAgent, path);
    PrevailsThere(one, other, userAgent, path);
    PrevailsThere(other, one, userAgent, path);
  }

  /** In a parsed text, the rule that decides is the only one of its rank. */
  lemma WinnerIsUnique(body: string, parseDelay: string -> Option<real>, userAgent: string, path: string)
    ensures var txt := Parsed(body, parseDelay);
      var best := Best(Applicable(MatchingGroups(txt.groups, userAgent), path));
      best.Some? ==>
        && Applies(txt, userAgent, path, best.value)
        && forall rule :: Applies(txt, userAgent, path, rule) && rule != best.value ==> RanksAbove(best.value, rule)
  {
    hide RuleSpecificity, Parsed, Best, Applicable, MatchingGroups, Applies;
    var txt := Parsed(body, parseDelay);
    ParsedIsSound(body, parseDelay);
    var rules := Applicable(MatchingGroups(txt.groups, userAgent), path);
    var best := Best(rules);
    if best.Some? {
      BestIsGreatest(rules);
      ApplicableIffApplies(txt, userAgent, path, best.value);
      forall rule | Applies(txt, userAgent, path, rule) && rule != best.value
        ensures RanksAbove(best.value, rule)
      {
        ApplicableIffApplies(txt, userAgent, path, rule);
        AppliesFromAll(txt, userAgent, path, rule);
        AppliesFromAll(txt, userAgent, path, best.value);
        OrdersDiffer(AllRules(txt.groups), rule, best.value);
        NoneRanksAboveBest(rules, rule);
      }
    }
  }

  lemma AppliesFromAll(txt: RobotsTxt, userAgent: string, path: string, rule: Rule)
    requires Applies(txt, userAgent, path, rule)
    ensures rule in AllRules(txt.groups)
  {
    AllRulesCover(txt.groups, rule);
  }

  lemma OrdersDiffer(rules: seq<Rule>, a: Rule, b: Rule)
    requires forall i, j :: 0 <= i < j < |rules| ==> rules[i].order < rules[j].order
    requires a in rules && b in rules && a != b
    ensures a.order != b.order
  {
    var i :| 0 <= i < |rules| && rules[i] == a;
    var j :| 0 <= j < |rules| && rules[j] == b;
    assert i < j || j < i;
  }

  // ---------------------------------------------------------------------------
  // Lengths and ranks
  // ---------------------------------------------------------------------------

  /** The part stands in the text at place `i`. */
  predicate StandsAt(s: string, part: string, i: nat) {
    i + |part| <= |s| && s[i..i + |part|] == part
  }

  lemma {:induction false} ContainsIff(s: string, part: string)
    ensures Contains(s, part) <==> exists i: nat :: StandsAt(s, part, i)
    decreases |s|
  {
    if part <= s {
      assert StandsAt(s, part, 0);
    } else if s != "" {
      ContainsIff(s[1..], part);
      if i: nat :| StandsAt(s[1..], part, i) {
        assert s[1..][i..i + |part|] == s[i + 1..i + 1 + |part|];
        assert StandsAt(s, part, i + 1);
      }
      if i: nat :| StandsAt(s, part, i) {
        assert i > 0 && s[1..][i - 1..i - 1 + |part|] == s[i..i + |part|];
        assert StandsAt(s[1..], part, i - 1);
      }
    } else {
      assert forall i: nat :: !StandsAt(s, part, i);
    }
  }

  /** The length in bytes adds up, and a character of 7, 11, 16 or more bits takes one to four bytes. */
  lemma {:induction false} Utf8LengthAnswers(a: string, b: string, c: char)
    ensures Utf8Length(a + b) == Utf8Length(a) + Utf8Length(b)
    ensures
      var n := c as int;
      Utf8Length([c]) == if n <= 127 then 1 else if n <= 2047 then 2 else if n <= 65535 then 3 else 4
    ensures Utf8Length("") == 0
  {
    assert [c][1..] == "";
    if a == "" {
      assert a + b == b;
    } else {
      assert (a + b)[1..] == a[1..] + b;
      Utf8LengthAnswers(a[1..], b, c);
    }
  }

  /** Of agents and user agent in lower case: the star counts as one, any other agent as long as it is, if it occurs. */
  lemma AgentLengthAnswers(agent: string, ua: string)
    ensures agent == "*" ==> AgentMatchLen(agent, ua) == 1
    ensures agent != "*" && (exists i: nat :: StandsAt(ua, agent, i)) ==> AgentMatchLen(agent, ua) == Utf8Length(agent)
    ensures agent != "*" && (forall i: nat :: !StandsAt(ua, agent, i)) ==> AgentMatchLen(agent, ua) == 0
  {
    ContainsIff(ua, agent);
  }

  /** The places of a text where no star stands. */
  function Literals(pattern: string): set<nat> {
    set i: nat | i < |pattern| && pattern[i] != '*'
  }

  lemma {:induction false} OneMoreSign(pattern: string, c: char)
    ensures LiteralCount(pattern + [c]) == LiteralCount(pattern) + if c != '*' then 1 else 0
  {
    if pattern == "" {
      assert pattern + [c] == [c] && [c][1..] == "";
    } else {
      assert (pattern + [c])[1..] == pattern[1..] + [c];
      OneMoreSign(pattern[1..], c);
    }
  }

  lemma {:induction false} CountLiterals(pattern: string)
    ensures LiteralCount(pattern) == |Literals(pattern)|
  {
    if pattern == "" {
      assert Literals(pattern) == {};
    } else {
      var n := |pattern| - 1;
      CountLiterals(pattern[..n]);
      OneMoreSign(pattern[..n], pattern[n]);
      assert pattern[..n] + [pattern[n]] == pattern;
      assert Literals(pattern) == Literals(pattern[..n]) + if pattern[n] != '*' then {n} else {};
    }
  }

  /** A rule is as specific as it has characters other than stars, less the dollars at its end. */
  lemma SpecificityAnswers(pattern: string, kept: string, dollars: nat)
    requires pattern == kept + seq(dollars, _ => '$') && (kept != "" ==> kept[|kept| - 1] != '$')
    ensures RuleSpecificity(pattern) == |Literals(kept)|
  {
    var trimmed := RobotsPattern.TrimDollars(pattern);
    assert forall k :: 0 <= k < |pattern| ==> pattern[k] == if k < |kept| then kept[k] else '$';
    assert forall k :: 0 <= k < |trimmed| ==> trimmed[k] == pattern[k];
    assert |trimmed| >= |kept|;
    assert |trimmed| <= |kept|;
    assert trimmed == kept;
    CountLiterals(kept);
  }

  /** More specific; if equal, allowing over forbidding; if still equal, later in the text. */
  lemma RankAnswers(left: Rule, right: Rule)
    ensures RanksAbove(left, right) <==>
      var m, n := RuleSpecificity(left.pattern), RuleSpecificity(right.pattern);
      m >= n && (m == n ==> (right.allow ==> left.allow) && (left.allow == right.allow ==> left.order > right.order))
  {
    hide RuleSpecificity;
  }

  /** What a check reports besides the verdict: the deciding rule, if any applies, and all sitemaps of the text. */
  lemma CheckAnswers(txt: RobotsTxt, userAgent: string, path: string)
    ensures
      var r := Checked(txt, userAgent, path);
      && r.sitemaps == txt.sitemaps
      && (r.matchedRule.None? <==> NoneApplies(txt, userAgent, path))
      && (r.matchedRule.Some? ==> exists rule ::
            && Applies(txt, userAgent, path, rule) && r.matchedRule == Some(rule.pattern) && r.allowed == rule.allow
            && forall other :: Applies(txt, userAgent, path, other) ==> !RanksAbove(other, rule))
      && r.crawlDelay == FirstDelay(MatchingGroups(txt.groups, userAgent))
  {
    var rules := Applicable(MatchingGroups(txt.groups, userAgent), path);
    forall rule
      ensures rule in rules <==> Applies(txt, userAgent, path, rule)
    {
      ApplicableIffApplies(txt, userAgent, path, rule);
    }
    hide Applies, Applicable, MatchingGroups, RanksAbove, Best, FirstDelay;
    BestIsGreatest(rules);
    forall rule | rule in rules
      ensures Best(rules).Some? && !RanksAbove(rule, Best(rules).value)
    {
      NoneRanksAboveBest(rules, rule);
    }
  }
}
