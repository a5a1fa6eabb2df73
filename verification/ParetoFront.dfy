/**
 * The Pareto front of candidates scored by task. Scores are real numbers.
 */
module ParetoFront {

  type TaskId = string

  /** Candidates are told apart by identity, which the id stands for. */
  datatype Candidate = Candidate(id: nat, scoresByTask: map<TaskId, real>)

  // ---------------------------------------------------------------------------
  // Dominance
  // ---------------------------------------------------------------------------

  predicate Shared(a: Candidate, b: Candidate, task: TaskId) {
    task in a.scoresByTask && task in b.scoresByTask
  }

  /** At least as good on every shared task, and better on one of them. */
  ghost predicate Dominates(a: Candidate, b: Candidate) {
    && (forall t :: Shared(a, b, t) ==> a.scoresByTask[t] >= b.scoresByTask[t])
    && (exists t :: Shared(a, b, t) && a.scoresByTask[t] > b.scoresByTask[t])
  }

  /** The tasks of a candidate in the order in which they are visited. */
  ghost predicate Enumerates(tasks: seq<TaskId>, c: Candidate) {
    forall t :: t in tasks <==> t in c.scoresByTask
  }

  method DominatesByTask(a: Candidate, b: Candidate, tasks: seq<TaskId>) returns (r: bool)
    requires Enumerates(tasks, a)
    ensures r <==> Dominates(a, b)
  {
    var strictlyBetter := false;
    var overlap := 0;
    for i := 0 to |tasks|
      invariant forall j :: 0 <= j < i && Shared(a, b, tasks[j]) ==>
        a.scoresByTask[tasks[j]] >= b.scoresByTask[tasks[j]]
      invariant strictlyBetter <==>
        exists j :: 0 <= j < i && Shared(a, b, tasks[j]) && a.scoresByTask[tasks[j]] > b.scoresByTask[tasks[j]]
      invariant overlap >= 0 && (strictlyBetter ==> overlap > 0)
    {
      assert tasks[i] in tasks;
      if tasks[i] in b.scoresByTask {
        overlap := overlap + 1;
        if a.scoresByTask[tasks[i]] < b.scoresByTask[tasks[i]] {
          return false;
        }
        if a.scoresByTask[tasks[i]] > b.scoresByTask[tasks[i]] {
          strictlyBetter := true;
        }
      }
    }
    r := overlap > 0 && strictlyBetter;
  }

  /** No candidate dominates itself, and no two dominate each other, whatever their tasks. */
  lemma DominanceIsAsymmetric(a: Candidate, b: Candidate)
    ensures !Dominates(a, a)
    ensures Dominates(a, b) ==> !Dominates(b, a)
  {
    if Dominates(a, b) {
      var t :| Shared(a, b, t) && a.scoresByTask[t] > b.scoresByTask[t];
      assert Shared(b, a, t);
    }
  }

  ghost predicate SameTasks(a: Candidate, b: Candidate) {
    a.scoresByTask.Keys == b.scoresByTask.Keys
  }

  /** Among candidates of the same tasks, dominance is transitive. */
  lemma DominanceIsTransitive(a: Candidate, b: Candidate, c: Candidate)
    requires SameTasks(a, b) && SameTasks(b, c) && Dominates(a, b) && Dominates(b, c)
    ensures Dominates(a, c)
  {
    forall t | Shared(a, c, t)
      ensures a.scoresByTask[t] >= c.scoresByTask[t]
    {
      assert Shared(a, b, t) && Shared(b, c, t);
    }
    var t :| Shared(a, b, t) && a.scoresByTask[t] > b.scoresByTask[t];
    assert Shared(b, c, t) && Shared(a, c, t);
  }

  // ---------------------------------------------------------------------------
  // The front
  // ---------------------------------------------------------------------------

  predicate IsScored(c: Candidate) {
    c.scoresByTask != map[]
  }

  /** On the front: scored, and not dominated by another scored candidate. */
  ghost predicate OnFront(candidates: seq<Candidate>, c: Candidate) {
    && c in candidates && IsScored(c)
    && forall other :: other in candidates && IsScored(other) && other != c ==> !Dominates(other, c)
  }

  ghost function Front(candidates: seq<Candidate>): seq<Candidate> {
    Kept(candidates, candidates)
  }

  ghost function Kept(candidates: seq<Candidate>, some: seq<Candidate>): (kept: seq<Candidate>) {
    if some == [] then []
    else
      var last := some[|some| - 1];
      Kept(candidates, some[..|some| - 1]) + if OnFront(candidates, last) then [last] else []
  }

  lemma {:induction false} KeptCovers(candidates: seq<Candidate>, some: seq<Candidate>, c: Candidate)
    ensures c in Kept(candidates, some) <==> c in some && OnFront(candidates, c)
  {
    if some != [] {
      KeptCovers(candidates, some[..|some| - 1], c);
      assert some == some[..|some| - 1] + [some[|some| - 1]];
    }
  }

  lemma FrontCovers(candidates: seq<Candidate>, c: Candidate)
    ensures c in Front(candidates) <==> OnFront(candidates, c)
  {
    KeptCovers(candidates, candidates, c);
  }

  /** The members of the front do not dominate each other, whatever their tasks. */
  lemma FrontIsMutuallyNonDominated(candidates: seq<Candidate>, a: Candidate, b: Candidate)
    requires a in Front(candidates) && b in Front(candidates)
    ensures !Dominates(a, b)
  {
    FrontCovers(candidates, a);
    FrontCovers(candidates, b);
    DominanceIsAsymmetric(a, b);
  }

  // ---------------------------------------------------------------------------
  // Every candidate is dominated from the front
  // ---------------------------------------------------------------------------

  ghost predicate Transitive(candidates: seq<Candidate>) {
    forall x, y, z :: x in candidates && y in candidates && z in candidates ==>
      Dominates(x, y) && Dominates(y, z) ==> Dominates(x, z)
  }

  lemma SameTasksAreTransitive(candidates: seq<Candidate>)
    requires forall x, y :: x in candidates && y in candidates ==> SameTasks(x, y)
    ensures Transitive(candidates)
  {
    hide Dominates;
    forall x, y, z | x in candidates && y in candidates && z in candidates && Dominates(x, y) && Dominates(y, z)
      ensures Dominates(x, z)
    {
      DominanceIsTransitive(x, y, z);
    }
  }

  /** Following dominators upwards ends at a candidate that none of the others dominates. */
  lemma {:induction false} SomeMaximal(candidates: seq<Candidate>, c: Candidate, above: seq<Candidate>)
    returns (top: Candidate)
    requires Transitive(candidates) && c in candidates
    requires forall x :: x in candidates && Dominates(x, c) ==> x in above
    ensures top in candidates && (top == c || Dominates(top, c))
    ensures forall x :: x in candidates ==> !Dominates(x, top)
    decreases |above|
  {
    hide Dominates;
    if x :| x in candidates && Dominates(x, c) {
      var i :| 0 <= i < |above| && above[i] == x;
      var rest := above[..i] + above[i + 1..];
      forall y | y in candidates && Dominates(y, x)
        ensures y in rest
      {
        DominanceIsAsymmetric(x, x);
        var j :| 0 <= j < |above| && above[j] == y;
        assert y == if j < i then rest[j] else rest[j - 1];
      }
      top := SomeMaximal(candidates, x, rest);
    } else {
      top := c;
    }
  }

  /** Where dominance is transitive, each candidate is on the front or dominated by a member of it. */
  lemma FrontDominatesTheRest(candidates: seq<Candidate>, c: Candidate) returns (member: Candidate)
    requires c in candidates && IsScored(c) && Transitive(candidates)
    ensures member in Front(candidates) && (member == c || Dominates(member, c))
  {
    member := SomeMaximal(candidates, c, candidates);
    FrontCovers(candidates, member);
    if member != c {
      var t :| Shared(member, c, t);
    }
  }

  /** So it is for candidates scored on the same tasks, whose front is not empty. */
  lemma FrontOfSameTasks(candidates: seq<Candidate>)
    requires candidates != [] && forall i :: 0 <= i < |candidates| ==> IsScored(candidates[i])
    requires forall x, y :: x in candidates && y in candidates ==> SameTasks(x, y)
    ensures Transitive(candidates) && Front(candidates) != []
    ensures forall c :: c in candidates && c !in Front(candidates) ==>
      exists member :: member in Front(candidates) && Dominates(member, c)
  {
    hide Dominates, Front, Transitive;
    SameTasksAreTransitive(candidates);
    forall c | c in candidates
      ensures exists member :: member in Front(candidates) && (member == c || Dominates(member, c))
    {
      var member := FrontDominatesTheRest(candidates, c);
    }
    assert candidates[0] in candidates;
  }

  // ---------------------------------------------------------------------------
  // An empty front holds a circle
  // ---------------------------------------------------------------------------

  /** Who stands after place `i` in a circle of `n`. */
  function Next(i: nat, n: nat): nat {
    if i + 1 == n then 0 else i + 1
  }

  /** Each dominates the next, and the last the first. */
  ghost predicate Circle(cs: seq<Candidate>) {
    cs != [] && forall i :: 0 <= i < |cs| ==> Dominates(cs[i], cs[Next(i, |cs|)])
  }

  ghost predicate Dominated(candidates: seq<Candidate>, c: Candidate) {
    exists other :: other in candidates && IsScored(other) && Dominates(other, c)
  }

  lemma {:induction false} FrontIsTheUndominated(candidates: seq<Candidate>, c: Candidate)
    requires c in candidates && IsScored(c)
    ensures c in Front(candidates) <==> !Dominated(candidates, c)
  {
    hide Dominates, IsScored, Front;
    FrontCovers(candidates, c);
    DominanceIsAsymmetric(c, c);
  }

  ghost predicate SomeScored(candidates: seq<Candidate>) {
    exists c :: c in candidates && IsScored(c)
  }

  /** These are scored candidates of the list. */
  ghost predicate Among(cs: seq<Candidate>, candidates: seq<Candidate>) {
    forall i :: 0 <= i < |cs| ==> cs[i] in candidates && IsScored(cs[i])
  }

  /** The first dominates the second, the second the third, and so on. */
  ghost predicate Descends(walk: seq<Candidate>) {
    forall i :: 0 < i < |walk| ==> Dominates(walk[i - 1], walk[i])
  }

  lemma {:induction false} WalkCloses(walk: seq<Candidate>, j: nat)
    requires Descends(walk) && j < |walk| && Dominates(walk[j], walk[0])
    ensures Circle(walk[..j + 1])
  {
    hide Dominates;
    var circle := walk[..j + 1];
    forall i | 0 <= i < |circle|
      ensures Dominates(circle[i], circle[Next(i, |circle|)])
    {
      assert i < j ==> Dominates(walk[i + 1 - 1], walk[i + 1]);
    }
  }

  /** Everybody in the list is on the walk or still to be met. */
  ghost predicate Remain(candidates: seq<Candidate>, walk: seq<Candidate>, unmet: set<Candidate>) {
    forall c :: c in candidates ==> c in walk || c in unmet
  }

  lemma {:induction false} WalkGrows(
      candidates: seq<Candidate>, walk: seq<Candidate>, unmet: set<Candidate>, other: Candidate)
    requires walk != [] && Among(walk, candidates) && Descends(walk) && Remain(candidates, walk, unmet)
    requires Dominates(other, walk[0]) && other in candidates && IsScored(other)
    ensures
      var longer := [other] + walk;
      Among(longer, candidates) && Descends(longer) && Remain(candidates, longer, unmet - {other})
  {
    hide Dominates, IsScored;
  }

  ghost predicate AllDominated(candidates: seq<Candidate>) {
    forall c :: c in candidates && IsScored(c) ==> Dominated(candidates, c)
  }

  lemma SomeDominator(candidates: seq<Candidate>, c: Candidate) returns (other: Candidate)
    requires AllDominated(candidates) && c in candidates && IsScored(c)
    ensures other in candidates && IsScored(other) && Dominates(other, c)
  {
    other :| other in candidates && IsScored(other) && Dominates(other, c);
  }

  /** Walking up from dominator to dominator comes back to a candidate already met. */
  lemma {:induction false} WalkUp(candidates: seq<Candidate>, walk: seq<Candidate>, unmet: set<Candidate>)
    returns (circle: seq<Candidate>)
    requires AllDominated(candidates)
    requires walk != [] && Among(walk, candidates) && Descends(walk) && Remain(candidates, walk, unmet)
    ensures Circle(circle) && Among(circle, candidates)
    decreases |unmet|
  {
    hide Dominates, IsScored, Descends, Circle, AllDominated;
    var other := SomeDominator(candidates, walk[0]);
    if j :| 0 <= j < |walk| && walk[j] == other {
      circle := walk[..j + 1];
      WalkCloses(walk, j);
    } else {
      WalkGrows(candidates, walk, unmet, other);
      assert other in unmet;
      hide Among, Remain;
      circle := WalkUp(candidates, [other] + walk, unmet - {other});
    }
  }

  /** Where some candidate is scored and the front is empty, scored candidates stand in a circle. */
  lemma {:induction false} EmptyFrontHoldsCircle(candidates: seq<Candidate>) returns (circle: seq<Candidate>)
    requires SomeScored(candidates) && Front(candidates) == []
    ensures Circle(circle) && Among(circle, candidates)
  {
    hide Dominates, IsScored, Dominated, Front;
    forall c | c in candidates && IsScored(c)
      ensures Dominated(candidates, c)
    {
      FrontIsTheUndominated(candidates, c);
    }
    assert AllDominated(candidates);
    var c :| c in candidates && IsScored(c);
    circle := WalkUp(candidates, [c], set x | x in candidates);
  }

  lemma {:induction false} CircleIsDominated(cs: seq<Candidate>, i: nat)
    requires Circle(cs) && i < |cs|
    ensures IsScored(cs[i]) && Dominated(cs, cs[i])
  {
    var k := if i == 0 then |cs| - 1 else i - 1;
    assert Next(k, |cs|) == i && Dominates(cs[k], cs[i]);
    var t :| Shared(cs[k], cs[i], t);
  }

  /** Of candidates in a circle, nobody is on the front. */
  lemma {:induction false} CircleEmptiesFront(cs: seq<Candidate>)
    requires Circle(cs)
    ensures SomeScored(cs) && Front(cs) == []
  {
    CircleIsDominated(cs, 0);
    hide Circle, Dominates, IsScored, Dominated, Front;
    if Front(cs) != [] {
      var c := Front(cs)[0];
      FrontCovers(cs, c);
      var i :| 0 <= i < |cs| && cs[i] == c;
      CircleIsDominated(cs, i);
      FrontIsTheUndominated(cs, c);
    }
  }

  // ---------------------------------------------------------------------------
  // Which tasks admit a circle
  // ---------------------------------------------------------------------------

  type TaskSet = set<TaskId>

  ghost predicate HasTasks(cs: seq<Candidate>, sets: seq<TaskSet>) {
    |cs| == |sets| && forall i :: 0 <= i < |cs| ==> cs[i].scoresByTask.Keys == sets[i]
  }

  /** Candidates of these tasks may dominate each other in a circle. */
  ghost predicate MayCircle(sets: seq<TaskSet>) {
    exists cs: seq<Candidate> :: HasTasks(cs, sets) && Circle(cs)
  }

  ghost predicate LackedAt(sets: seq<TaskSet>, t: TaskId, j: nat) {
    j < |sets| && t !in sets[j]
  }

  ghost predicate Lacked(sets: seq<TaskSet>, t: TaskId) {
    exists j :: LackedAt(sets, t, j)
  }

  /** The two share a task that some set of the sequence lacks. */
  ghost predicate ShareApart(sets: seq<TaskSet>, a: TaskSet, b: TaskSet) {
    exists t :: t in a && t in b && Lacked(sets, t)
  }

  ghost predicate NeighboursShareApart(sets: seq<TaskSet>) {
    forall i :: 0 <= i < |sets| ==> ShareApart(sets, sets[i], sets[Next(i, |sets|)])
  }

  /** On a task that all have, scores only fall along the circle. */
  lemma {:induction false} ScoresFall(cs: seq<Candidate>, t: TaskId, i: nat, k: nat)
    requires Circle(cs) && i <= k < |cs|
    requires forall j :: 0 <= j < |cs| ==> t in cs[j].scoresByTask
    ensures cs[i].scoresByTask[t] >= cs[k].scoresByTask[t]
    decreases k - i
  {
    if i < k {
      ScoresFall(cs, t, i + 1, k);
      assert Next(i, |cs|) == i + 1 && Dominates(cs[i], cs[i + 1]);
      assert Shared(cs[i], cs[i + 1], t);
    }
  }

  /** So none of those decides between two neighbours. */
  lemma {:induction false} DecidedApart(cs: seq<Candidate>, sets: seq<TaskSet>, i: nat)
    requires Circle(cs) && HasTasks(cs, sets) && i < |cs|
    ensures ShareApart(sets, sets[i], sets[Next(i, |sets|)])
  {
    var a, b := cs[i], cs[Next(i, |cs|)];
    var t :| Shared(a, b, t) && a.scoresByTask[t] > b.scoresByTask[t];
    if !Lacked(sets, t) {
      forall j | 0 <= j < |cs|
        ensures t in cs[j].scoresByTask
      {
        assert !LackedAt(sets, t, j);
      }
      if i + 1 < |cs| {
        var first, last := cs[0], cs[|cs| - 1];
        ScoresFall(cs, t, 0, i);
        ScoresFall(cs, t, i + 1, |cs| - 1);
        assert Next(|cs| - 1, |cs|) == 0 && Dominates(last, first);
        assert Shared(last, first, t);
      } else {
        ScoresFall(cs, t, 0, i);
      }
    }
  }

  /** How many steps place `i` is behind place `j` in a circle of `n`. */
  function StepsFrom(j: nat, i: nat, n: nat): int {
    if j <= i then i - j else i + n - j
  }

  /** The more, the longer ago somebody lacked the task. */
  ghost function Penalty(sets: seq<TaskSet>, t: TaskId, i: nat): int {
    if Lacked(sets, t) then var j :| LackedAt(sets, t, j); StepsFrom(j, i, |sets|) else 0
  }

  ghost function Falling(sets: seq<TaskSet>, i: nat): (c: Candidate)
    requires i < |sets|
    ensures c.scoresByTask.Keys == sets[i]
  {
    Candidate(i, map t | t in sets[i] :: -(Penalty(sets, t, i) as real))
  }

  lemma {:induction false} PenaltyGrows(sets: seq<TaskSet>, t: TaskId, i: nat)
    requires i < |sets| && t in sets[i] && t in sets[Next(i, |sets|)]
    ensures Penalty(sets, t, Next(i, |sets|)) == Penalty(sets, t, i) + if Lacked(sets, t) then 1 else 0
  {
    if Lacked(sets, t) {
      var j :| LackedAt(sets, t, j) && Penalty(sets, t, i) == StepsFrom(j, i, |sets|)
        && Penalty(sets, t, Next(i, |sets|)) == StepsFrom(j, Next(i, |sets|), |sets|);
    }
  }

  lemma {:induction false} FallingDominates(sets: seq<TaskSet>, i: nat)
    requires i < |sets| && ShareApart(sets, sets[i], sets[Next(i, |sets|)])
    ensures Dominates(Falling(sets, i), Falling(sets, Next(i, |sets|)))
  {
    hide Penalty, Lacked;
    var a, b := Falling(sets, i), Falling(sets, Next(i, |sets|));
    forall t | Shared(a, b, t)
      ensures a.scoresByTask[t] == b.scoresByTask[t] + if Lacked(sets, t) then 1.0 else 0.0
    {
      PenaltyGrows(sets, t, i);
    }
    var t :| t in sets[i] && t in sets[Next(i, |sets|)] && Lacked(sets, t);
    assert Shared(a, b, t);
  }

  /**
   * Candidates of these tasks may dominate each other in a circle if and only if each two neighbours
   * share a task that somebody in the circle lacks.
   */
  lemma {:induction false} CircleIff(sets: seq<TaskSet>)
    requires sets != []
    ensures MayCircle(sets) <==> NeighboursShareApart(sets)
  {
    hide Dominates, ShareApart, Falling;
    if MayCircle(sets) {
      var cs: seq<Candidate> :| HasTasks(cs, sets) && Circle(cs);
      forall i | 0 <= i < |sets|
        ensures ShareApart(sets, sets[i], sets[Next(i, |sets|)])
      {
        DecidedApart(cs, sets, i);
      }
    }
    if NeighboursShareApart(sets) {
      var cs := seq(|sets|, i requires 0 <= i < |sets| => Falling(sets, i));
      forall i | 0 <= i < |cs|
        ensures Dominates(cs[i], cs[Next(i, |cs|)])
      {
        FallingDominates(sets, i);
      }
      assert HasTasks(cs, sets) && Circle(cs);
    }
  }

  // ---------------------------------------------------------------------------
  // When the front may be empty
  // ---------------------------------------------------------------------------

  /** Every scored candidate has one of these task sets. */
  ghost predicate ScoredFrom(candidates: seq<Candidate>, family: iset<TaskSet>) {
    forall c :: c in candidates && IsScored(c) ==> c.scoresByTask.Keys in family
  }

  ghost predicate NeverEmpty(family: iset<TaskSet>) {
    forall candidates: seq<Candidate> ::
      ScoredFrom(candidates, family) && SomeScored(candidates) ==> Front(candidates) != []
  }

  ghost predicate DrawnFrom(sets: seq<TaskSet>, family: iset<TaskSet>) {
    sets != [] && forall i :: 0 <= i < |sets| ==> sets[i] in family
  }

  lemma {:induction false} EmptyFrontShowsCircle(candidates: seq<Candidate>, family: iset<TaskSet>)
    returns (sets: seq<TaskSet>)
    requires ScoredFrom(candidates, family) && SomeScored(candidates) && Front(candidates) == []
    ensures DrawnFrom(sets, family) && NeighboursShareApart(sets)
  {
    hide Dominates, IsScored, Front, NeighboursShareApart;
    var cs := EmptyFrontHoldsCircle(candidates);
    sets := seq(|cs|, i requires 0 <= i < |cs| => cs[i].scoresByTask.Keys);
    assert HasTasks(cs, sets);
    CircleIff(sets);
  }

  lemma {:induction false} CircleShowsEmptyFront(sets: seq<TaskSet>, family: iset<TaskSet>)
    returns (candidates: seq<Candidate>)
    requires DrawnFrom(sets, family) && NeighboursShareApart(sets)
    ensures ScoredFrom(candidates, family) && SomeScored(candidates) && Front(candidates) == []
  {
    hide Dominates, IsScored, Front, NeighboursShareApart, Circle;
    CircleIff(sets);
    candidates :| HasTasks(candidates, sets) && Circle(candidates);
    CircleEmptiesFront(candidates);
  }

  /**
   * With task sets of this family, the front of any candidates of which one is scored is never empty, if
   * and only if no sequence of these sets, of any length, admits a circle.
   */
  lemma {:induction false} FrontNeverEmptyIff(family: iset<TaskSet>)
    ensures NeverEmpty(family) <==> forall sets :: DrawnFrom(sets, family) ==> !NeighboursShareApart(sets)
  {
    hide ScoredFrom, SomeScored, Front, DrawnFrom, NeighboursShareApart;
    if NeverEmpty(family) {
      forall sets | DrawnFrom(sets, family)
        ensures !NeighboursShareApart(sets)
      {
        if NeighboursShareApart(sets) {
          var candidates := CircleShowsEmptyFront(sets, family);
        }
      }
    }
    if !NeverEmpty(family) {
      var candidates: seq<Candidate> :|
        ScoredFrom(candidates, family) && SomeScored(candidates) && Front(candidates) == [];
      var sets := EmptyFrontShowsCircle(candidates, family);
    }
  }
}
