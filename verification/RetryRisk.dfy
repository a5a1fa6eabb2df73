/**
 * When an invocation may start although the output or an error is already there. Repeating
 * `ParseResponse` asks the LLM first, and what that call writes may finish the run.
 */
module RetryRisk {
  import opened Prelude
  import opened Entities
  import opened Schedules
  import opened RunSafety

  predicate StartsTerminal(attempts: seq<Attempt>) {
    exists i :: 0 <= i < |attempts| && attempts[i].terminal
  }

  // ---------------------------------------------------------------------------
  // A world in which the first risky invocation fails and its nudge finishes the run
  // ---------------------------------------------------------------------------

  function Blank(): Entity {
    Entity(None, None, None, None, None, None, None, [], Some([]), None, None, None, None, None, None, None,
           [], [], [], None, None, map[])
  }

  function FinalIs(output: Option<Json>): Writes {
    Writes(None, None, None, None, None, None, None, None, None, None, None, None, None, [], output, None, map[])
  }

  function NoHostWrites(): HostWrites {
    HostWrites(None, None, None, None, None, None, None, None, None, None, [], None, map[])
  }

  /** Nothing is written by any call but number `k`, which fails, and the next one, which finishes the run. */
  function Ambush(k: nat): World {
    World({"ParseResponse", "CallLlm"},
          (n: nat, name: string, e: Entity, args: Json) =>
            if n == k then SystemFailed(Internal("no"))
            else Delta(FinalIs(if n == k + 1 then Some("done") else None)),
          (n: nat, name: string, e: Entity, args: Json) => Response(NoHostWrites(), None),
          (error: RunError) => "")
  }

  /** How many calls a step without risk makes in such a world. */
  function QuietCalls(step: Step): nat
    requires Capped(step)
    decreases step, 1
  {
    match step
    case Invoke(_) => 1
    case Loop(_, until, _, body) => (if LoopSatisfied(Blank(), until) then 1 else Rounds(step)) * QuietCallsAll(body)
  }

  function QuietCallsAll(steps: seq<Step>): nat
    requires forall i :: 0 <= i < |steps| ==> Capped(steps[i])
    decreases steps, 0
  {
    if steps == [] then 0 else QuietCalls(steps[0]) + QuietCallsAll(steps[1..])
  }

  /**
   * If nothing is written, the first risky invocation is reached: what precedes it is capped, and the loops
   * around it are capped or have a round left.
   */
  predicate ReachesRisk(step: Step, fuel: nat)
    decreases step, 1
  {
    match step
    case Invoke(_) => true
    case Loop(_, _, maxIters, body) => (maxIters.Some? || fuel >= 1) && ReachesRiskAmong(body, fuel)
  }

  predicate ReachesRiskAmong(steps: seq<Step>, fuel: nat)
    decreases steps, 0
  {
    steps != [] ==>
      if Risky(steps[0]) then ReachesRisk(steps[0], fuel)
      else Capped(steps[0]) && ReachesRiskAmong(steps[1..], fuel)
  }

  lemma {:induction false} CappedReachesRisk(step: Step, fuel: nat)
    requires Capped(step)
    ensures ReachesRisk(step, fuel)
    decreases step, 1
  {
    if step.Loop? {
      AllCappedReachRisk(step.body, fuel);
    }
  }

  /** So it is in every schedule whose loops are capped. */
  lemma {:induction false} AllCappedReachRisk(steps: seq<Step>, fuel: nat)
    requires forall i :: 0 <= i < |steps| ==> Capped(steps[i])
    ensures ReachesRiskAmong(steps, fuel)
    decreases steps, 0
  {
    if steps != [] {
      CappedReachesRisk(steps[0], fuel);
      AllCappedReachRisk(steps[1..], fuel);
    }
  }

  /** How many calls precede the first risky one. */
  function CallsBefore(step: Step, fuel: nat): nat
    requires ReachesRisk(step, fuel)
    decreases step, 1
  {
    match step
    case Invoke(_) => 0
    case Loop(_, _, _, body) => CallsBeforeAmong(body, fuel)
  }

  function CallsBeforeAmong(steps: seq<Step>, fuel: nat): nat
    requires ReachesRiskAmong(steps, fuel)
    decreases steps, 0
  {
    if steps == [] then 0
    else if Risky(steps[0]) then CallsBefore(steps[0], fuel)
    else QuietCalls(steps[0]) + CallsBeforeAmong(steps[1..], fuel)
  }

  lemma NothingWritten()
    ensures Applied(Blank(), FinalIs(None)) == Blank() && HostApplied(Blank(), NoHostWrites(), None) == Blank()
  {
    assert Blank().trajectory + [] == Blank().trajectory;
    assert Blank().extensions + map[] == Blank().extensions;
    assert WithExtensions(map[], map[]) == map[];
  }

  /** A call before the ambush leaves the entity blank. */
  lemma QuietCall(k: nat, s: State, invocation: Invocation)
    requires s.entity == Blank() && s.calls < k
    ensures var (after, flow) := RunAttempts(Ambush(k), s, invocation, 1);
      flow == Completed && after.entity == Blank() && after.calls == s.calls + 1
  {
    NothingWritten();
    hide Blank, Applied, HostApplied;
  }

  lemma {:induction false} QuietStep(k: nat, s: State, step: Step, fuel: nat)
    requires Capped(step) && s.entity == Blank() && s.calls + QuietCalls(step) <= k
    ensures var (after, flow) := RunStep(Ambush(k), s, step, fuel);
      flow == Completed && after.entity == Blank() && after.calls == s.calls + QuietCalls(step)
    decreases step, 2, 0
  {
    match step
    case Invoke(invocation) => QuietCall(k, s, invocation);
    case Loop(_, until, _, body) =>
      hide Ambush, Blank, LoopSatisfied, RunLoop;
      var rounds := if LoopSatisfied(Blank(), until) then 1 else Rounds(step);
      assert rounds * QuietCallsAll(body) == QuietCalls(step);
      QuietLoop(k, s, step, 0, fuel);
  }

  lemma {:induction false} QuietLoop(k: nat, s: State, step: Step, iter: nat, fuel: nat)
    requires step.Loop? && Capped(step) && s.entity == Blank() && iter < Rounds(step)
    requires var left := if LoopSatisfied(Blank(), step.until) then 1 else Rounds(step) - iter;
      s.calls + left * QuietCallsAll(step.body) <= k
    ensures
      var left := if LoopSatisfied(Blank(), step.until) then 1 else Rounds(step) - iter;
      var (after, flow) := RunLoop(Ambush(k), s, step, iter, fuel);
      flow == Completed && after.entity == Blank() && after.calls == s.calls + left * QuietCallsAll(step.body)
    decreases step, 1, RoundsLeft(step, iter, fuel)
  {
    hide Ambush, Blank, LoopSatisfied, QuietCallsAll;
    var left := if LoopSatisfied(Blank(), step.until) then 1 else Rounds(step) - iter;
    OneRound(left, QuietCallsAll(step.body));
    QuietBody(k, s, step.body, fuel);
    var (after, flow, stopped) := RunBody(Ambush(k), s, step.body, fuel);
    if !LoopSatisfied(Blank(), step.until) && iter + 1 < step.maxIters.value {
      QuietLoop(k, after, step, iter + 1, fuel);
    }
  }

  lemma {:induction false} QuietBody(k: nat, s: State, steps: seq<Step>, fuel: nat)
    requires forall i :: 0 <= i < |steps| ==> Capped(steps[i])
    requires s.entity == Blank() && s.calls + QuietCallsAll(steps) <= k
    ensures var (after, flow, stopped) := RunBody(Ambush(k), s, steps, fuel);
      flow == Completed && !stopped && after.entity == Blank() && after.calls == s.calls + QuietCallsAll(steps)
    decreases steps, 0, 0
  {
    hide Ambush;
    if steps != [] {
      QuietStep(k, s, steps[0], fuel);
      var (after, flow) := RunStep(Ambush(k), s, steps[0], fuel);
      QuietBody(k, after, steps[1..], fuel);
    }
  }

  // ---------------------------------------------------------------------------
  // The ambush
  // ---------------------------------------------------------------------------

  /** The first try fails, the nudge's LLM call sets the output, and the second try starts after that. */
  lemma {:induction false} AmbushedInvocation(k: nat, s: State, invocation: Invocation)
    requires s.entity == Blank() && s.calls == k && IsRisky(invocation)
    ensures StartsTerminal(RunAttempts(Ambush(k), s, invocation, 1).0.attempts)
  {
    var world, policy := Ambush(k), invocation.retryOnFail.value;
    var (first, failed) := RunInvocationOnce(world, s, invocation, 1);
    var nudge := RetryNudge(world, invocation, failed.error, policy);
    var nudged := first.(entity := Nudged(first.entity, [], nudge));
    FinishingCall(k, nudged, "CallLlm", "null");
    var (second, ready) := PrepareRetry(world, first, invocation, failed.error, policy);
    hide RunSystem, Blank, Applied, RetryNudge;
    assert failed.Raised? && ready == Completed && second.entity.IsTerminal();
    hide PrepareRetry, Ambush;
    var after := RunAttempts(world, second, invocation, 2).0;
    AttemptIsRecorded(world, second, invocation, 2);
    assert after.attempts[|second.attempts|].terminal;
  }

  lemma FinishingCall(k: nat, s: State, system: string, args: Json)
    requires s.calls == k + 1
    ensures var (after, flow) := RunSystem(Ambush(k), s, system, args);
      flow == Completed && after.entity.finalOutput == Some("done")
  {
    var writes := FinalIs(Some("done"));
    assert Ambush(k).runSystem(s.calls, system, s.entity, args) == Delta(writes);
    assert Applied(s.entity, writes).finalOutput == Over(writes.finalOutput, s.entity.finalOutput);
  }

  lemma AttemptIsRecorded(world: World, s: State, invocation: Invocation, n: nat)
    requires 1 <= n <= MaxAttempts(invocation)
    ensures s.attempts + [Attempt(invocation, n, s.entity.IsTerminal())]
      <= RunAttempts(world, s, invocation, n).0.attempts
  {
    hide PrepareRetry, RunInvocationOnce, Grows;
    OnceProgresses(world, s, invocation, n);
    var (tried, flow) := RunInvocationOnce(world, s, invocation, n);
    if flow.Raised? && n < MaxAttempts(invocation) && invocation.retryOnFail.Some? {
      var policy := invocation.retryOnFail.value;
      PrepareProgresses(world, tried, invocation, flow.error, policy);
      var (prepared, ready) := PrepareRetry(world, tried, invocation, flow.error, policy);
      if ready.Completed? {
        AttemptsProgress(world, prepared, invocation, n + 1);
      }
    }
  }

  lemma TerminalStartsRemain(before: seq<Attempt>, after: seq<Attempt>)
    requires StartsTerminal(before) && before <= after
    ensures StartsTerminal(after)
  {
    var i :| 0 <= i < |before| && before[i].terminal;
    assert after[i].terminal;
  }

  lemma {:induction false} AmbushedStep(k: nat, s: State, step: Step, fuel: nat)
    requires ReachesRisk(step, fuel) && Risky(step)
    requires s.entity == Blank() && s.calls + CallsBefore(step, fuel) == k
    ensures StartsTerminal(RunStep(Ambush(k), s, step, fuel).0.attempts)
    decreases step, 2
  {
    match step
    case Invoke(invocation) => AmbushedInvocation(k, s, invocation);
    case Loop(_, _, _, body) =>
      hide Ambush, Blank, LoopSatisfied, StartsTerminal;
      AmbushedBody(k, s, body, fuel);
      var (after, flow, stopped) := RunBody(Ambush(k), s, body, fuel);
      var left := if step.maxIters.Some? then fuel else fuel - 1;
      if flow.Completed? && !stopped && !LoopSatisfied(after.entity, step.until)
        && (step.maxIters.Some? ==> 1 < step.maxIters.value) {
        LoopProgresses(Ambush(k), after, step, 1, left);
        TerminalStartsRemain(after.attempts, RunLoop(Ambush(k), after, step, 1, left).0.attempts);
      }
  }

  lemma {:induction false} AmbushedBody(k: nat, s: State, steps: seq<Step>, fuel: nat)
    requires ReachesRiskAmong(steps, fuel) && RiskyAmong(steps)
    requires s.entity == Blank() && s.calls + CallsBeforeAmong(steps, fuel) == k
    ensures StartsTerminal(RunBody(Ambush(k), s, steps, fuel).0.attempts)
    decreases steps, 0
  {
    hide Ambush, StartsTerminal;
    if Risky(steps[0]) {
      AmbushedStep(k, s, steps[0], fuel);
      var (after, flow) := RunStep(Ambush(k), s, steps[0], fuel);
      if flow.Completed? && !after.entity.IsTerminal() {
        BodyProgresses(Ambush(k), after, steps[1..], fuel);
        TerminalStartsRemain(after.attempts, RunBody(Ambush(k), after, steps[1..], fuel).0.attempts);
      }
    } else {
      QuietStep(k, s, steps[0], fuel);
      var (after, flow) := RunStep(Ambush(k), s, steps[0], fuel);
      AmbushedBody(k, after, steps[1..], fuel);
    }
  }

  /** The attempts of a run of the whole schedule. */
  function AttemptsOf(world: World, e: Entity, steps: seq<Step>, fuel: nat): seq<Attempt> {
    RunBody(world, Start(e), steps, fuel).0.attempts
  }

  /**
   * Of every schedule, capped or not: no invocation starts once the output or an error is there, if no parse
   * may be repeated, or if what a nudge calls writes neither, as the LLM call and the hook of the runtime do.
   */
  lemma NothingStartsTerminal(world: World, e: Entity, steps: seq<Step>, fuel: nat)
    requires !e.IsTerminal() && (!RiskyAmong(steps) || NudgesLeaveOpen(world))
    ensures !StartsTerminal(AttemptsOf(world, e, steps, fuel))
  {
    hide Grows, IsOrderly;
    RunIsSafe(world, e, steps, fuel);
  }

  /**
   * That no invocation ever starts once the output or an error is there, whatever the systems and the host do,
   * holds if and only if no invocation of `ParseResponse` may be repeated. Loops need no cap, except those
   * that come before the first such invocation and might never end.
   */
  lemma NothingStartsTerminalIff(steps: seq<Step>, fuel: nat)
    requires RiskyAmong(steps) ==> ReachesRiskAmong(steps, fuel)
    ensures (forall world: World, e: Entity :: !e.IsTerminal() ==> !StartsTerminal(AttemptsOf(world, e, steps, fuel)))
      <==> !RiskyAmong(steps)
  {
    hide StartsTerminal, AttemptsOf, Ambush, ReachesRiskAmong;
    if RiskyAmong(steps) {
      var k := CallsBeforeAmong(steps, fuel);
      AmbushedRun(k, steps, fuel);
      assert !Blank().IsTerminal();
    } else {
      forall world: World, e: Entity | !e.IsTerminal()
        ensures !StartsTerminal(AttemptsOf(world, e, steps, fuel))
      {
        NothingStartsTerminal(world, e, steps, fuel);
      }
    }
  }

  lemma AmbushedRun(k: nat, steps: seq<Step>, fuel: nat)
    requires RiskyAmong(steps) && ReachesRiskAmong(steps, fuel) && k == CallsBeforeAmong(steps, fuel)
    ensures StartsTerminal(AttemptsOf(Ambush(k), Blank(), steps, fuel))
  {
    hide StartsTerminal, Ambush, ReachesRiskAmong;
    AmbushedBody(k, Start(Blank()), steps, fuel);
  }
}
