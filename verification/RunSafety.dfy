/** What holds of every run of a schedule, whatever the systems and the host do. */
module RunSafety {
  import opened Prelude
  import opened Entities
  import opened Schedules

  // ---------------------------------------------------------------------------
  // The relations between the state before and after
  // ---------------------------------------------------------------------------

  /** Run id, identity, input, bundle and permissions are as they were; the trajectory has only grown. */
  predicate Grows(before: Entity, after: Entity) {
    && after.runId == before.runId && after.identity == before.identity && after.input == before.input
    && after.bundle == before.bundle && after.permissions == before.permissions
    && before.trajectory <= after.trajectory
  }

  /** An attempt on a terminal entity is a repeated attempt to parse, never a first one. */
  predicate IsOrderly(attempt: Attempt) {
    attempt.terminal ==> attempt.number >= 2 && attempt.invocation.system == "ParseResponse"
  }

  /** No registered system of this world ever writes the profile or the schedule. */
  ghost predicate SystemsKeepTrust(world: World) {
    forall n, name, e, args :: name in world.registered && world.runSystem(n, name, e, args).Delta? ==>
      var writes := world.runSystem(n, name, e, args).writes;
      writes.profile.None? && writes.schedule.None?
  }

  /** A second try of this invocation may start on a terminal entity. */
  predicate IsRisky(invocation: Invocation) {
    invocation.system == "ParseResponse" && MaxAttempts(invocation) >= 2
  }

  /** What a nudge makes the LLM call and its hook answer never sets the output or an error. */
  ghost predicate NudgesLeaveOpen(world: World) {
    forall n, e ::
      && ("CallLlm" in world.registered ==> LeavesOpen(world.runSystem(n, "CallLlm", e, "null")))
      && ("Hook" in world.registered ==> LeavesOpen(world.runSystem(n, "Hook", e, AFTER_LLM_RESPONSE)))
  }

  predicate LeavesOpen(answer: SystemAnswer) {
    answer.Delta? ==> answer.writes.finalOutput.None? && answer.writes.error.None?
  }

  /** Somewhere in the step, at any depth, stands a risky invocation. */
  predicate Risky(step: Step)
    decreases step, 1
  {
    match step
    case Invoke(invocation) => IsRisky(invocation)
    case Loop(_, _, _, body) => RiskyAmong(body)
  }

  predicate RiskyAmong(steps: seq<Step>)
    decreases steps, 0
  {
    steps != [] && (Risky(steps[0]) || RiskyAmong(steps[1..]))
  }

  /**
   * The entity grew and attempts were only added: orderly ones, if the run was orderly to begin
   * with, and none on a terminal entity unless something was risky and a nudge may finish the run.
   * The profile and the schedule stay if no registered system writes them.
   */
  ghost predicate Progress(world: World, before: State, after: State, orderly: bool, risky: bool) {
    && Grows(before.entity, after.entity)
    && (SystemsKeepTrust(world) ==>
          after.entity.profile == before.entity.profile && after.entity.schedule == before.entity.schedule)
    && before.attempts <= after.attempts
    && (orderly ==> forall i :: |before.attempts| <= i < |after.attempts| ==>
          IsOrderly(after.attempts[i]) && (after.attempts[i].terminal ==> risky && !NudgesLeaveOpen(world)))
  }

  predicate Capped(step: Step) {
    step.Loop? ==> step.maxIters.Some? && forall i :: 0 <= i < |step.body| ==> Capped(step.body[i])
  }

  function Rounds(step: Step): nat
    requires step.Loop? && step.maxIters.Some?
  {
    if step.maxIters.value == 0 then 1 else step.maxIters.value
  }

  /** The most attempts that a capped step can make. */
  function Cost(step: Step): nat
    requires Capped(step)
    decreases step, 1
  {
    match step
    case Invoke(invocation) => MaxAttempts(invocation)
    case Loop(_, _, _, body) => Rounds(step) * CostAll(body)
  }

  function CostAll(steps: seq<Step>): nat
    requires forall i :: 0 <= i < |steps| ==> Capped(steps[i])
    decreases steps, 0
  {
    if steps == [] then 0 else Cost(steps[0]) + CostAll(steps[1..])
  }

  // ---------------------------------------------------------------------------
  // One invocation
  // ---------------------------------------------------------------------------

  /** A failed call leaves the entity as it was; a host-side system leaves profile and schedule. */
  lemma OnceProgresses(world: World, s: State, invocation: Invocation, n: nat)
    ensures
      var (after, flow) := RunInvocationOnce(world, s, invocation, n);
      && Grows(s.entity, after.entity) && flow != Unfinished
      && after.attempts == s.attempts + [Attempt(invocation, n, s.entity.IsTerminal())]
      && (flow.Raised? ==> after.entity == s.entity)
      && (SystemsKeepTrust(world) || invocation.system !in world.registered ==>
            after.entity.profile == s.entity.profile && after.entity.schedule == s.entity.schedule)
  {
  }

  lemma PrepareProgresses(world: World, s: State, invocation: Invocation, error: RunError, policy: RetryPolicy)
    ensures
      var (after, flow) := PrepareRetry(world, s, invocation, error, policy);
      && Grows(s.entity, after.entity) && flow != Unfinished && after.attempts == s.attempts
      && (invocation.system != "ParseResponse" ==> after.entity == s.entity)
      && (NudgesLeaveOpen(world) && after.entity.IsTerminal() ==> s.entity.IsTerminal())
      && (SystemsKeepTrust(world) ==>
            after.entity.profile == s.entity.profile && after.entity.schedule == s.entity.schedule)
  {
    hide Applied, RetryNudge;
    if invocation.system == "ParseResponse" && s.entity.currentMessages.Some? && "CallLlm" in world.registered {
      var nudge := RetryNudge(world, invocation, error, policy);
      var nudged := s.(entity := Nudged(s.entity, s.entity.currentMessages.value, nudge));
      CallGrows(world, nudged, "CallLlm", "null");
      var called := RunSystem(world, nudged, "CallLlm", "null").0;
      CallGrows(world, called, "Hook", AFTER_LLM_RESPONSE);
    }
  }

  lemma CallGrows(world: World, s: State, system: string, args: Json)
    ensures
      var (after, flow) := RunSystem(world, s, system, args);
      && (LeavesOpen(world.runSystem(s.calls, system, s.entity, args)) ==>
            after.entity.IsTerminal() == s.entity.IsTerminal())
      && Grows(s.entity, after.entity) && flow != Unfinished && after.attempts == s.attempts
      && (SystemsKeepTrust(world) && system in world.registered ==>
            after.entity.profile == s.entity.profile && after.entity.schedule == s.entity.schedule)
  {
  }

  /** The `n`-th try may start on a terminal entity. */
  ghost predicate MayRepeat(world: World, invocation: Invocation, n: nat) {
    n >= 2 && invocation.system == "ParseResponse" && !NudgesLeaveOpen(world)
  }

  lemma {:induction false} AttemptsProgress(world: World, s: State, invocation: Invocation, n: nat)
    requires 1 <= n <= MaxAttempts(invocation)
    ensures
      var (after, flow) := RunAttempts(world, s, invocation, n);
      && Progress(world, s, after, s.entity.IsTerminal() ==> MayRepeat(world, invocation, n), IsRisky(invocation))
      && flow != Unfinished
      && |after.attempts| <= |s.attempts| + (MaxAttempts(invocation) - n + 1)
    decreases MaxAttempts(invocation) - n
  {
    OnceProgresses(world, s, invocation, n);
    var (tried, flow) := RunInvocationOnce(world, s, invocation, n);
    hide RunInvocationOnce, PrepareRetry;
    if flow.Raised? && n < MaxAttempts(invocation) && invocation.retryOnFail.Some? {
      PrepareProgresses(world, tried, invocation, flow.error, invocation.retryOnFail.value);
      var (prepared, ready) := PrepareRetry(world, tried, invocation, flow.error, invocation.retryOnFail.value);
      if ready.Completed? {
        AttemptsProgress(world, prepared, invocation, n + 1);
      }
    }
  }

  // ---------------------------------------------------------------------------
  // Whole schedules
  // ---------------------------------------------------------------------------

  lemma {:induction false} ProgressComposes(
    world: World, a: State, b: State, c: State, orderly: bool, risky: bool, orderly': bool, risky': bool)
    requires Progress(world, a, b, orderly, risky) && Progress(world, b, c, orderly', risky')
    ensures Progress(world, a, c, orderly && orderly', risky || risky')
  {
    forall i | orderly && orderly' && |a.attempts| <= i < |c.attempts|
      ensures IsOrderly(c.attempts[i]) && (c.attempts[i].terminal ==> (risky || risky') && !NudgesLeaveOpen(world))
    {
      if i < |b.attempts| {
        assert c.attempts[i] == b.attempts[i];
      }
    }
  }

  lemma ProgressStarts(world: World, s: State, orderly: bool, risky: bool)
    ensures Progress(world, s, s, orderly, risky)
  {
  }

  /** From an entity that is not terminal, every step makes orderly progress. */
  lemma {:induction false} StepProgresses(world: World, s: State, step: Step, fuel: nat)
    ensures Progress(world, s, RunStep(world, s, step, fuel).0, !s.entity.IsTerminal(), Risky(step))
    decreases step, 2, 0
  {
    match step
    case Invoke(invocation) => AttemptsProgress(world, s, invocation, 1);
    case Loop(_, _, _, _) => LoopProgresses(world, s, step, 0, fuel);
  }

  lemma {:induction false} LoopProgresses(world: World, s: State, step: Step, iter: nat, fuel: nat)
    requires step.Loop?
    ensures Progress(world, s, RunLoop(world, s, step, iter, fuel).0, !s.entity.IsTerminal(), Risky(step))
    decreases step, 1, RoundsLeft(step, iter, fuel)
  {
    hide Progress, LoopSatisfied;
    if RoundsLeft(step, iter, fuel) == 0 {
      ProgressStarts(world, s, !s.entity.IsTerminal(), Risky(step));
    } else {
      BodyProgresses(world, s, step.body, fuel);
      var (after, flow, stopped) := RunBody(world, s, step.body, fuel);
      if flow.Completed? && !stopped && !LoopSatisfied(after.entity, step.until)
        && (step.maxIters.Some? ==> iter + 1 < step.maxIters.value) {
        LoopProgresses(world, after, step, iter + 1, if step.maxIters.Some? then fuel else fuel - 1);
        ProgressComposes(world, s, after, RunLoop(world, s, step, iter, fuel).0,
                         !s.entity.IsTerminal(), Risky(step), !after.entity.IsTerminal(), Risky(step));
      }
    }
  }

  /** A body that was not stopped ends terminal only if it began terminal. */
  lemma {:induction false} BodyProgresses(world: World, s: State, steps: seq<Step>, fuel: nat)
    ensures
      var (after, flow, stopped) := RunBody(world, s, steps, fuel);
      && Progress(world, s, after, !s.entity.IsTerminal(), RiskyAmong(steps))
      && (flow.Completed? && !stopped && after.entity.IsTerminal() ==> s.entity.IsTerminal())
    decreases steps, 0, 0
  {
    hide Progress;
    ProgressStarts(world, s, !s.entity.IsTerminal(), RiskyAmong(steps));
    if steps != [] {
      StepProgresses(world, s, steps[0], fuel);
      var (after, flow) := RunStep(world, s, steps[0], fuel);
      if flow.Completed? && !after.entity.IsTerminal() {
        BodyProgresses(world, after, steps[1..], fuel);
        ProgressComposes(world, s, after, RunBody(world, s, steps, fuel).0,
                         !s.entity.IsTerminal(), Risky(steps[0]), true, RiskyAmong(steps[1..]));
      } else {
        RiskRemains(world, s, after, !s.entity.IsTerminal(), Risky(steps[0]), RiskyAmong(steps));
      }
    }
  }

  lemma RiskRemains(world: World, a: State, b: State, orderly: bool, risky: bool, risky': bool)
    requires Progress(world, a, b, orderly, risky) && (risky ==> risky')
    ensures Progress(world, a, b, orderly, risky')
  {
  }

  // ---------------------------------------------------------------------------
  // Bounded work
  // ---------------------------------------------------------------------------

  /** A capped step finishes within its cost, whatever `fuel` other loops are given. */
  lemma {:induction false} StepIsBounded(world: World, s: State, step: Step, fuel: nat)
    requires Capped(step)
    ensures
      var (after, flow) := RunStep(world, s, step, fuel);
      flow != Unfinished && |after.attempts| <= |s.attempts| + Cost(step)
    decreases step, 2, 0
  {
    match step
    case Invoke(invocation) => AttemptsProgress(world, s, invocation, 1);
    case Loop(_, _, _, _) => LoopIsBounded(world, s, step, 0, fuel);
  }

  lemma {:induction false} LoopIsBounded(world: World, s: State, step: Step, iter: nat, fuel: nat)
    requires Capped(step) && step.Loop? && iter < Rounds(step)
    ensures
      var (after, flow) := RunLoop(world, s, step, iter, fuel);
      flow != Unfinished && |after.attempts| <= |s.attempts| + (Rounds(step) - iter) * CostAll(step.body)
    decreases step, 1, RoundsLeft(step, iter, fuel)
  {
    hide LoopSatisfied;
    BodyIsBounded(world, s, step.body, fuel);
    var (after, flow, stopped) := RunBody(world, s, step.body, fuel);
    var cost, left := CostAll(step.body), Rounds(step) - iter;
    OneRound(left, cost);
    if flow.Completed? && !stopped && !LoopSatisfied(after.entity, step.until) && iter + 1 < step.maxIters.value {
      LoopIsBounded(world, after, step, iter + 1, fuel);
    }
  }

  lemma OneRound(left: nat, cost: nat)
    requires left >= 1
    ensures left * cost == cost + (left - 1) * cost && (left - 1) * cost >= 0
  {
  }

  lemma {:induction false} BodyIsBounded(world: World, s: State, steps: seq<Step>, fuel: nat)
    requires forall i :: 0 <= i < |steps| ==> Capped(steps[i])
    ensures
      var (after, flow, stopped) := RunBody(world, s, steps, fuel);
      flow != Unfinished && |after.attempts| <= |s.attempts| + CostAll(steps)
    decreases steps, 0, 0
  {
    if steps != [] {
      StepIsBounded(world, s, steps[0], fuel);
      var (after, flow) := RunStep(world, s, steps[0], fuel);
      if flow.Completed? && !after.entity.IsTerminal() {
        BodyIsBounded(world, after, steps[1..], fuel);
      }
    }
  }

  // ---------------------------------------------------------------------------
  // Runs to completion
  // ---------------------------------------------------------------------------

  function Start(e: Entity): State {
    State(e, 0, [])
  }

  /**
   * Every run, on every world, of a schedule whose loops all have a cap ends, after at most
   * `CostAll` attempts.
   */
  lemma CappedRunEnds(world: World, e: Entity, steps: seq<Step>, fuel: nat)
    requires forall i :: 0 <= i < |steps| ==> Capped(steps[i])
    ensures
      var (after, flow, stopped) := RunBody(world, Start(e), steps, fuel);
      Conclude(after.entity, flow) != Stalled && |after.attempts| <= CostAll(steps)
  {
    BodyIsBounded(world, Start(e), steps, fuel);
  }

  /** An error on the entity is what a finished run returns; an output is returned only without one. */
  predicate OutputOnlyWithoutError(e: Entity, flow: Flow) {
    && (Conclude(e, flow).Returned? ==>
          flow.Completed? && e.error.None? && e.finalOutput == Some(Conclude(e, flow).value))
    && (e.error.Some? && flow.Completed? ==> Conclude(e, flow) == Erred(e.error.value))
  }

  lemma ErrorWins(e: Entity, flow: Flow)
    ensures OutputOnlyWithoutError(e, flow)
  {
  }

  /**
   * Every run, finished or cut off at any number of rounds: what was set at creation stays, the
   * trajectory grows, first attempts never start on a terminal entity, and none at all unless a
   * parse may be repeated and its nudge may finish the run; host-side systems alone never change
   * profile or schedule; and an output is returned only if there is no error.
   */
  lemma RunIsSafe(world: World, e: Entity, steps: seq<Step>, fuel: nat)
    requires !e.IsTerminal()
    ensures
      var (after, flow, stopped) := RunBody(world, Start(e), steps, fuel);
      && Grows(e, after.entity)
      && (forall i :: 0 <= i < |after.attempts| ==>
            && IsOrderly(after.attempts[i])
            && (after.attempts[i].terminal ==> RiskyAmong(steps) && !NudgesLeaveOpen(world)))
      && (SystemsKeepTrust(world) ==>
            after.entity.profile == e.profile && after.entity.schedule == e.schedule)
      && OutputOnlyWithoutError(after.entity, flow)
  {
    var (after, flow, _) := RunBody(world, Start(e), steps, fuel);
    ErrorWins(after.entity, flow);
    BodyProgresses(world, Start(e), steps, fuel);
    hide OutputOnlyWithoutError;
  }
}
