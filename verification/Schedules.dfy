/**
 * What a schedule does to an entity, as functions.
 *
 * Systems and the host are oracles: what a call does may depend on everything, so each call is
 * answered by a function of the call's number, its name, the entity and the arguments. Loops
 * without a cap run for at most `fuel` rounds each; a run that used that up is `Unfinished`.
 */
module Schedules {
  import opened Prelude
  import opened Entities

  datatype RetryPolicy = RetryPolicy(max: nat, nudge: Option<string>)

  datatype Invocation = Invocation(id: string, system: string, args: Json, retryOnFail: Option<RetryPolicy>)

  datatype Termination = ComponentPresence(component: string, present: bool) | MaxIters

  datatype Step =
    | Invoke(invocation: Invocation)
    | Loop(id: string, until: Termination, maxIters: Option<nat>, body: seq<Step>)

  datatype SystemAnswer = Delta(writes: Writes) | SystemFailed(error: RunError)
  datatype HostAnswer = Response(writes: HostWrites, signal: Option<HostSignal>) | HostFailed(error: RunError)

  datatype World = World(
    registered: set<string>,
    runSystem: (nat, string, Entity, Json) -> SystemAnswer,
    callHost: (nat, string, Entity, Json) -> HostAnswer,
    describe: RunError -> string)

  /** One call of an invocation's system: the how-manyth try, and whether the entity was terminal. */
  datatype Attempt = Attempt(invocation: Invocation, number: nat, terminal: bool)

  /** The entity, the number of oracle calls made, and the attempts started so far. */
  datatype State = State(entity: Entity, calls: nat, attempts: seq<Attempt>)

  datatype Flow = Completed | Raised(error: RunError) | Unfinished

  // ---------------------------------------------------------------------------
  // One invocation
  // ---------------------------------------------------------------------------

  function RunSystem(world: World, s: State, system: string, args: Json): (State, Flow) {
    match world.runSystem(s.calls, system, s.entity, args)
    case SystemFailed(error) => (s.(calls := s.calls + 1), Raised(error))
    case Delta(writes) => (s.(calls := s.calls + 1, entity := Applied(s.entity, writes)), Completed)
  }

  function RunHostSystem(world: World, s: State, invocation: Invocation): (State, Flow) {
    match world.callHost(s.calls, "system." + invocation.system + "@1", s.entity, invocation.args)
    case HostFailed(error) => (s.(calls := s.calls + 1), Raised(error))
    case Response(writes, signal) =>
      (s.(calls := s.calls + 1, entity := HostApplied(s.entity, writes, signal)), Completed)
  }

  function RunInvocationOnce(world: World, s: State, invocation: Invocation, number: nat): (State, Flow) {
    var started := s.(attempts := s.attempts + [Attempt(invocation, number, s.entity.IsTerminal())]);
    if invocation.system in world.registered then RunSystem(world, started, invocation.system, invocation.args)
    else RunHostSystem(world, started, invocation)
  }

  function RetryNudge(world: World, invocation: Invocation, error: RunError, policy: RetryPolicy): string {
    var prefix :=
      if policy.nudge.Some? then policy.nudge.value else "Your previous response failed. Retry carefully.";
    match error
    case LlmParseFailed(_, lastError) =>
      prefix + "\n\nYour previous response could not be parsed: " + lastError
      + "\nReply again and follow the required output format exactly."
    case _ => prefix + "\n\nSystem `" + invocation.system + "` failed: " + world.describe(error)
  }

  const AFTER_LLM_RESPONSE: Json := "{\"hook\":\"after_llm_response\"}"

  /** The nudge is appended and what the failed response left behind is cleared. */
  function Nudged(e: Entity, messages: seq<Message>, nudge: string): Entity {
    e.(currentMessages := Some(messages + [Message("user", nudge)]), lastLlmResponse := None, parsedAction := None,
       pendingToolCall := None, pendingToolCalls := [], lastThinkingBlocks := [])
  }

  function RetryParseWithNudge(world: World, s: State, invocation: Invocation, error: RunError, policy: RetryPolicy)
    : (State, Flow)
  {
    if s.entity.currentMessages.None? then
      (s, Raised(Internal("retry_on_fail for ParseResponse requires CurrentMessages")))
    else
      var nudge := RetryNudge(world, invocation, error, policy);
      var nudged := s.(entity := Nudged(s.entity, s.entity.currentMessages.value, nudge));
      if "CallLlm" !in world.registered then
        (nudged, Raised(Internal("retry_on_fail for ParseResponse requires CallLlm")))
      else
        var (called, flow) := RunSystem(world, nudged, "CallLlm", "null");
        if flow.Completed? && "Hook" in world.registered then
          RunSystem(world, called, "Hook", AFTER_LLM_RESPONSE)
        else
          (called, flow)
  }

  function PrepareRetry(world: World, s: State, invocation: Invocation, error: RunError, policy: RetryPolicy)
    : (State, Flow)
  {
    if invocation.system == "ParseResponse" then RetryParseWithNudge(world, s, invocation, error, policy)
    else (s, Completed)
  }

  function FinalizeRetryError(error: RunError, used: nat): RunError {
    if error.LlmParseFailed? then LlmParseFailed(used, error.lastError) else error
  }

  function MaxAttempts(invocation: Invocation): (n: nat)
    ensures n >= 1
  {
    if invocation.retryOnFail.Some? && invocation.retryOnFail.value.max > 1 then invocation.retryOnFail.value.max
    else 1
  }

  /** The attempts from number `n` on. */
  function RunAttempts(world: World, s: State, invocation: Invocation, n: nat): (State, Flow)
    requires 1 <= n <= MaxAttempts(invocation)
    decreases MaxAttempts(invocation) - n
  {
    var (tried, flow) := RunInvocationOnce(world, s, invocation, n);
    if !flow.Raised? then (tried, flow)
    else if n >= MaxAttempts(invocation) || invocation.retryOnFail.None? then
      (tried, Raised(FinalizeRetryError(flow.error, n)))
    else
      var (prepared, ready) := PrepareRetry(world, tried, invocation, flow.error, invocation.retryOnFail.value);
      if !ready.Completed? then (prepared, ready) else RunAttempts(world, prepared, invocation, n + 1)
  }

  // ---------------------------------------------------------------------------
  // Steps and loops
  // ---------------------------------------------------------------------------

  function Normalized(name: string): string {
    if name == "" then ""
    else
      var c, rest := name[0], Normalized(name[1..]);
      if 'A' <= c <= 'Z' then [c - 'A' + 'a'] + rest
      else if 'a' <= c <= 'z' || '0' <= c <= '9' then [c] + rest
      else rest
  }

  predicate IsPresent(e: Entity, name: string) {
    var n := Normalized(name);
    if n == "runid" then e.runId.Some?
    else if n == "identity" then e.identity.Some?
    else if n == "input" then e.input.Some?
    else if n == "bundle" then e.bundle.Some?
    else if n == "profile" then e.profile.Some?
    else if n == "schedule" then e.schedule.Some?
    else if n == "currentmessages" then e.currentMessages.Some?
    else if n == "pendingllmcall" then e.pendingLlmCall.Some?
    else if n == "lastllmresponse" then e.lastLlmResponse.Some?
    else if n == "parsedaction" then e.parsedAction.Some?
    else if n == "pendingtoolcall" then e.pendingToolCall.Some?
    else if n == "lastobservation" then e.lastObservation.Some?
    else if n == "sessionid" then e.sessionId.Some?
    else if n == "itercounter" then e.iterCounter.Some?
    else if n == "availabletools" then e.availableTools != []
    else if n == "pendingtoolcalls" then e.pendingToolCalls != []
    else if n == "lastthinkingblocks" then e.lastThinkingBlocks != []
    else if n == "trajectory" then e.trajectory != []
    else if n == "final" || n == "finaloutput" then e.finalOutput.Some?
    else if n == "error" then e.error.Some?
    else name in e.extensions
  }

  predicate LoopSatisfied(e: Entity, until: Termination) {
    until.ComponentPresence? && IsPresent(e, until.component) == until.present
  }

  function RunStep(world: World, s: State, step: Step, fuel: nat): (State, Flow)
    decreases step, 2, 0
  {
    match step
    case Invoke(invocation) => RunAttempts(world, s, invocation, 1)
    case Loop(_, _, _, _) => RunLoop(world, s, step, 0, fuel)
  }

  /** How many rounds a loop may still start after `iter` of them; at least one in all. */
  function RoundsLeft(step: Step, iter: nat, fuel: nat): nat
    requires step.Loop?
  {
    if step.maxIters.None? then fuel
    else if iter == 0 && step.maxIters.value == 0 then 1
    else if iter <= step.maxIters.value then step.maxIters.value - iter
    else 0
  }

  /** The rounds from the one after `iter` on. */
  function RunLoop(world: World, s: State, step: Step, iter: nat, fuel: nat): (State, Flow)
    requires step.Loop?
    decreases step, 1, RoundsLeft(step, iter, fuel)
  {
    if RoundsLeft(step, iter, fuel) == 0 then (s, Unfinished)
    else
      var (after, flow, stopped) := RunBody(world, s, step.body, fuel);
      if !flow.Completed? || stopped || LoopSatisfied(after.entity, step.until) then (after, flow)
      else if step.maxIters.Some? && iter + 1 >= step.maxIters.value then (after, flow)
      else if step.maxIters.Some? then RunLoop(world, after, step, iter + 1, fuel)
      else RunLoop(world, after, step, iter + 1, fuel - 1)
  }

  /** The steps of a body in order; stops when one leaves the entity terminal. */
  function RunBody(world: World, s: State, steps: seq<Step>, fuel: nat): (State, Flow, bool)
    decreases steps, 0, 0
  {
    if steps == [] then (s, Completed, false)
    else
      var (after, flow) := RunStep(world, s, steps[0], fuel);
      if !flow.Completed? || after.entity.IsTerminal() then (after, flow, flow.Completed?)
      else RunBody(world, after, steps[1..], fuel)
  }

  datatype RunResult = Returned(value: Json) | Erred(error: RunError) | Stalled

  /** What a run returns once its steps are done. */
  function Conclude(e: Entity, flow: Flow): RunResult {
    match flow
    case Raised(error) => Erred(error)
    case Unfinished => Stalled
    case Completed =>
      if e.error.Some? then Erred(e.error.value)
      else if e.finalOutput.Some? then Returned(e.finalOutput.value)
      else Erred(Internal("schedule exhausted without Final or Error"))
  }
}
