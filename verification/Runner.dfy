/** The runner: drives one entity through a schedule, updating it in place. */
module Runner {
  import opened Prelude
  import opened Entities
  import opened Schedules

  class Runner {
    var entity: Entity
    /** How many times a system or the host has been called. */
    var calls: nat
    ghost var attempts: seq<Attempt>
    const world: World
    const steps: seq<Step>

    constructor (entity: Entity, world: World, steps: seq<Step>)
      ensures this.world == world && this.steps == steps && Now() == State(entity, 0, [])
    {
      this.entity, this.calls, this.attempts := entity, 0, [];
      this.world, this.steps := world, steps;
    }

    ghost function Now(): State
      reads this
    {
      State(entity, calls, attempts)
    }

    // The components that both kinds of writes may hold, each left alone unless it is written.

    method ApplyMessages(
        messages: Option<seq<Message>>, response: Option<string>, action: Option<Json>, call: Option<Option<Json>>)
      modifies this`entity
      ensures entity == old(entity).(
        currentMessages := Over(messages, old(entity).currentMessages),
        lastLlmResponse := Over(response, old(entity).lastLlmResponse),
        parsedAction := Over(action, old(entity).parsedAction),
        pendingToolCall := Or(call, old(entity).pendingToolCall))
    {
      if messages.Some? {
        entity := entity.(currentMessages := messages);
      }
      if response.Some? {
        entity := entity.(lastLlmResponse := response);
      }
      if action.Some? {
        entity := entity.(parsedAction := action);
      }
      if call.Some? {
        entity := entity.(pendingToolCall := call.value);
      }
    }

    method ApplySession(observation: Option<string>, session: Option<string>, counter: Option<Json>)
      modifies this`entity
      ensures entity == old(entity).(
        lastObservation := Over(observation, old(entity).lastObservation),
        sessionId := Over(session, old(entity).sessionId),
        iterCounter := Over(counter, old(entity).iterCounter))
    {
      if observation.Some? {
        entity := entity.(lastObservation := observation);
      }
      if session.Some? {
        entity := entity.(sessionId := session);
      }
      if counter.Some? {
        entity := entity.(iterCounter := counter);
      }
    }

    method ApplyTools(tools: Option<seq<Json>>, calls: Option<seq<Json>>, blocks: Option<seq<Json>>)
      modifies this`entity
      ensures entity == old(entity).(
        availableTools := Or(tools, old(entity).availableTools),
        pendingToolCalls := Or(calls, old(entity).pendingToolCalls),
        lastThinkingBlocks := Or(blocks, old(entity).lastThinkingBlocks))
    {
      if tools.Some? {
        entity := entity.(availableTools := tools.value);
      }
      if calls.Some? {
        entity := entity.(pendingToolCalls := calls.value);
      }
      if blocks.Some? {
        entity := entity.(lastThinkingBlocks := blocks.value);
      }
    }

    method Apply(w: Writes)
      modifies this`entity
      ensures entity == Applied(old(entity), w)
    {
      entity := entity.(profile := Over(w.profile, entity.profile), schedule := Over(w.schedule, entity.schedule));
      ApplyMessages(w.currentMessages, w.lastLlmResponse, w.parsedAction, w.pendingToolCall);
      entity := entity.(pendingLlmCall := Or(w.pendingLlmCall, entity.pendingLlmCall));
      ApplySession(w.lastObservation, w.sessionId, w.iterCounter);
      ApplyTools(w.availableTools, w.pendingToolCalls, w.lastThinkingBlocks);
      entity := entity.(trajectory := entity.trajectory + w.trajectoryAppend);
      entity := entity.(finalOutput := Over(w.finalOutput, entity.finalOutput));
      entity := entity.(error := Over(w.error, entity.error));
      entity := entity.(extensions := entity.extensions + w.extensions);
    }

    method ApplyHostResponse(w: HostWrites, signal: Option<HostSignal>)
      modifies this`entity
      ensures entity == HostApplied(old(entity), w, signal)
    {
      ApplyMessages(w.currentMessages, w.lastLlmResponse, w.parsedAction, w.pendingToolCall);
      ApplySession(w.lastObservation, w.sessionId, w.iterCounter);
      ApplyTools(w.availableTools, w.pendingToolCalls, w.lastThinkingBlocks);
      entity := entity.(trajectory := entity.trajectory + w.trajectoryAppend);
      entity := entity.(finalOutput := Over(w.finalOutput, entity.finalOutput));
      entity := entity.(extensions := WithExtensions(entity.extensions, w.extensions));
      match signal {
        case Some(Finish) =>
          if entity.finalOutput.None? {
            entity := entity.(finalOutput := Some("null"));
          }
        case Some(Abort(reason)) =>
          entity := entity.(error := Some(HookAborted("host_system", reason)));
        case _ =>
      }
    }

    method CallSystem(system: string, args: Json) returns (flow: Flow)
      modifies this`entity, this`calls
      ensures (Now(), flow) == RunSystem(world, old(Now()), system, args)
    {
      var answer := world.runSystem(calls, system, entity, args);
      calls := calls + 1;
      match answer {
        case SystemFailed(error) =>
          flow := Raised(error);
        case Delta(writes) =>
          Apply(writes);
          flow := Completed;
      }
    }

    method CallHostSystem(invocation: Invocation) returns (flow: Flow)
      modifies this`entity, this`calls
      ensures (Now(), flow) == RunHostSystem(world, old(Now()), invocation)
    {
      var answer := world.callHost(calls, "system." + invocation.system + "@1", entity, invocation.args);
      calls := calls + 1;
      match answer {
        case HostFailed(error) =>
          flow := Raised(error);
        case Response(writes, signal) =>
          ApplyHostResponse(writes, signal);
          flow := Completed;
      }
    }

    method InvokeOnce(invocation: Invocation, ghost number: nat) returns (flow: Flow)
      modifies this
      ensures (Now(), flow) == RunInvocationOnce(world, old(Now()), invocation, number)
    {
      attempts := attempts + [Attempt(invocation, number, entity.IsTerminal())];
      if invocation.system in world.registered {
        flow := CallSystem(invocation.system, invocation.args);
      } else {
        flow := CallHostSystem(invocation);
      }
    }

    method PrepareForRetry(invocation: Invocation, error: RunError, policy: RetryPolicy) returns (flow: Flow)
      modifies this
      ensures (Now(), flow) == PrepareRetry(world, old(Now()), invocation, error, policy)
    {
      hide RetryNudge;
      if invocation.system != "ParseResponse" {
        return Completed;
      }
      var nudge := RetryNudge(world, invocation, error, policy);
      if entity.currentMessages.None? {
        return Raised(Internal("retry_on_fail for ParseResponse requires CurrentMessages"));
      }
      entity := entity.(currentMessages := Some(entity.currentMessages.value + [Message("user", nudge)]));
      entity := entity.(lastLlmResponse := None, parsedAction := None, pendingToolCall := None);
      entity := entity.(pendingToolCalls := [], lastThinkingBlocks := []);
      if "CallLlm" !in world.registered {
        return Raised(Internal("retry_on_fail for ParseResponse requires CallLlm"));
      }
      flow := CallSystem("CallLlm", "null");
      if flow.Raised? {
        return;
      }
      if "Hook" in world.registered {
        flow := CallSystem("Hook", AFTER_LLM_RESPONSE);
      }
    }

    method InvokeWithRetry(invocation: Invocation) returns (flow: Flow)
      modifies this
      ensures (Now(), flow) == RunAttempts(world, old(Now()), invocation, 1)
    {
      var maxAttempts := MaxAttempts(invocation);
      var used := 1;
      while true
        invariant 1 <= used <= maxAttempts
        invariant RunAttempts(world, Now(), invocation, used) == RunAttempts(world, old(Now()), invocation, 1)
        decreases maxAttempts - used
      {
        flow := InvokeOnce(invocation, used);
        if !flow.Raised? {
          return;
        }
        if used >= maxAttempts || invocation.retryOnFail.None? {
          flow := Raised(FinalizeRetryError(flow.error, used));
          return;
        }
        var error := flow.error;
        flow := PrepareForRetry(invocation, error, invocation.retryOnFail.value);
        if !flow.Completed? {
          return;
        }
        used := used + 1;
      }
    }

    method TakeStep(step: Step, fuel: nat) returns (flow: Flow)
      modifies this
      ensures (Now(), flow) == RunStep(world, old(Now()), step, fuel)
      decreases step, 1
    {
      match step {
        case Invoke(invocation) =>
          flow := InvokeWithRetry(invocation);
        case Loop(_, until, maxIters, body) =>
          var iter, left := 0, fuel;
          while RoundsLeft(step, iter, left) > 0
            invariant RunLoop(world, Now(), step, iter, left) == RunLoop(world, old(Now()), step, 0, fuel)
            decreases RoundsLeft(step, iter, left)
          {
            var stopped;
            flow, stopped := TakeSteps(body, left);
            if !flow.Completed? || stopped || LoopSatisfied(entity, until) {
              return;
            }
            iter := iter + 1;
            if maxIters.Some? {
              if iter >= maxIters.value {
                return;
              }
            } else {
              left := left - 1;
            }
          }
          flow := Unfinished;
      }
    }

    method TakeSteps(body: seq<Step>, fuel: nat) returns (flow: Flow, stopped: bool)
      modifies this
      ensures (Now(), flow, stopped) == RunBody(world, old(Now()), body, fuel)
      decreases body, 0
    {
      for i := 0 to |body|
        invariant RunBody(world, Now(), body[i..], fuel) == RunBody(world, old(Now()), body, fuel)
      {
        assert body[i..][0] == body[i] && body[i..][1..] == body[i + 1..];
        flow := TakeStep(body[i], fuel);
        if !flow.Completed? {
          return flow, false;
        }
        if entity.IsTerminal() {
          return flow, true;
        }
      }
      flow, stopped := Completed, false;
    }

    /** Runs the schedule and returns the error if there is one, else the output. */
    method RunToCompletion(fuel: nat) returns (result: RunResult)
      modifies this
      ensures
        var (after, flow, stopped) := RunBody(world, old(Now()), steps, fuel);
        Now() == after && result == Conclude(after.entity, flow)
    {
      var flow, stopped := TakeSteps(steps, fuel);
      match flow {
        case Raised(error) =>
          result := Erred(error);
        case Unfinished =>
          result := Stalled;
        case Completed =>
          if entity.error.Some? {
            result := Erred(entity.error.value);
          } else if entity.finalOutput.Some? {
            result := Returned(entity.finalOutput.value);
          } else {
            result := Erred(Internal("schedule exhausted without Final or Error"));
          }
      }
    }
  }
}
