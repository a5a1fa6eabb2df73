/** The entity that a run works on, and how systems and hosts may write to it. */
module Entities {
  import opened Prelude

  /** JSON payloads are opaque. */
  type Json = string

  datatype Message = Message(role: string, content: string)

  datatype RunError =
    | LlmParseFailed(attempts: nat, lastError: string)
    | HookAborted(hook: string, reason: string)
    | Internal(reason: string)
    | OtherError(text: string)

  datatype Entity = Entity(
    runId: Option<string>, identity: Option<Json>, input: Option<Json>, bundle: Option<Json>,
    profile: Option<Json>, schedule: Option<Json>, permissions: Option<Json>,
    trajectory: seq<Json>, currentMessages: Option<seq<Message>>, pendingLlmCall: Option<Json>,
    lastLlmResponse: Option<string>, parsedAction: Option<Json>, pendingToolCall: Option<Json>,
    lastObservation: Option<string>, sessionId: Option<string>, iterCounter: Option<Json>,
    availableTools: seq<Json>, pendingToolCalls: seq<Json>, lastThinkingBlocks: seq<Json>,
    finalOutput: Option<Json>, error: Option<RunError>, extensions: map<string, Json>)
  {
    predicate IsTerminal() {
      finalOutput.Some? || error.Some?
    }
  }

  /** What a registered system may write; a doubly optional component can also be cleared. */
  datatype Writes = Writes(
    profile: Option<Json>, schedule: Option<Json>, currentMessages: Option<seq<Message>>,
    pendingLlmCall: Option<Option<Json>>, lastLlmResponse: Option<string>, parsedAction: Option<Json>,
    pendingToolCall: Option<Option<Json>>, lastObservation: Option<string>, sessionId: Option<string>,
    iterCounter: Option<Json>, availableTools: Option<seq<Json>>, pendingToolCalls: Option<seq<Json>>,
    lastThinkingBlocks: Option<seq<Json>>, trajectoryAppend: seq<Json>, finalOutput: Option<Json>,
    error: Option<RunError>, extensions: map<string, Json>)

  /** What a host-side system may write: no profile, schedule, pending call or error. */
  datatype HostWrites = HostWrites(
    currentMessages: Option<seq<Message>>, lastLlmResponse: Option<string>, parsedAction: Option<Json>,
    pendingToolCall: Option<Option<Json>>, lastObservation: Option<string>, sessionId: Option<string>,
    iterCounter: Option<Json>, availableTools: Option<seq<Json>>, pendingToolCalls: Option<seq<Json>>,
    lastThinkingBlocks: Option<seq<Json>>, trajectoryAppend: seq<Json>, finalOutput: Option<Json>,
    extensions: map<string, Option<Json>>)

  datatype HostSignal = Finish | Abort(reason: string) | Custom(name: string)

  function Over<T>(write: Option<T>, present: Option<T>): Option<T> {
    if write.Some? then write else present
  }

  function Or<T>(write: Option<T>, present: T): T {
    if write.Some? then write.value else present
  }

  /** `Runner::apply`. */
  function Applied(e: Entity, w: Writes): Entity {
    e.(profile := Over(w.profile, e.profile), schedule := Over(w.schedule, e.schedule),
       currentMessages := Over(w.currentMessages, e.currentMessages),
       pendingLlmCall := Or(w.pendingLlmCall, e.pendingLlmCall),
       lastLlmResponse := Over(w.lastLlmResponse, e.lastLlmResponse),
       parsedAction := Over(w.parsedAction, e.parsedAction),
       pendingToolCall := Or(w.pendingToolCall, e.pendingToolCall),
       lastObservation := Over(w.lastObservation, e.lastObservation),
       sessionId := Over(w.sessionId, e.sessionId), iterCounter := Over(w.iterCounter, e.iterCounter),
       availableTools := Or(w.availableTools, e.availableTools),
       pendingToolCalls := Or(w.pendingToolCalls, e.pendingToolCalls),
       lastThinkingBlocks := Or(w.lastThinkingBlocks, e.lastThinkingBlocks),
       trajectory := e.trajectory + w.trajectoryAppend,
       finalOutput := Over(w.finalOutput, e.finalOutput), error := Over(w.error, e.error),
       extensions := e.extensions + w.extensions)
  }

  /** Extension keys written as null are removed, the others set. */
  function WithExtensions(extensions: map<string, Json>, writes: map<string, Option<Json>>): map<string, Json> {
    var cleared := set k | k in writes && writes[k].None?;
    (extensions - cleared) + (map k | k in writes && writes[k].Some? :: writes[k].value)
  }

  /** `Runner::apply_host_response`. */
  function HostApplied(e: Entity, w: HostWrites, signal: Option<HostSignal>): Entity {
    var finalOutput := Over(w.finalOutput, e.finalOutput);
    e.(currentMessages := Over(w.currentMessages, e.currentMessages),
       lastLlmResponse := Over(w.lastLlmResponse, e.lastLlmResponse),
       parsedAction := Over(w.parsedAction, e.parsedAction),
       pendingToolCall := Or(w.pendingToolCall, e.pendingToolCall),
       lastObservation := Over(w.lastObservation, e.lastObservation),
       sessionId := Over(w.sessionId, e.sessionId), iterCounter := Over(w.iterCounter, e.iterCounter),
       availableTools := Or(w.availableTools, e.availableTools),
       pendingToolCalls := Or(w.pendingToolCalls, e.pendingToolCalls),
       lastThinkingBlocks := Or(w.lastThinkingBlocks, e.lastThinkingBlocks),
       trajectory := e.trajectory + w.trajectoryAppend,
       extensions := WithExtensions(e.extensions, w.extensions),
       finalOutput := if signal == Some(Finish) && finalOutput.None? then Some("null") else finalOutput,
       error := if signal.Some? && signal.value.Abort?
                then Some(HookAborted("host_system", signal.value.reason)) else e.error)
  }
}
