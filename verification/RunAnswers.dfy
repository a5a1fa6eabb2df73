/**
 * What the runner does, told in terms of the entity's fields and of the calls' answers: what is written, which
 * rounds, steps and tries take place, and what a run returns.
 */
module RunAnswers {
  import opened Prelude
  import opened Entities
  import opened Schedules

  // ---------------------------------------------------------------------------
  // Writes
  // ---------------------------------------------------------------------------

  /** A component holds what was written, or what it held if nothing was. */
  predicate IsWritten<T(==)>(written: Option<T>, was: T, now: T) {
    match written
    case Some(value) => now == value
    case None => now == was
  }

  predicate IsSet<T(==)>(written: Option<T>, was: Option<T>, now: Option<T>) {
    match written
    case Some(value) => now == Some(value)
    case None => now == was
  }

  /** What is set when the entity is created. */
  predicate SameOrigin(was: Entity, now: Entity) {
    && now.runId == was.runId && now.identity == was.identity && now.input == was.input
    && now.bundle == was.bundle && now.permissions == was.permissions
  }

  /** A system's writes, component by component. */
  lemma SystemWrites(e: Entity, w: Writes)
    ensures
      var now := Applied(e, w);
      && SameOrigin(e, now) && now.trajectory == e.trajectory + w.trajectoryAppend
      && IsSet(w.profile, e.profile, now.profile) && IsSet(w.schedule, e.schedule, now.schedule)
      && IsSet(w.currentMessages, e.currentMessages, now.currentMessages)
      && IsWritten(w.pendingLlmCall, e.pendingLlmCall, now.pendingLlmCall)
      && IsSet(w.lastLlmResponse, e.lastLlmResponse, now.lastLlmResponse)
      && IsSet(w.parsedAction, e.parsedAction, now.parsedAction)
      && IsWritten(w.pendingToolCall, e.pendingToolCall, now.pendingToolCall)
      && IsSet(w.lastObservation, e.lastObservation, now.lastObservation)
      && IsSet(w.sessionId, e.sessionId, now.sessionId) && IsSet(w.iterCounter, e.iterCounter, now.iterCounter)
      && IsWritten(w.availableTools, e.availableTools, now.availableTools)
      && IsWritten(w.pendingToolCalls, e.pendingToolCalls, now.pendingToolCalls)
      && IsWritten(w.lastThinkingBlocks, e.lastThinkingBlocks, now.lastThinkingBlocks)
      && IsSet(w.finalOutput, e.finalOutput, now.finalOutput) && IsSet(w.error, e.error, now.error)
    ensures
      var now := Applied(e, w).extensions;
      && now.Keys == e.extensions.Keys + w.extensions.Keys
      && forall k :: k in now ==> now[k] == if k in w.extensions then w.extensions[k] else e.extensions[k]
  {
  }

  /**
   * A host-side system's writes, component by component: profile, schedule and pending call stay, extensions
   * written as null go, and the signal finishes the run without output or aborts it.
   */
  lemma HostWritesApplied(e: Entity, w: HostWrites, signal: Option<HostSignal>)
    ensures
      var now := HostApplied(e, w, signal);
      && SameOrigin(e, now) && now.trajectory == e.trajectory + w.trajectoryAppend
      && now.profile == e.profile && now.schedule == e.schedule && now.pendingLlmCall == e.pendingLlmCall
      && IsSet(w.currentMessages, e.currentMessages, now.currentMessages)
      && IsSet(w.lastLlmResponse, e.lastLlmResponse, now.lastLlmResponse)
      && IsSet(w.parsedAction, e.parsedAction, now.parsedAction)
      && IsWritten(w.pendingToolCall, e.pendingToolCall, now.pendingToolCall)
      && IsSet(w.lastObservation, e.lastObservation, now.lastObservation)
      && IsSet(w.sessionId, e.sessionId, now.sessionId) && IsSet(w.iterCounter, e.iterCounter, now.iterCounter)
      && IsWritten(w.availableTools, e.availableTools, now.availableTools)
      && IsWritten(w.pendingToolCalls, e.pendingToolCalls, now.pendingToolCalls)
      && IsWritten(w.lastThinkingBlocks, e.lastThinkingBlocks, now.lastThinkingBlocks)
    ensures
      var now := HostApplied(e, w, signal).extensions;
      forall k ::
        && (k in now <==> if k in w.extensions then w.extensions[k].Some? else k in e.extensions)
        && (k in now ==> now[k] == if k in w.extensions then w.extensions[k].value else e.extensions[k])
    ensures
      var now := HostApplied(e, w, signal);
      match signal
      case Some(Finish) =>
        && now.error == e.error
        && now.finalOutput.Some?
        && (w.finalOutput.Some? || e.finalOutput.Some? ==> IsSet(w.finalOutput, e.finalOutput, now.finalOutput))
        && (w.finalOutput.None? && e.finalOutput.None? ==> now.finalOutput == Some("null"))
      case Some(Abort(reason)) =>
        IsSet(w.finalOutput, e.finalOutput, now.finalOutput) && now.error == Some(HookAborted("host_system", reason))
      case _ => IsSet(w.finalOutput, e.finalOutput, now.finalOutput) && now.error == e.error
  {
  }

  // ---------------------------------------------------------------------------
  // Components by name
  // ---------------------------------------------------------------------------

  datatype Component =
    | RunId | Identity | Input | Bundle | Profile | Schedule | Trajectory | CurrentMessages | PendingLlmCall
    | LastLlmResponse | ParsedAction | PendingToolCall | LastObservation | SessionId | IterCounter | AvailableTools
    | PendingToolCalls | LastThinkingBlocks | Final | Error

  /** Whether the entity has the component; an empty list is none. */
  predicate Has(e: Entity, c: Component) {
    match c
    case RunId => e.runId != None
    case Identity => e.identity != None
    case Input => e.input != None
    case Bundle => e.bundle != None
    case Profile => e.profile != None
    case Schedule => e.schedule != None
    case Trajectory => |e.trajectory| > 0
    case CurrentMessages => e.currentMessages != None
    case PendingLlmCall => e.pendingLlmCall != None
    case LastLlmResponse => e.lastLlmResponse != None
    case ParsedAction => e.parsedAction != None
    case PendingToolCall => e.pendingToolCall != None
    case LastObservation => e.lastObservation != None
    case SessionId => e.sessionId != None
    case IterCounter => e.iterCounter != None
    case AvailableTools => |e.availableTools| > 0
    case PendingToolCalls => |e.pendingToolCalls| > 0
    case LastThinkingBlocks => |e.lastThinkingBlocks| > 0
    case Final => e.finalOutput != None
    case Error => e.error != None
  }

  predicate IsLetter(c: char) {
    'a' <= c <= 'z' || 'A' <= c <= 'Z'
  }

  predicate IsAlphanumeric(c: char) {
    IsLetter(c) || '0' <= c <= '9'
  }

  /** The same letter in either case, or the same digit. */
  predicate SameSign(a: char, b: char) {
    a == b || (IsLetter(a) && IsLetter(b) && (a as int == b as int + 32 || b as int == a as int + 32))
  }

  /** The name has the letters and digits of the word, in either case; whatever else is in it does not matter. */
  predicate Spells(name: string, word: string) {
    if name == "" then word == ""
    else if !IsAlphanumeric(name[0]) then Spells(name[1..], word)
    else word != "" && SameSign(name[0], word[0]) && Spells(name[1..], word[1..])
  }

  lemma {:induction false} SpellsIffNormal(name: string, word: string)
    requires forall i :: 0 <= i < |word| ==> IsAlphanumeric(word[i])
    ensures Spells(name, word) <==> Normalized(name) == Normalized(word)
  {
    if name != "" && !IsAlphanumeric(name[0]) {
      SpellsIffNormal(name[1..], word);
    } else if name != "" && word != "" {
      SpellsIffNormal(name[1..], word[1..]);
      var a, b := Normalized(name), Normalized(word);
      assert a[1..] == Normalized(name[1..]) && b[1..] == Normalized(word[1..]);
      assert SameSign(name[0], word[0]) <==> a[0] == b[0];
      assert a == b <==> a[0] == b[0] && a[1..] == b[1..];
    }
  }

  /** The letters of a component's name. */
  function WordOf(c: Component): string {
    match c
    case RunId => "runid"
    case Identity => "identity"
    case Input => "input"
    case Bundle => "bundle"
    case Profile => "profile"
    case Schedule => "schedule"
    case Trajectory => "trajectory"
    case CurrentMessages => "currentmessages"
    case PendingLlmCall => "pendingllmcall"
    case LastLlmResponse => "lastllmresponse"
    case ParsedAction => "parsedaction"
    case PendingToolCall => "pendingtoolcall"
    case LastObservation => "lastobservation"
    case SessionId => "sessionid"
    case IterCounter => "itercounter"
    case AvailableTools => "availabletools"
    case PendingToolCalls => "pendingtoolcalls"
    case LastThinkingBlocks => "lastthinkingblocks"
    case Final => "final"
    case Error => "error"
  }

  predicate IsLowerWord(word: string) {
    forall i :: 0 <= i < |word| ==> 'a' <= word[i] <= 'z'
  }

  lemma {:induction false} WordsAreNormal(word: string)
    requires IsLowerWord(word)
    ensures Normalized(word) == word
  {
    if word != "" {
      WordsAreNormal(word[1..]);
    }
  }

  predicate IsCall(c: Component) {
    || c.PendingLlmCall? || c.LastLlmResponse? || c.ParsedAction? || c.PendingToolCall? || c.LastObservation?
    || c.CurrentMessages?
  }

  predicate IsList(c: Component) {
    c.Trajectory? || c.AvailableTools? || c.PendingToolCalls? || c.LastThinkingBlocks?
  }

  predicate IsOrigin(c: Component) {
    c.RunId? || c.Identity? || c.Input? || c.Bundle? || c.Profile? || c.Schedule?
  }

  lemma CallWordsAreLower(c: Component)
    requires IsCall(c)
    ensures IsLowerWord(WordOf(c))
  {
  }

  lemma ListWordsAreLower(c: Component)
    requires IsList(c)
    ensures IsLowerWord(WordOf(c))
  {
  }

  lemma OtherWordsAreLower(c: Component)
    requires !IsCall(c) && !IsList(c)
    ensures IsLowerWord(WordOf(c))
  {
  }

  lemma WordsAreLower(c: Component)
    ensures IsLowerWord(WordOf(c))
  {
    hide IsLowerWord, WordOf;
    if IsCall(c) {
      CallWordsAreLower(c);
    } else if IsList(c) {
      ListWordsAreLower(c);
    } else {
      OtherWordsAreLower(c);
    }
  }

  lemma FinalOutputIsLower()
    ensures IsLowerWord("finaloutput")
  {
  }

  /** The name means this component; the final output has two names. */
  predicate Means(name: string, c: Component) {
    Spells(name, WordOf(c)) || (c == Final && Spells(name, "finaloutput"))
  }

  /** What a loop condition asks for by this name: a component in any spelling, or else an extension by its key. */
  ghost predicate IsNamedPresent(e: Entity, name: string) {
    (exists c :: Means(name, c) && Has(e, c)) || ((forall c :: !Means(name, c)) && name in e.extensions)
  }

  lemma SpellsIffWord(name: string, word: string)
    requires IsLowerWord(word)
    ensures Spells(name, word) <==> Normalized(name) == word
  {
    WordsAreNormal(word);
    SpellsIffNormal(name, word);
  }

  lemma MeansIffNormal(name: string, c: Component)
    ensures Means(name, c) <==> Normalized(name) == WordOf(c) || (c == Final && Normalized(name) == "finaloutput")
  {
    WordsAreLower(c);
    FinalOutputIsLower();
    hide WordOf, Normalized, Spells, IsLowerWord;
    SpellsIffWord(name, WordOf(c));
    SpellsIffWord(name, "finaloutput");
  }

  lemma {:induction false} CallIsTested(e: Entity, name: string, c: Component)
    requires Means(name, c) && IsCall(c)
    ensures IsPresent(e, name) <==> Has(e, c)
  {
    MeansIffNormal(name, c);
    hide Normalized, Means;
  }

  lemma {:induction false} LogIsTested(e: Entity, name: string, c: Component)
    requires Means(name, c) && (c.Trajectory? || c.AvailableTools?)
    ensures IsPresent(e, name) <==> Has(e, c)
  {
    MeansIffNormal(name, c);
    hide Normalized, Means;
  }

  lemma {:induction false} QueueIsTested(e: Entity, name: string, c: Component)
    requires Means(name, c) && (c.PendingToolCalls? || c.LastThinkingBlocks?)
    ensures IsPresent(e, name) <==> Has(e, c)
  {
    MeansIffNormal(name, c);
    hide Normalized, Means;
  }

  lemma {:induction false} OtherComponentIsTested(e: Entity, name: string, c: Component)
    requires Means(name, c) && !IsCall(c) && !IsList(c) && !IsOrigin(c)
    ensures IsPresent(e, name) <==> Has(e, c)
  {
    MeansIffNormal(name, c);
    hide Normalized, Means;
  }

  lemma {:induction false} OriginIsTested(e: Entity, name: string, c: Component)
    requires Means(name, c) && IsOrigin(c)
    ensures IsPresent(e, name) <==> Has(e, c)
  {
    MeansIffNormal(name, c);
    hide Normalized, Means;
  }

  lemma {:induction false} NoRunComponent(name: string)
    requires forall c :: !Means(name, c)
    ensures var n := Normalized(name);
      && n != "currentmessages" && n != "pendingllmcall" && n != "lastllmresponse" && n != "parsedaction"
      && n != "pendingtoolcall" && n != "lastobservation" && n != "availabletools"
      && n != "pendingtoolcalls" && n != "lastthinkingblocks"
  {
    hide Normalized, Means;
    MeansIffNormal(name, CurrentMessages);
    MeansIffNormal(name, PendingLlmCall);
    MeansIffNormal(name, LastLlmResponse);
    MeansIffNormal(name, ParsedAction);
    MeansIffNormal(name, PendingToolCall);
    MeansIffNormal(name, LastObservation);
    MeansIffNormal(name, AvailableTools);
    MeansIffNormal(name, PendingToolCalls);
    MeansIffNormal(name, LastThinkingBlocks);
  }

  lemma {:induction false} NoOtherComponent(name: string)
    requires forall c :: !Means(name, c)
    ensures var n := Normalized(name);
      && n != "runid" && n != "identity" && n != "input" && n != "bundle" && n != "profile"
      && n != "schedule" && n != "trajectory" && n != "sessionid" && n != "itercounter" && n != "final"
      && n != "error" && n != "finaloutput"
  {
    hide Normalized, Means;
    MeansIffNormal(name, RunId);
    MeansIffNormal(name, Identity);
    MeansIffNormal(name, Input);
    MeansIffNormal(name, Bundle);
    MeansIffNormal(name, Profile);
    MeansIffNormal(name, Schedule);
    MeansIffNormal(name, Trajectory);
    MeansIffNormal(name, SessionId);
    MeansIffNormal(name, IterCounter);
    MeansIffNormal(name, Final);
    MeansIffNormal(name, Error);
  }

  lemma {:induction false} ExtensionIsTested(e: Entity, name: string)
    requires forall c :: !Means(name, c)
    ensures IsPresent(e, name) <==> name in e.extensions
  {
    NoRunComponent(name);
    NoOtherComponent(name);
    hide Normalized, Means;
  }

  /** A component is tested by its name in any case and punctuation, and anything else is an extension's key. */
  lemma {:induction false} PresenceAnswers(e: Entity, name: string)
    ensures IsPresent(e, name) <==> IsNamedPresent(e, name)
  {
    hide Means, IsPresent, Has, IsCall, IsOrigin;
    if forall c :: !Means(name, c) {
      ExtensionIsTested(e, name);
    } else {
      forall c | Means(name, c)
        ensures IsPresent(e, name) <==> Has(e, c)
      {
        if IsCall(c) {
          CallIsTested(e, name, c);
        } else if c.Trajectory? || c.AvailableTools? {
          LogIsTested(e, name, c);
        } else if c.PendingToolCalls? || c.LastThinkingBlocks? {
          QueueIsTested(e, name, c);
        } else if IsOrigin(c) {
          OriginIsTested(e, name, c);
        } else {
          OtherComponentIsTested(e, name, c);
        }
      }
    }
  }

  // ---------------------------------------------------------------------------
  // Rounds of a loop
  // ---------------------------------------------------------------------------

  /** A loop ends once the component it names is there, or is absent, as it asks; the other kind never does. */
  ghost predicate Ends(e: Entity, until: Termination) {
    match until
    case MaxIters => false
    case ComponentPresence(name, true) => IsNamedPresent(e, name)
    case ComponentPresence(name, false) => !IsNamedPresent(e, name)
  }

  lemma UntilAnswers(e: Entity, until: Termination)
    ensures LoopSatisfied(e, until) <==> Ends(e, until)
  {
    hide IsPresent, IsNamedPresent;
    if until.ComponentPresence? {
      PresenceAnswers(e, until.component);
    }
  }

  function FuelAfter(step: Step, fuel: nat, rounds: nat): int
    requires step.Loop?
  {
    if step.maxIters.None? then fuel - rounds else fuel
  }

  /** One round takes place, and then another: it was completed, and neither the cap nor the condition is met. */
  ghost predicate GoesOn(world: World, step: Step, before: State, after: State, rounds: nat, fuel: nat)
    requires step.Loop?
  {
    var (reached, flow, stopped) := RunBody(world, before, step.body, fuel);
    && reached == after && flow == Completed && !stopped && !Ends(after.entity, step.until)
    && (step.maxIters.Some? ==> rounds < step.maxIters.value)
  }

  /** The last round is the first that fails, leaves the entity terminal, meets the condition or is at the cap. */
  ghost predicate IsLastRound(world: World, step: Step, before: State, rounds: nat, fuel: nat, end: (State, Flow))
    requires step.Loop?
  {
    var (after, flow, stopped) := RunBody(world, before, step.body, fuel);
    && end == (after, flow)
    && (flow == Completed && !stopped ==>
          Ends(after.entity, step.until) || (step.maxIters.Some? && rounds >= step.maxIters.value))
  }

  /** The states at the start of each round from the one after `iter` on; the loop ends with the last of these. */
  lemma {:induction false} RoundsFrom(world: World, s: State, step: Step, iter: nat, fuel: nat)
    returns (states: seq<State>)
    requires step.Loop? && (step.maxIters.Some? && iter > 0 ==> iter < step.maxIters.value)
    ensures states != [] && states[0] == s
    ensures step.maxIters.None? ==> |states| - 1 <= fuel
    ensures forall i :: 0 <= i < |states| - 1 ==>
      GoesOn(world, step, states[i], states[i + 1], iter + i + 1, FuelAfter(step, fuel, i))
    ensures
      var n, end := |states| - 1, RunLoop(world, s, step, iter, fuel);
      if step.maxIters.None? && n == fuel then end == (states[n], Unfinished)
      else IsLastRound(world, step, states[n], iter + n + 1, FuelAfter(step, fuel, n), end)
    decreases RoundsLeft(step, iter, fuel)
  {
    states := [s];
    if RoundsLeft(step, iter, fuel) > 0 {
      var (after, flow, stopped) := RunBody(world, s, step.body, fuel);
      UntilAnswers(after.entity, step.until);
      hide Ends, LoopSatisfied, RunBody;
      if flow == Completed && !stopped && !Ends(after.entity, step.until)
        && (step.maxIters.Some? ==> iter + 1 < step.maxIters.value) {
        var left := if step.maxIters.Some? then fuel else fuel - 1;
        var rest := RoundsFrom(world, after, step, iter + 1, left);
        states := [s] + rest;
        assert GoesOn(world, step, s, after, iter + 1, fuel);
        forall i | 0 < i < |states| - 1
          ensures GoesOn(world, step, states[i], states[i + 1], iter + i + 1, FuelAfter(step, fuel, i))
        {
          assert states[i] == rest[i - 1] && states[i + 1] == rest[i];
          assert FuelAfter(step, left, i - 1) == FuelAfter(step, fuel, i);
        }
      }
    }
  }

  /** A loop, told by its rounds: each but the last goes on, and why the last one is. */
  lemma {:induction false} LoopAnswers(world: World, s: State, step: Step, fuel: nat) returns (states: seq<State>)
    requires step.Loop?
    ensures states != [] && states[0] == s
    ensures step.maxIters.None? ==> |states| - 1 <= fuel
    ensures forall i :: 0 <= i < |states| - 1 ==>
      GoesOn(world, step, states[i], states[i + 1], i + 1, FuelAfter(step, fuel, i))
    ensures
      var n, end := |states| - 1, RunStep(world, s, step, fuel);
      if step.maxIters.None? && n == fuel then end == (states[n], Unfinished)
      else IsLastRound(world, step, states[n], n + 1, FuelAfter(step, fuel, n), end)
  {
    hide GoesOn, IsLastRound, RunLoop;
    states := RoundsFrom(world, s, step, 0, fuel);
  }

  // ---------------------------------------------------------------------------
  // Steps of a body
  // ---------------------------------------------------------------------------

  /** The step is completed, and neither an output nor an error is there. */
  ghost predicate StepGoesOn(world: World, step: Step, before: State, after: State, fuel: nat) {
    RunStep(world, before, step, fuel) == (after, Completed)
    && after.entity.finalOutput.None? && after.entity.error.None?
  }

  /** A body, told by its steps: the first that is not completed, or leaves an output or an error, ends it. */
  lemma {:induction false} BodyAnswers(world: World, s: State, steps: seq<Step>, fuel: nat)
    returns (states: seq<State>)
    ensures 1 <= |states| <= |steps| + 1 && states[0] == s
    ensures forall i :: 0 <= i < |states| - 1 ==> StepGoesOn(world, steps[i], states[i], states[i + 1], fuel)
    ensures
      var n, end := |states| - 1, RunBody(world, s, steps, fuel);
      if n == |steps| then end == (states[n], Completed, false)
      else
        var (after, flow) := RunStep(world, states[n], steps[n], fuel);
        && end == (after, flow, flow == Completed)
        && (flow == Completed ==> after.entity.finalOutput.Some? || after.entity.error.Some?)
    decreases |steps|
  {
    states := [s];
    if steps != [] {
      hide RunStep;
      var (after, flow) := RunStep(world, s, steps[0], fuel);
      if flow == Completed && after.entity.finalOutput.None? && after.entity.error.None? {
        var rest := BodyAnswers(world, after, steps[1..], fuel);
        states := [s] + rest;
        assert StepGoesOn(world, steps[0], s, after, fuel);
        forall i | 0 < i < |states| - 1
          ensures StepGoesOn(world, steps[i], states[i], states[i + 1], fuel)
        {
          assert steps[1..][i - 1] == steps[i] && states[i] == rest[i - 1] && states[i + 1] == rest[i];
        }
      }
    }
  }

  // ---------------------------------------------------------------------------
  // Tries of an invocation
  // ---------------------------------------------------------------------------

  /** Once, unless the policy allows more. */
  function AllowedTries(invocation: Invocation): nat {
    match invocation.retryOnFail
    case None => 1
    case Some(policy) => if policy.max == 0 then 1 else policy.max
  }

  /** The try fails, is not the last allowed, and what precedes the next one is done. */
  ghost predicate TriesAgain(world: World, invocation: Invocation, before: State, after: State, number: nat) {
    var (tried, flow) := RunInvocationOnce(world, before, invocation, number);
    && flow.Raised? && number < AllowedTries(invocation) && invocation.retryOnFail.Some?
    && PrepareRetry(world, tried, invocation, flow.error, invocation.retryOnFail.value) == (after, Completed)
  }

  /** The last try succeeds, or is the last allowed and its error is returned, or preparing the next fails. */
  ghost predicate IsLastTry(world: World, invocation: Invocation, before: State, number: nat, end: (State, Flow)) {
    var (tried, flow) := RunInvocationOnce(world, before, invocation, number);
    if !flow.Raised? then end == (tried, flow)
    else if number == AllowedTries(invocation) then end == (tried, Raised(WithTries(flow.error, number)))
    else
      && invocation.retryOnFail.Some?
      && end == PrepareRetry(world, tried, invocation, flow.error, invocation.retryOnFail.value)
      && end.1 != Completed
  }

  /** A failed parse says how often it was tried. */
  function WithTries(error: RunError, number: nat): RunError {
    match error
    case LlmParseFailed(_, lastError) => LlmParseFailed(number, lastError)
    case _ => error
  }

  lemma {:induction false} TriesFrom(world: World, s: State, invocation: Invocation, number: nat)
    returns (states: seq<State>)
    requires 1 <= number <= MaxAttempts(invocation)
    ensures MaxAttempts(invocation) == AllowedTries(invocation)
    ensures states != [] && states[0] == s && number + |states| - 1 <= AllowedTries(invocation)
    ensures forall i :: 0 <= i < |states| - 1 ==>
      TriesAgain(world, invocation, states[i], states[i + 1], number + i)
    ensures IsLastTry(world, invocation, states[|states| - 1], number + |states| - 1,
                      RunAttempts(world, s, invocation, number))
    decreases MaxAttempts(invocation) - number
  {
    states := [s];
    hide RunInvocationOnce, PrepareRetry;
    var (tried, flow) := RunInvocationOnce(world, s, invocation, number);
    if flow.Raised? && number < MaxAttempts(invocation) && invocation.retryOnFail.Some? {
      var policy := invocation.retryOnFail.value;
      var (prepared, ready) := PrepareRetry(world, tried, invocation, flow.error, policy);
      if ready.Completed? {
        var rest := TriesFrom(world, prepared, invocation, number + 1);
        states := [s] + rest;
        assert TriesAgain(world, invocation, s, prepared, number);
        forall i | 0 < i < |states| - 1
          ensures TriesAgain(world, invocation, states[i], states[i + 1], number + i)
        {
          assert states[i] == rest[i - 1] && states[i + 1] == rest[i];
        }
      }
    }
  }

  /** An invocation, told by its tries: all but the last fail, they are numbered from one, and how the last ends. */
  lemma {:induction false} InvocationAnswers(world: World, s: State, invocation: Invocation, fuel: nat)
    returns (states: seq<State>)
    ensures states != [] && states[0] == s && |states| <= AllowedTries(invocation)
    ensures forall i :: 0 <= i < |states| - 1 ==> TriesAgain(world, invocation, states[i], states[i + 1], i + 1)
    ensures IsLastTry(world, invocation, states[|states| - 1], |states|, RunStep(world, s, Invoke(invocation), fuel))
  {
    hide TriesAgain, IsLastTry, RunAttempts;
    states := TriesFrom(world, s, invocation, 1);
  }

  /** A try calls the registered system, or else the host under a name made from the system's. */
  lemma TryAnswers(world: World, s: State, invocation: Invocation, number: nat)
    ensures
      var (after, flow) := RunInvocationOnce(world, s, invocation, number);
      && after.calls == s.calls + 1
      && after.attempts == s.attempts
           + [Attempt(invocation, number, s.entity.finalOutput.Some? || s.entity.error.Some?)]
      && if invocation.system in world.registered then
           match world.runSystem(s.calls, invocation.system, s.entity, invocation.args)
           case SystemFailed(error) => after.entity == s.entity && flow == Raised(error)
           case Delta(writes) => after.entity == Applied(s.entity, writes) && flow == Completed
         else
           match world.callHost(s.calls, "system." + (invocation.system + "@1"), s.entity, invocation.args)
           case HostFailed(error) => after.entity == s.entity && flow == Raised(error)
           case Response(writes, signal) =>
             after.entity == HostApplied(s.entity, writes, signal) && flow == Completed
  {
    assert "system." + invocation.system + "@1" == "system." + (invocation.system + "@1");
    hide Applied, HostApplied;
  }

  /** Nothing but a `ParseResponse` is prepared for its next try. */
  lemma PlainRetryAnswers(world: World, s: State, invocation: Invocation, error: RunError, policy: RetryPolicy)
    requires invocation.system != "ParseResponse"
    ensures PrepareRetry(world, s, invocation, error, policy) == (s, Completed)
  {
  }

  /** The message that goes with the next try: the policy's own words or the usual ones, and what went wrong. */
  ghost predicate IsNudge(world: World, invocation: Invocation, error: RunError, policy: RetryPolicy, text: string) {
    var words := match policy.nudge
      case Some(own) => own
      case None => "Your previous response failed. Retry carefully.";
    match error
    case LlmParseFailed(_, lastError) =>
      text == words + ("\n\nYour previous response could not be parsed: "
        + (lastError + "\nReply again and follow the required output format exactly."))
    case _ => text == words + ("\n\nSystem `" + (invocation.system + ("` failed: " + world.describe(error))))
  }

  lemma Regroup(a: string, b: string, c: string)
    ensures a + b + c == a + (b + c)
  {
  }

  lemma NudgeReads(world: World, invocation: Invocation, error: RunError, policy: RetryPolicy)
    ensures IsNudge(world, invocation, error, policy, RetryNudge(world, invocation, error, policy))
  {
    var prefix :=
      if policy.nudge.Some? then policy.nudge.value else "Your previous response failed. Retry carefully.";
    match error
    case LlmParseFailed(_, lastError) =>
      var head, tail := "\n\nYour previous response could not be parsed: ",
        "\nReply again and follow the required output format exactly.";
      Regroup(prefix + head, lastError, tail);
      Regroup(prefix, head, lastError + tail);
    case _ =>
      var a, b, c, d := "\n\nSystem `", invocation.system, "` failed: ", world.describe(error);
      Regroup(prefix + a + b, c, d);
      Regroup(prefix + a, b, c + d);
      Regroup(prefix, a, b + (c + d));
  }

  /** What is asked before a parse is repeated: a message more, and nothing left of the last response. */
  ghost predicate IsAskedAgain(was: Entity, now: Entity, text: string) {
    && was.currentMessages.Some? && now.currentMessages.Some?
    && now.currentMessages.value == was.currentMessages.value + [Message("user", text)]
    && now == was.(currentMessages := now.currentMessages, lastLlmResponse := None, parsedAction := None,
                   pendingToolCall := None, pendingToolCalls := [], lastThinkingBlocks := [])
  }

  /** Repeating a parse needs the messages and the LLM call, and makes that call, and then the hook if there is one. */
  lemma ParseRetryAnswers(world: World, s: State, invocation: Invocation, error: RunError, policy: RetryPolicy)
    returns (asked: Entity)
    requires invocation.system == "ParseResponse"
    ensures
      var end := PrepareRetry(world, s, invocation, error, policy);
      if s.entity.currentMessages.None? then
        end == (s, Raised(Internal("retry_on_fail for ParseResponse requires CurrentMessages")))
      else
        && IsAskedAgain(s.entity, asked, RetryNudge(world, invocation, error, policy))
        && if "CallLlm" !in world.registered then
             end == (s.(entity := asked), Raised(Internal("retry_on_fail for ParseResponse requires CallLlm")))
           else
             match world.runSystem(s.calls, "CallLlm", asked, "null")
             case SystemFailed(cause) => end == (s.(entity := asked, calls := s.calls + 1), Raised(cause))
             case Delta(writes) =>
               var called := s.(entity := Applied(asked, writes), calls := s.calls + 1);
               if "Hook" !in world.registered then end == (called, Completed)
               else
                 match world.runSystem(called.calls, "Hook", called.entity, "{\"hook\":\"after_llm_response\"}")
                 case SystemFailed(cause) => end == (called.(calls := s.calls + 2), Raised(cause))
                 case Delta(more) =>
                   end == (called.(entity := Applied(called.entity, more), calls := s.calls + 2), Completed)
  {
    hide RetryNudge, Applied;
    asked := s.entity;
    if s.entity.currentMessages.Some? {
      asked := Nudged(s.entity, s.entity.currentMessages.value, RetryNudge(world, invocation, error, policy));
    }
  }

  // ---------------------------------------------------------------------------
  // The result
  // ---------------------------------------------------------------------------

  /** A completed run returns its error if it has one, else its output, and an error of its own if it has neither. */
  lemma ResultAnswers(e: Entity, flow: Flow)
    ensures Conclude(e, flow) == Stalled <==> flow == Unfinished
    ensures forall v :: Conclude(e, flow) == Returned(v) <==>
      flow == Completed && e.error == None && e.finalOutput == Some(v)
    ensures forall cause :: Conclude(e, flow) == Erred(cause) <==>
      || flow == Raised(cause) || (flow == Completed && e.error == Some(cause))
      || (flow == Completed && e.error == None && e.finalOutput == None
          && cause == Internal("schedule exhausted without Final or Error"))
  {
  }
}
