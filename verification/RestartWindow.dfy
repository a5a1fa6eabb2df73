/**
 * The two sliding-window limiters of restarts: the supervisor pops expired attempts from the front of a
 * deque, the service daemon filters a list. Times are milliseconds.
 */
module RestartWindow {
  import opened Prelude

  const TWO_TO_THE_32: nat := 0x1_0000_0000

  function SaturatingSub(a: nat, b: nat): nat {
    if a >= b then a - b else 0
  }

  /** Whether an attempt still counts. */
  predicate Counts(at: nat, now: nat, withinMs: nat) {
    SaturatingSub(now, at) <= withinMs
  }

  function PoppedFront(log: seq<nat>, now: nat, withinMs: nat): (r: seq<nat>)
    ensures |r| <= |log|
  {
    if log == [] || Counts(log[0], now, withinMs) then log else PoppedFront(log[1..], now, withinMs)
  }

  function Retained(log: seq<nat>, now: nat, withinMs: nat): (r: seq<nat>)
    ensures |r| <= |log|
  {
    if log == [] then []
    else
      var last := log[|log| - 1];
      Retained(log[..|log| - 1], now, withinMs) + if Counts(last, now, withinMs) then [last] else []
  }

  // ---------------------------------------------------------------------------
  // The supervisor
  // ---------------------------------------------------------------------------

  datatype Strategy = OneForOne | OneForAll | RestForOne

  datatype ChildRestart = Permanent | Transient | Temporary

  datatype ExitReason = Normal | Shutdown | Killed | Error(message: string) | BudgetExceeded

  datatype ChildSpec = ChildSpec(id: string, actor: string, restart: ChildRestart, backoffMs: nat)

  datatype SupervisorAction = Restart(childId: string, afterMs: nat) | Stop(childId: string) | Shutdown(reason: string)

  predicate ShouldRestart(kind: ChildRestart, reason: ExitReason) {
    match kind
    case Permanent => true
    case Transient => !reason.Normal?
    case Temporary => false
  }

  /** The first child of the actor, or the number of children when there is none. */
  function Position(children: seq<ChildSpec>, actor: string): (i: nat)
    ensures i <= |children|
    ensures i < |children| ==> children[i].actor == actor
    ensures forall j :: 0 <= j < i ==> children[j].actor != actor
  {
    if children == [] || children[0].actor == actor then 0 else 1 + Position(children[1..], actor)
  }

  /** Restarts of a run of children, in their order. */
  function RestartsOf(children: seq<ChildSpec>): (r: seq<SupervisorAction>)
    ensures |r| == |children|
    ensures forall i :: 0 <= i < |r| ==> r[i] == Restart(children[i].id, children[i].backoffMs)
  {
    seq(|children|, i requires 0 <= i < |children| => Restart(children[i].id, children[i].backoffMs))
  }

  function RestartActions(strategy: Strategy, children: seq<ChildSpec>, failed: nat): (r: seq<SupervisorAction>)
    requires failed < |children|
    ensures var first := if strategy.OneForAll? then 0 else failed;
      && |r| == (if strategy.OneForOne? then 1 else |children| - first)
      && forall i :: 0 <= i < |r| ==> r[i] == Restart(children[first + i].id, children[first + i].backoffMs)
  {
    match strategy
    case OneForOne => RestartsOf([children[failed]])
    case OneForAll => RestartsOf(children)
    case RestForOne => RestartsOf(children[failed..])
  }

  datatype Exit = Exit(actor: string, reason: ExitReason, atMs: nat)

  /** Whether an exit asks for a restart: only these are logged. */
  predicate IsAttempt(children: seq<ChildSpec>, exit: Exit) {
    var i := Position(children, exit.actor);
    i < |children| && ShouldRestart(children[i].restart, exit.reason)
  }

  function LogAfter(children: seq<ChildSpec>, log: seq<nat>, exit: Exit, withinMs: nat): seq<nat> {
    if IsAttempt(children, exit) then PoppedFront(log, exit.atMs, withinMs) + [exit.atMs] else log
  }

  function Answer(
    strategy: Strategy, children: seq<ChildSpec>, log: seq<nat>, exit: Exit, maxRestarts: nat, withinMs: nat)
    : seq<SupervisorAction>
  {
    var i := Position(children, exit.actor);
    if i == |children| then []
    else if !ShouldRestart(children[i].restart, exit.reason) then [Stop(children[i].id)]
    else if |LogAfter(children, log, exit, withinMs)| > maxRestarts then
      [SupervisorAction.Shutdown("restart intensity exceeded")]
    else RestartActions(strategy, children, i)
  }

  class Supervisor {
    const strategy: Strategy
    const maxRestarts: nat
    const withinMs: nat
    var children: seq<ChildSpec>
    var restartLog: seq<nat>

    constructor (strategy: Strategy, maxRestarts: nat, withinMs: nat)
      ensures this.strategy == strategy && this.maxRestarts == maxRestarts && this.withinMs == withinMs
      ensures children == [] && restartLog == []
    {
      this.strategy, this.maxRestarts, this.withinMs := strategy, maxRestarts, withinMs;
      children, restartLog := [], [];
    }

    method AddChild(spec: ChildSpec)
      modifies this`children
      ensures children == old(children) + [spec]
    {
      children := children + [spec];
    }

    method RecordRestartAllowed(atMs: nat) returns (granted: bool)
      modifies this`restartLog
      ensures restartLog == PoppedFront(old(restartLog), atMs, withinMs) + [atMs]
      ensures granted <==> |restartLog| <= maxRestarts
    {
      while |restartLog| > 0 && SaturatingSub(atMs, restartLog[0]) > withinMs
        invariant PoppedFront(restartLog, atMs, withinMs) == PoppedFront(old(restartLog), atMs, withinMs)
        decreases |restartLog|
      {
        restartLog := restartLog[1..];
      }
      restartLog := restartLog + [atMs];
      granted := |restartLog| <= maxRestarts;
    }

    method HandleExit(exit: Exit) returns (actions: seq<SupervisorAction>)
      modifies this`restartLog
      ensures restartLog == LogAfter(children, old(restartLog), exit, withinMs)
      ensures actions == Answer(strategy, children, old(restartLog), exit, maxRestarts, withinMs)
    {
      hide PoppedFront, RestartActions, Position;
      var index := Position(children, exit.actor);
      if index == |children| {
        return [];
      }
      if !ShouldRestart(children[index].restart, exit.reason) {
        return [Stop(children[index].id)];
      }
      var granted := RecordRestartAllowed(exit.atMs);
      if !granted {
        return [SupervisorAction.Shutdown("restart intensity exceeded")];
      }
      actions := RestartActions(strategy, children, index);
    }
  }

  // ---------------------------------------------------------------------------
  // The service daemon
  // ---------------------------------------------------------------------------

  function WindowOf(windows: map<string, seq<nat>>, name: string): seq<nat> {
    if name in windows then windows[name] else []
  }

  class GatewayDaemon {
    var serviceRestartWindows: map<string, seq<nat>>

    constructor ()
      ensures serviceRestartWindows == map[]
    {
      serviceRestartWindows := map[];
    }

    /** The limit is a 32-bit number, and the length is cut to 32 bits before the two are compared. */
    method RestartAllowed(name: string, maxRestarts: nat, withinMs: nat, now: nat) returns (granted: bool)
      requires maxRestarts < TWO_TO_THE_32
      modifies this
      ensures var window := Retained(WindowOf(old(serviceRestartWindows), name), now, withinMs) + [now];
        && serviceRestartWindows == old(serviceRestartWindows)[name := window]
        && (granted <==> |window| % TWO_TO_THE_32 <= maxRestarts)
    {
      var window := WindowOf(serviceRestartWindows, name);
      window := Retained(window, now, withinMs);
      window := window + [now];
      serviceRestartWindows := serviceRestartWindows[name := window];
      granted := |window| % TWO_TO_THE_32 <= maxRestarts;
    }
  }

  // ---------------------------------------------------------------------------
  // Both windows are the recent part of the history
  // ---------------------------------------------------------------------------

  /** The deque after attempts at the given times. */
  function DequeAfter(times: seq<nat>, withinMs: nat): seq<nat> {
    if times == [] then []
    else
      var now := times[|times| - 1];
      PoppedFront(DequeAfter(times[..|times| - 1], withinMs), now, withinMs) + [now]
  }

  /** The filtered list after the same attempts. */
  function WindowAfter(times: seq<nat>, withinMs: nat): seq<nat> {
    if times == [] then []
    else
      var now := times[|times| - 1];
      Retained(WindowAfter(times[..|times| - 1], withinMs), now, withinMs) + [now]
  }

  /** The clock does not go back. */
  ghost predicate Monotone(times: seq<nat>) {
    forall i, j :: 0 <= i < j < |times| ==> times[i] <= times[j]
  }

  /** Where the attempts that still count begin. */
  function FirstCounting(times: seq<nat>, now: nat, withinMs: nat): (n: nat)
    ensures n <= |times|
    ensures forall i :: 0 <= i < n ==> !Counts(times[i], now, withinMs)
    ensures n < |times| ==> Counts(times[n], now, withinMs)
  {
    if times == [] || Counts(times[0], now, withinMs) then 0 else 1 + FirstCounting(times[1..], now, withinMs)
  }

  lemma {:induction false} PoppedIsSuffix(times: seq<nat>, now: nat, withinMs: nat)
    ensures PoppedFront(times, now, withinMs) == times[FirstCounting(times, now, withinMs)..]
  {
    if times != [] && !Counts(times[0], now, withinMs) {
      PoppedIsSuffix(times[1..], now, withinMs);
    }
  }

  lemma {:induction false} RetainedIsSuffix(times: seq<nat>, now: nat, withinMs: nat, n: nat)
    requires n <= |times|
    requires forall i :: 0 <= i < n ==> !Counts(times[i], now, withinMs)
    requires forall i :: n <= i < |times| ==> Counts(times[i], now, withinMs)
    ensures Retained(times, now, withinMs) == times[n..]
  {
    if times != [] {
      hide Counts;
      var last := |times| - 1;
      if n <= last {
        RetainedIsSuffix(times[..last], now, withinMs, n);
        assert Counts(times[last], now, withinMs);
        assert times[..last][n..] + [times[last]] == times[n..];
      } else {
        RetainedIsSuffix(times[..last], now, withinMs, last);
        assert times[..last][last..] == [] && times[n..] == [];
      }
    }
  }

  /** What no longer counted earlier does not count later. */
  lemma FirstMovesOn(times: seq<nat>, earlier: nat, now: nat, withinMs: nat)
    requires earlier <= now
    ensures FirstCounting(times, earlier, withinMs) <= FirstCounting(times, now, withinMs)
  {
    var m := FirstCounting(times, earlier, withinMs);
    forall i | 0 <= i < m
      ensures !Counts(times[i], now, withinMs)
    {
      assert !Counts(times[i], earlier, withinMs);
    }
  }

  lemma {:induction false} RetainedFromFirst(times: seq<nat>, now: nat, withinMs: nat)
    requires Monotone(times)
    ensures Retained(times, now, withinMs) == times[FirstCounting(times, now, withinMs)..]
  {
    CountsFromOn(times, now, withinMs);
    RetainedIsSuffix(times, now, withinMs, FirstCounting(times, now, withinMs));
  }

  lemma {:induction false} FirstInSuffix(times: seq<nat>, now: nat, withinMs: nat, m: nat)
    requires m <= FirstCounting(times, now, withinMs)
    ensures FirstCounting(times[m..], now, withinMs) == FirstCounting(times, now, withinMs) - m
  {
    var n := FirstCounting(times, now, withinMs);
    assert forall i :: 0 <= i < |times| - m ==> times[m..][i] == times[m + i];
    FirstIsUnique(times[m..], now, withinMs, n - m);
  }

  /** Both ways to expire attempts, from what counted earlier to what counts now. */
  lemma {:induction false} SuffixOfSuffix(times: seq<nat>, earlier: nat, now: nat, withinMs: nat)
    requires Monotone(times) && earlier <= now
    ensures var kept, r := Retained(times, earlier, withinMs), Retained(times, now, withinMs);
      PoppedFront(kept, now, withinMs) == r && Retained(kept, now, withinMs) == r
  {
    var m, n := FirstCounting(times, earlier, withinMs), FirstCounting(times, now, withinMs);
    hide FirstCounting, Retained, PoppedFront, Counts;
    RetainedFromFirst(times, earlier, withinMs);
    RetainedFromFirst(times, now, withinMs);
    FirstMovesOn(times, earlier, now, withinMs);
    var kept := times[m..];
    FirstInSuffix(times, now, withinMs, m);
    PoppedIsSuffix(kept, now, withinMs);
    RetainedFromFirst(kept, now, withinMs);
    assert kept[n - m..] == times[n..];
  }

  lemma FirstIsUnique(times: seq<nat>, now: nat, withinMs: nat, n: nat)
    requires n <= |times|
    requires forall i :: 0 <= i < n ==> !Counts(times[i], now, withinMs)
    requires n < |times| ==> Counts(times[n], now, withinMs)
    ensures FirstCounting(times, now, withinMs) == n
  {
  }

  lemma CountsFromOn(times: seq<nat>, now: nat, withinMs: nat)
    requires Monotone(times)
    ensures forall i :: FirstCounting(times, now, withinMs) <= i < |times| ==> Counts(times[i], now, withinMs)
  {
  }

  /** Deque and list are both the filtered full history of attempts. */
  lemma {:induction false} WindowsAreRecentHistory(times: seq<nat>, withinMs: nat)
    requires Monotone(times) && times != []
    ensures DequeAfter(times, withinMs) == Retained(times, times[|times| - 1], withinMs)
    ensures WindowAfter(times, withinMs) == Retained(times, times[|times| - 1], withinMs)
  {
    var before, now := times[..|times| - 1], times[|times| - 1];
    assert Counts(now, now, withinMs);
    if before == [] {
      assert Retained(before, now, withinMs) == [];
    } else {
      var earlier := before[|before| - 1];
      WindowsAreRecentHistory(before, withinMs);
      SuffixOfSuffix(before, earlier, now, withinMs);
    }
  }

  /** Both answers to the last of the attempts are the same under this limit. */
  predicate DecideAlike(times: seq<nat>, withinMs: nat, maxRestarts: nat) {
    |DequeAfter(times, withinMs)| <= maxRestarts <==> |WindowAfter(times, withinMs)| % TWO_TO_THE_32 <= maxRestarts
  }

  /**
   * With a clock that does not go back, the limiters decide alike under every limit if and only if fewer
   * than 2 to the 32nd attempts of the history still count.
   */
  lemma DecisionsAgreeIff(times: seq<nat>, withinMs: nat)
    requires Monotone(times) && times != []
    ensures (forall maxRestarts: nat :: maxRestarts < 4294967296 ==> DecideAlike(times, withinMs, maxRestarts))
      <==> |Retained(times, times[|times| - 1], withinMs)| < 4294967296
  {
    WindowsAreRecentHistory(times, withinMs);
    hide DequeAfter, WindowAfter, Retained, Monotone;
    var n := |WindowAfter(times, withinMs)|;
    if n >= TWO_TO_THE_32 {
      assert !DecideAlike(times, withinMs, n % TWO_TO_THE_32);
    }
  }

  // ---------------------------------------------------------------------------
  // A clock that goes back
  // ---------------------------------------------------------------------------

  /** In a log in order, both ways to expire attempts come to the same, wherever the clock stands. */
  lemma {:induction false} ExpiryOfSorted(log: seq<nat>, now: nat, withinMs: nat)
    requires Monotone(log)
    ensures PoppedFront(log, now, withinMs) == Retained(log, now, withinMs)
  {
    PoppedIsSuffix(log, now, withinMs);
    RetainedFromFirst(log, now, withinMs);
  }

  predicate AllCount(log: seq<nat>, now: nat, withinMs: nat) {
    forall k :: 0 <= k < |log| ==> Counts(log[k], now, withinMs)
  }

  lemma {:induction false} RetainedCounts(log: seq<nat>, now: nat, withinMs: nat)
    ensures AllCount(Retained(log, now, withinMs), now, withinMs)
  {
    if log != [] {
      RetainedCounts(log[..|log| - 1], now, withinMs);
    }
  }

  /** In a window as wide as the largest time, nothing expires. */
  lemma {:induction false} NothingExpires(times: seq<nat>, withinMs: nat)
    requires forall i :: 0 <= i < |times| ==> times[i] <= withinMs
    ensures DequeAfter(times, withinMs) == times && WindowAfter(times, withinMs) == times
  {
    if times != [] {
      var before, now := times[..|times| - 1], times[|times| - 1];
      NothingExpires(before, withinMs);
      NoneExpires(before, now, withinMs);
      assert times == before + [now];
    }
  }

  lemma {:induction false} NoneExpires(log: seq<nat>, now: nat, withinMs: nat)
    requires AllCount(log, now, withinMs)
    ensures PoppedFront(log, now, withinMs) == log && Retained(log, now, withinMs) == log
  {
    if log != [] {
      NoneExpires(log[..|log| - 1], now, withinMs);
    }
  }

  lemma {:induction false} LargestTime(times: seq<nat>) returns (largest: nat)
    ensures forall i :: 0 <= i < |times| ==> times[i] <= largest
  {
    largest := 0;
    if times != [] {
      largest := LargestTime(times[..|times| - 1]);
      if times[|times| - 1] > largest {
        largest := times[|times| - 1];
      }
    }
  }

  lemma WindowStep(times: seq<nat>, now: nat, withinMs: nat)
    ensures DequeAfter(times + [now], withinMs) == PoppedFront(DequeAfter(times, withinMs), now, withinMs) + [now]
    ensures WindowAfter(times + [now], withinMs) == Retained(WindowAfter(times, withinMs), now, withinMs) + [now]
  {
    assert (times + [now])[..|times|] == times;
  }

  /** The next attempt leaves deque and list equal. */
  predicate StayEqual(times: seq<nat>, now: nat, withinMs: nat) {
    DequeAfter(times + [now], withinMs) == WindowAfter(times + [now], withinMs)
  }

  /** An attempt made after a later one outlives its time behind it, in the deque only. */
  lemma {:induction false} SetBackIsKept(times: seq<nat>, i: nat, j: nat) returns (now: nat, withinMs: nat)
    requires i < j < |times| && times[i] > times[j]
    ensures !StayEqual(times, now, withinMs)
  {
    withinMs := LargestTime(times);
    now := times[j] + withinMs + 1;
    NothingExpires(times, withinMs);
    WindowStep(times, now, withinMs);
    hide DequeAfter, WindowAfter, Retained, PoppedFront;
    KeptBehind(times, now, withinMs, i, j);
    RetainedCounts(times, now, withinMs);
    var popped, retained := PoppedFront(times, now, withinMs), Retained(times, now, withinMs);
    var k :| 0 <= k < |popped| && !Counts(popped[k], now, withinMs);
    assert k < |retained| ==> Counts(retained[k], now, withinMs);
    ExtendedDiffer(popped, retained, now, k);
  }

  /** What counts at `i` keeps what does not count at `j`. */
  lemma {:induction false} KeptBehind(times: seq<nat>, now: nat, withinMs: nat, i: nat, j: nat)
    requires i < j < |times| && Counts(times[i], now, withinMs) && !Counts(times[j], now, withinMs)
    ensures var r := PoppedFront(times, now, withinMs);
      !AllCount(r, now, withinMs)
  {
    PoppedIsSuffix(times, now, withinMs);
    var m := FirstCounting(times, now, withinMs);
    assert m <= i && times[m..][j - m] == times[j];
  }

  lemma ExtendedDiffer(a: seq<nat>, b: seq<nat>, x: nat, k: nat)
    requires k < |a| && (k < |b| ==> a[k] != b[k])
    ensures a + [x] != b + [x]
  {
    if |a| == |b| {
      assert (a + [x])[k] != (b + [x])[k];
    }
  }

  /**
   * Deque and list stay equal at every next attempt, whenever it comes and however wide the window, if and
   * only if the clock has not gone back so far.
   */
  lemma StayEqualIff(times: seq<nat>)
    ensures (forall now: nat, withinMs: nat :: StayEqual(times, now, withinMs)) <==> Monotone(times)
  {
    if Monotone(times) {
      forall now: nat, withinMs: nat
        ensures StayEqual(times, now, withinMs)
      {
        SortedStayEqual(times, now, withinMs);
      }
    } else {
      var i, j :| 0 <= i < j < |times| && times[i] > times[j];
      var now, withinMs := SetBackIsKept(times, i, j);
    }
  }

  lemma {:induction false} SortedStayEqual(times: seq<nat>, now: nat, withinMs: nat)
    requires Monotone(times)
    ensures StayEqual(times, now, withinMs)
  {
    WindowStep(times, now, withinMs);
    var log := DequeAfter(times, withinMs);
    if times != [] {
      var last := times[|times| - 1];
      WindowsAreRecentHistory(times, withinMs);
      RetainedFromFirst(times, last, withinMs);
    }
    ExpiryOfSorted(log, now, withinMs);
  }

  // ---------------------------------------------------------------------------
  // Restart intensity over whole runs of exits
  // ---------------------------------------------------------------------------

  /** The times of the exits that ask for a restart. */
  function Attempts(children: seq<ChildSpec>, exits: seq<Exit>): seq<nat> {
    if exits == [] then []
    else
      var last := exits[|exits| - 1];
      Attempts(children, exits[..|exits| - 1]) + if IsAttempt(children, last) then [last.atMs] else []
  }

  /** The restart log after a run of exits. */
  function RestartLog(children: seq<ChildSpec>, exits: seq<Exit>, withinMs: nat): seq<nat> {
    if exits == [] then []
    else LogAfter(children, RestartLog(children, exits[..|exits| - 1], withinMs), exits[|exits| - 1], withinMs)
  }

  /** Whether the last exit of a run is answered with restarts. */
  predicate Granted(children: seq<ChildSpec>, exits: seq<Exit>, maxRestarts: nat, withinMs: nat)
    requires exits != []
  {
    IsAttempt(children, exits[|exits| - 1]) && |RestartLog(children, exits, withinMs)| <= maxRestarts
  }

  lemma {:induction false} GrantedIsAnswered(
    strategy: Strategy, children: seq<ChildSpec>, exits: seq<Exit>, maxRestarts: nat, withinMs: nat)
    requires exits != []
    ensures
      var log := RestartLog(children, exits[..|exits| - 1], withinMs);
      Granted(children, exits, maxRestarts, withinMs) <==>
      HasRestart(Answer(strategy, children, log, exits[|exits| - 1], maxRestarts, withinMs))
  {
    var log := RestartLog(children, exits[..|exits| - 1], withinMs);
    LastAnswer(strategy, children, log, exits[|exits| - 1], maxRestarts, withinMs);
  }

  predicate HasRestart(answer: seq<SupervisorAction>) {
    exists i :: 0 <= i < |answer| && answer[i].Restart?
  }

  /** What each answer means: nothing, a stop, a shutdown, or restarts of the failed child and perhaps others. */
  lemma LastAnswer(
    strategy: Strategy, children: seq<ChildSpec>, log: seq<nat>, exit: Exit, maxRestarts: nat, withinMs: nat)
    ensures
      var answer := Answer(strategy, children, log, exit, maxRestarts, withinMs);
      var allowed := |LogAfter(children, log, exit, withinMs)| <= maxRestarts;
      && (HasRestart(answer) <==> IsAttempt(children, exit) && allowed)
      && (answer == [] <==> forall i :: 0 <= i < |children| ==> children[i].actor != exit.actor)
      && (|answer| == 1 && answer[0].Shutdown? <==> IsAttempt(children, exit) && !allowed)
  {
    hide PoppedFront, RestartActions, Position;
    var answer := Answer(strategy, children, log, exit, maxRestarts, withinMs);
    if IsAttempt(children, exit) && |LogAfter(children, log, exit, withinMs)| <= maxRestarts {
      assert answer[0].Restart?;
    }
  }

  /** A permanent child is always restarted, a transient one unless it exits normally, a temporary one never. */
  predicate WantsRestart(child: ChildSpec, reason: ExitReason) {
    child.restart == Permanent || (child.restart == Transient && reason != Normal)
  }

  /** The restarts of children from one place to another, in their order and with their own delays. */
  predicate AreRestarts(children: seq<ChildSpec>, from: nat, to: nat, answer: seq<SupervisorAction>)
    requires from <= to <= |children|
  {
    |answer| == to - from && forall k :: 0 <= k < to - from ==>
      answer[k] == Restart(children[from + k].id, children[from + k].backoffMs)
  }

  /** The answer to an exit of the `i`-th child, which is the first of its actor, and the log behind it. */
  lemma {:induction false} ExitAnswers(
    strategy: Strategy, children: seq<ChildSpec>, log: seq<nat>, exit: Exit, maxRestarts: nat, withinMs: nat, i: nat)
    requires i < |children| && children[i].actor == exit.actor
    requires forall j :: 0 <= j < i ==> children[j].actor != exit.actor
    ensures
      var answer := Answer(strategy, children, log, exit, maxRestarts, withinMs);
      var after := LogAfter(children, log, exit, withinMs);
      if !WantsRestart(children[i], exit.reason) then answer == [Stop(children[i].id)] && after == log
      else
        && after != [] && after[|after| - 1] == exit.atMs
        && if |after| > maxRestarts then answer == [SupervisorAction.Shutdown("restart intensity exceeded")]
           else match strategy
             case OneForOne => AreRestarts(children, i, i + 1, answer)
             case OneForAll => AreRestarts(children, 0, |children|, answer)
             case RestForOne => AreRestarts(children, i, |children|, answer)
  {
    PositionIsFirst(children, exit.actor, i);
    hide PoppedFront, Position, RestartActions;
  }

  lemma {:induction false} PositionIsFirst(children: seq<ChildSpec>, actor: string, i: nat)
    requires i < |children| && children[i].actor == actor
    requires forall j :: 0 <= j < i ==> children[j].actor != actor
    ensures Position(children, actor) == i
  {
    hide Position;
    assert !(Position(children, actor) > i);
  }

  /** How many exits at times from `lo` to `lo + withinMs` are answered with restarts. */
  function GrantedWithin(children: seq<ChildSpec>, exits: seq<Exit>, maxRestarts: nat, withinMs: nat, lo: nat): nat {
    if exits == [] then 0
    else
      GrantedWithin(children, exits[..|exits| - 1], maxRestarts, withinMs, lo) +
      if lo <= exits[|exits| - 1].atMs <= lo + withinMs && Granted(children, exits, maxRestarts, withinMs) then 1 else 0
  }

  ghost predicate MonotoneExits(exits: seq<Exit>) {
    forall i, j :: 0 <= i < j < |exits| ==> exits[i].atMs <= exits[j].atMs
  }

  lemma {:induction false} LogIsDeque(children: seq<ChildSpec>, exits: seq<Exit>, withinMs: nat)
    ensures RestartLog(children, exits, withinMs) == DequeAfter(Attempts(children, exits), withinMs)
  {
    if exits != [] {
      var before, last := exits[..|exits| - 1], exits[|exits| - 1];
      LogIsDeque(children, before, withinMs);
      if IsAttempt(children, last) {
        assert Attempts(children, exits)[..|Attempts(children, before)|] == Attempts(children, before);
      } else {
        assert Attempts(children, exits) == Attempts(children, before);
      }
    }
  }

  // ---------------------------------------------------------------------------
  // Grants as a matter of the attempts alone
  // ---------------------------------------------------------------------------

  predicate InSpan(at: nat, lo: nat, withinMs: nat) {
    lo <= at <= lo + withinMs
  }

  /** How many of the attempts at these times are granted within the span. */
  function GrantedOf(times: seq<nat>, maxRestarts: nat, withinMs: nat, lo: nat): nat {
    if times == [] then 0
    else
      GrantedOf(times[..|times| - 1], maxRestarts, withinMs, lo) +
      if InSpan(times[|times| - 1], lo, withinMs) && |DequeAfter(times, withinMs)| <= maxRestarts then 1 else 0
  }

  lemma {:induction false} NextGrant(times: seq<nat>, now: nat, maxRestarts: nat, withinMs: nat, lo: nat)
    ensures GrantedOf(times + [now], maxRestarts, withinMs, lo)
      == GrantedOf(times, maxRestarts, withinMs, lo)
        + if InSpan(now, lo, withinMs) && |DequeAfter(times + [now], withinMs)| <= maxRestarts then 1 else 0
  {
    hide DequeAfter;
    assert (times + [now])[..|times|] == times;
  }

  lemma {:induction false} NextAttempt(children: seq<ChildSpec>, exits: seq<Exit>)
    requires exits != []
    ensures
      var before, last := Attempts(children, exits[..|exits| - 1]), exits[|exits| - 1];
      Attempts(children, exits) == if IsAttempt(children, last) then before + [last.atMs] else before
  {
    hide IsAttempt;
  }

  lemma {:induction false} GrantsOfAttempts(
    children: seq<ChildSpec>, exits: seq<Exit>, maxRestarts: nat, withinMs: nat, lo: nat)
    ensures GrantedWithin(children, exits, maxRestarts, withinMs, lo)
      == GrantedOf(Attempts(children, exits), maxRestarts, withinMs, lo)
  {
    if exits != [] {
      hide Attempts, DequeAfter, RestartLog, IsAttempt, GrantedOf;
      var before, last := exits[..|exits| - 1], exits[|exits| - 1];
      GrantsOfAttempts(children, before, maxRestarts, withinMs, lo);
      LogIsDeque(children, exits, withinMs);
      NextAttempt(children, exits);
      NextGrant(Attempts(children, before), last.atMs, maxRestarts, withinMs, lo);
    } else {
      assert Attempts(children, exits) == [];
    }
  }

  function CountInSpan(times: seq<nat>, lo: nat, withinMs: nat): nat {
    if times == [] then 0
    else
      CountInSpan(times[..|times| - 1], lo, withinMs) + if InSpan(times[|times| - 1], lo, withinMs) then 1 else 0
  }

  lemma {:induction false} GrantsAreInSpan(times: seq<nat>, maxRestarts: nat, withinMs: nat, lo: nat)
    ensures GrantedOf(times, maxRestarts, withinMs, lo) <= CountInSpan(times, lo, withinMs)
  {
    hide DequeAfter, InSpan;
    if times != [] {
      GrantsAreInSpan(times[..|times| - 1], maxRestarts, withinMs, lo);
    }
  }

  /** From place `n` on at most everybody is in the span, and one less if `j` is not. */
  lemma {:induction false} CountFrom(times: seq<nat>, lo: nat, withinMs: nat, n: nat, j: nat)
    requires n <= |times|
    ensures CountInSpan(times, lo, withinMs) <= CountInSpan(times[..n], lo, withinMs) + (|times| - n)
      - if n <= j < |times| && !InSpan(times[j], lo, withinMs) then 1 else 0
  {
    hide InSpan;
    if n < |times| {
      var front := times[..|times| - 1];
      assert front[..n] == times[..n];
      CountFrom(front, lo, withinMs, n, j);
    } else {
      assert times[..n] == times;
    }
  }

  lemma {:induction false} SomeInSpan(times: seq<nat>, lo: nat, withinMs: nat) returns (a: nat)
    requires CountInSpan(times, lo, withinMs) >= 1
    ensures a < |times| && InSpan(times[a], lo, withinMs)
  {
    hide InSpan;
    a := |times| - 1;
    if !InSpan(times[a], lo, withinMs) {
      a := SomeInSpan(times[..a], lo, withinMs);
    }
  }

  lemma {:induction false} TwoInSpan(times: seq<nat>, lo: nat, withinMs: nat) returns (a: nat, b: nat)
    requires CountInSpan(times, lo, withinMs) >= 2
    ensures a < b < |times| && InSpan(times[a], lo, withinMs) && InSpan(times[b], lo, withinMs)
  {
    hide InSpan;
    b := |times| - 1;
    if InSpan(times[b], lo, withinMs) {
      a := SomeInSpan(times[..b], lo, withinMs);
    } else {
      a, b := TwoInSpan(times[..b], lo, withinMs);
    }
  }

  // ---------------------------------------------------------------------------
  // A clock that slips back
  // ---------------------------------------------------------------------------

  predicate Near(a: nat, b: nat, withinMs: nat) {
    a <= b + withinMs && b <= a + withinMs
  }

  /** Two attempts are too old for the third, and the fourth is near both of them again. */
  predicate SlipsAt(times: seq<nat>, withinMs: nat, a: int, b: int, j: int, k: int) {
    && 0 <= a < b < j < k < |times|
    && times[a] + withinMs < times[j] && times[b] + withinMs < times[j]
    && Near(times[a], times[b], withinMs) && Near(times[a], times[k], withinMs) && Near(times[b], times[k], withinMs)
  }

  ghost predicate Slips(times: seq<nat>, withinMs: nat) {
    exists a, b, j, k :: SlipsAt(times, withinMs, a, b, j, k)
  }

  /** The attempt at `j` came too late for all those before `n`. */
  predicate Outlasts(times: seq<nat>, withinMs: nat, n: int, j: int) {
    0 <= n <= j < |times| && forall m :: 0 <= m < n ==> times[m] + withinMs < times[j]
  }

  lemma {:induction false} PoppedFrom(times: seq<nat>, n0: nat, now: nat, withinMs: nat) returns (n: nat)
    requires n0 <= |times|
    ensures n0 <= n <= |times| && PoppedFront(times[n0..], now, withinMs) == times[n..]
    ensures forall m :: n0 <= m < n ==> times[m] + withinMs < now
  {
    var log := times[n0..];
    PoppedIsSuffix(log, now, withinMs);
    n := n0 + FirstCounting(log, now, withinMs);
    forall m | n0 <= m < n
      ensures times[m] + withinMs < now
    {
      assert !Counts(log[m - n0], now, withinMs) && log[m - n0] == times[m];
    }
  }

  /** The deque is the attempts from some place on, and one of them came too late for all that are gone. */
  lemma {:induction false} DequeIsSuffix(times: seq<nat>, withinMs: nat) returns (n: nat, j: nat)
    requires times != []
    ensures n <= j < |times| && Outlasts(times, withinMs, n, j) && DequeAfter(times, withinMs) == times[n..]
  {
    hide Outlasts, PoppedFront, DequeAfter;
    var before, now := times[..|times| - 1], times[|times| - 1];
    assert times == before + [now];
    WindowStep(before, now, withinMs);
    if before == [] {
      n, j := 0, 0;
      FirstOutlasts(now, withinMs);
    } else {
      var n0, j0 := DequeIsSuffix(before, withinMs);
      n := PoppedFrom(before, n0, now, withinMs);
      j := NextOutlasts(before, now, withinMs, n0, j0, n);
      assert before[n..] + [now] == times[n..];
    }
  }

  lemma FirstOutlasts(now: nat, withinMs: nat)
    ensures Outlasts([now], withinMs, 0, 0) && PoppedFront(DequeAfter([], withinMs), now, withinMs) == []
  {
  }

  lemma {:induction false} NextOutlasts(
    before: seq<nat>, now: nat, withinMs: nat, n0: nat, j0: nat, n: nat) returns (j: nat)
    requires Outlasts(before, withinMs, n0, j0) && n0 <= n <= |before|
    requires forall m :: n0 <= m < n ==> before[m] + withinMs < now
    ensures n <= j <= |before| && Outlasts(before + [now], withinMs, n, j)
  {
    j := if n <= j0 && before[j0] > now then j0 else |before|;
    forall m | 0 <= m < n
      ensures before[m] + withinMs < (before + [now])[j]
    {
      assert m < n0 ==> before[m] + withinMs < before[j0];
    }
  }

  lemma {:induction false} LastGrantSlips(times: seq<nat>, maxRestarts: nat, withinMs: nat, lo: nat)
    requires times != [] && InSpan(times[|times| - 1], lo, withinMs)
    requires |DequeAfter(times, withinMs)| <= maxRestarts < CountInSpan(times, lo, withinMs)
    ensures Slips(times, withinMs)
  {
    var n, j := DequeIsSuffix(times, withinMs);
    hide DequeAfter, CountInSpan;
    CountFrom(times, lo, withinMs, n, j);
    var some := SomeInSpan(times[..n], lo, withinMs);
    assert !InSpan(times[j], lo, withinMs);
    var a, b := TwoInSpan(times[..n], lo, withinMs);
    assert SlipsAt(times, withinMs, a, b, j, |times| - 1);
  }

  lemma {:induction false} TooManySlip(times: seq<nat>, maxRestarts: nat, withinMs: nat, lo: nat)
    requires GrantedOf(times, maxRestarts, withinMs, lo) > maxRestarts
    ensures Slips(times, withinMs)
  {
    hide DequeAfter, InSpan;
    var front := times[..|times| - 1];
    if GrantedOf(front, maxRestarts, withinMs, lo) > maxRestarts {
      TooManySlip(front, maxRestarts, withinMs, lo);
      var a, b, j, k :| SlipsAt(front, withinMs, a, b, j, k);
      assert SlipsAt(times, withinMs, a, b, j, k);
    } else {
      GrantsAreInSpan(times, maxRestarts, withinMs, lo);
      LastGrantSlips(times, maxRestarts, withinMs, lo);
    }
  }

  function TimesOf(exits: seq<Exit>): (times: seq<nat>)
    ensures |times| == |exits| && forall i :: 0 <= i < |exits| ==> times[i] == exits[i].atMs
  {
    seq(|exits|, i requires 0 <= i < |exits| => exits[i].atMs)
  }

  /** Where the attempts stand among the exits. */
  lemma {:induction false} AttemptsAreExits(children: seq<ChildSpec>, exits: seq<Exit>) returns (at: seq<nat>)
    ensures |at| == |Attempts(children, exits)|
    ensures forall i :: 0 <= i < |at| ==> at[i] < |exits| && Attempts(children, exits)[i] == exits[at[i]].atMs
    ensures forall i, j :: 0 <= i < j < |at| ==> at[i] < at[j]
  {
    hide IsAttempt;
    at := [];
    if exits != [] {
      at := AttemptsAreExits(children, exits[..|exits| - 1]);
      if IsAttempt(children, exits[|exits| - 1]) {
        at := at + [|exits| - 1];
      }
    }
  }

  lemma {:induction false} ExitsSlip(children: seq<ChildSpec>, exits: seq<Exit>, withinMs: nat)
    requires Slips(Attempts(children, exits), withinMs)
    ensures Slips(TimesOf(exits), withinMs)
  {
    var at := AttemptsAreExits(children, exits);
    hide Attempts;
    var a, b, j, k :| SlipsAt(Attempts(children, exits), withinMs, a, b, j, k);
    assert SlipsAt(TimesOf(exits), withinMs, at[a], at[b], at[j], at[k]);
  }

  // ---------------------------------------------------------------------------
  // Three grants where two are allowed
  // ---------------------------------------------------------------------------

  const WATCHED: seq<ChildSpec> := [ChildSpec("child", "watched", Permanent, 0)]

  /** Exits at these times, of which those at the kept places ask for a restart. */
  function ExitsAt(times: seq<nat>, keep: set<nat>): seq<Exit> {
    seq(|times|, i requires 0 <= i < |times| => Exit(if i in keep then "watched" else "other", Killed, times[i]))
  }

  /** The attempts among the exits up to place `i`. */
  function KeptUpTo(times: seq<nat>, keep: set<nat>, i: nat): seq<nat>
    requires i <= |times|
  {
    Attempts(WATCHED, ExitsAt(times, keep)[..i])
  }

  lemma {:induction false} KeptNext(times: seq<nat>, keep: set<nat>, i: nat)
    requires i < |times|
    ensures KeptUpTo(times, keep, i + 1) == KeptUpTo(times, keep, i) + if i in keep then [times[i]] else []
  {
    var exits := ExitsAt(times, keep)[..i + 1];
    assert exits[..i] == ExitsAt(times, keep)[..i];
    assert IsAttempt(WATCHED, exits[i]) <==> i in keep;
  }

  /** Up to place `i` as up to place `n`, and then place `i`. */
  lemma {:induction false} NextKept(times: seq<nat>, keep: set<nat>, n: nat, i: nat)
    requires n <= i <= |times| && forall x: nat :: n <= x < i ==> x !in keep
    ensures KeptUpTo(times, keep, i) == KeptUpTo(times, keep, n)
    ensures i < |times| && i in keep ==> KeptUpTo(times, keep, i + 1) == KeptUpTo(times, keep, n) + [times[i]]
    decreases i - n
  {
    hide KeptUpTo;
    if n < i {
      NextKept(times, keep, n, i - 1);
      KeptNext(times, keep, i - 1);
    }
    if i < |times| {
      KeptNext(times, keep, i);
    }
  }

  lemma {:induction false} FourKept(times: seq<nat>, keep: set<nat>, a: nat, b: nat, j: nat, k: nat)
    requires a < b < j < k < |times| && a in keep && b in keep && j in keep && k in keep
    requires forall x :: x in keep ==> x == a || x == b || x == j || x == k
    ensures Attempts(WATCHED, ExitsAt(times, keep)) == [times[a], times[b], times[j], times[k]]
  {
    WholeKept(times, keep);
    hide KeptUpTo, Attempts, ExitsAt;
    NextKept(times, keep, 0, a);
    NextKept(times, keep, a + 1, b);
    NextKept(times, keep, b + 1, j);
    NextKept(times, keep, j + 1, k);
    NextKept(times, keep, k + 1, |times|);
  }

  lemma {:induction false} WholeKept(times: seq<nat>, keep: set<nat>)
    ensures KeptUpTo(times, keep, 0) == []
    ensures KeptUpTo(times, keep, |times|) == Attempts(WATCHED, ExitsAt(times, keep))
  {
    var exits := ExitsAt(times, keep);
    assert exits[..|exits|] == exits && exits[..0] == [];
  }

  /** The third attempt pushes the first two out, so the fourth finds the log almost empty. */
  lemma {:induction false} FourGrants(times: seq<nat>, withinMs: nat) returns (lo: nat)
    requires |times| == 4 && SlipsAt(times, withinMs, 0, 1, 2, 3)
    ensures GrantedOf(times, 2, withinMs, lo) == 3
  {
    lo := if times[0] <= times[1] then times[0] else times[1];
    lo := if times[3] <= lo then times[3] else lo;
    var one, two, three := times[..1], times[..2], times[..3];
    FourLogs(times, withinMs);
    assert three[..2] == two && two[..1] == one && one[..0] == [];
    hide DequeAfter;
    assert GrantedOf(one, 2, withinMs, lo) == 1;
    assert GrantedOf(two, 2, withinMs, lo) == 2;
    assert GrantedOf(three, 2, withinMs, lo) == 2;
  }

  lemma {:induction false} FourLogs(times: seq<nat>, withinMs: nat)
    requires |times| == 4 && SlipsAt(times, withinMs, 0, 1, 2, 3)
    ensures DequeAfter(times[..1], withinMs) == [times[0]]
    ensures DequeAfter(times[..2], withinMs) == [times[0], times[1]]
    ensures DequeAfter(times[..3], withinMs) == [times[2]]
    ensures |DequeAfter(times, withinMs)| <= 2
  {
    var one, two, three := times[..1], times[..2], times[..3];
    assert three[..2] == two && two[..1] == one && one[..0] == [];
    assert DequeAfter(one, withinMs) == [times[0]];
    assert DequeAfter(two, withinMs) == [times[0], times[1]];
    PopsAll([times[0], times[1]], times[2], withinMs);
    hide PoppedFront;
  }

  lemma {:induction false} PopsAll(log: seq<nat>, now: nat, withinMs: nat)
    requires forall i :: 0 <= i < |log| ==> !Counts(log[i], now, withinMs)
    ensures PoppedFront(log, now, withinMs) == []
  {
    if log != [] {
      PopsAll(log[1..], now, withinMs);
    }
  }

  // ---------------------------------------------------------------------------
  // When the intensity is bounded
  // ---------------------------------------------------------------------------

  predicate IsBounded(children: seq<ChildSpec>, exits: seq<Exit>, maxRestarts: nat, withinMs: nat, lo: nat) {
    GrantedWithin(children, exits, maxRestarts, withinMs, lo) <= maxRestarts
  }

  /**
   * Exits at these times are granted at most the allowed restarts in any span, whichever children they
   * concern and however many are allowed, if and only if the clock never slips back behind two attempts that
   * it had made expire.
   */
  lemma {:induction false} IntensityIsBoundedIff(times: seq<nat>, withinMs: nat)
    ensures (forall children: seq<ChildSpec>, exits: seq<Exit>, maxRestarts: nat, lo: nat ::
               TimesOf(exits) == times ==> IsBounded(children, exits, maxRestarts, withinMs, lo))
      <==> !Slips(times, withinMs)
  {
    hide Attempts, GrantedWithin, GrantedOf;
    if a, b, j, k :| SlipsAt(times, withinMs, a, b, j, k) {
      var exits, four := ExitsAt(times, {a, b, j, k}), [times[a], times[b], times[j], times[k]];
      FourKept(times, {a, b, j, k}, a, b, j, k);
      var lo := FourGrants(four, withinMs);
      GrantsOfAttempts(WATCHED, exits, 2, withinMs, lo);
      assert TimesOf(exits) == times && !IsBounded(WATCHED, exits, 2, withinMs, lo);
    } else {
      forall children: seq<ChildSpec>, exits: seq<Exit>, maxRestarts: nat, lo: nat | TimesOf(exits) == times
        ensures IsBounded(children, exits, maxRestarts, withinMs, lo)
      {
        GrantsOfAttempts(children, exits, maxRestarts, withinMs, lo);
        if !IsBounded(children, exits, maxRestarts, withinMs, lo) {
          TooManySlip(Attempts(children, exits), maxRestarts, withinMs, lo);
          ExitsSlip(children, exits, withinMs);
        }
      }
    }
  }

  lemma {:induction false} MonotoneNeverSlips(times: seq<nat>, withinMs: nat)
    requires Monotone(times)
    ensures !Slips(times, withinMs)
  {
  }

  /** So it is in any run with a clock that does not go back. */
  lemma {:induction false} IntensityIsBounded(
    children: seq<ChildSpec>, exits: seq<Exit>, maxRestarts: nat, withinMs: nat, lo: nat)
    requires MonotoneExits(exits)
    ensures GrantedWithin(children, exits, maxRestarts, withinMs, lo) <= maxRestarts
  {
    var times := TimesOf(exits);
    IntensityIsBoundedIff(times, withinMs);
    MonotoneNeverSlips(times, withinMs);
    assert IsBounded(children, exits, maxRestarts, withinMs, lo);
  }
}
