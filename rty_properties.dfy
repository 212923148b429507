/**
 * Properties of the retry loop of `rty`.
 *
 * First a relational description of the loop as a state machine over trace
 * events (which event may follow which, and how a call may end), proved to
 * describe `Execution` exactly: the trace of a call is a run of the machine,
 * and the machine has no other run. Then the promises of `rty` as lemmas
 * about every call: the counter, skips, reports to `onFailure`, delays,
 * cancellation and the attempt ceiling.
 */
module RtyProperties {
  import opened Rty

  // ---------------------------------------------------------------------------
  // The state machine
  // ---------------------------------------------------------------------------

  /** Whether the call was cancelled at the checkpoint that follows this event. */
  ghost predicate Interrupted<T, E>(call: Call<T, E>, cancelled: (nat, Checkpoint) -> bool, ev: Event<E>)
  {
    match ev
    case Work(n, c) => call.block(n, c).CancelSignal? || cancelled(n, AfterWork)
    case OnFailure(n, _, _) => cancelled(n, AfterFailure)
    case Delay(n, _, millis) => cancelled(n, InDelay) && millis > 0
  }

  /** Event `b` may directly follow event `a`. */
  ghost predicate Transition<T, E>(call: Call<T, E>, cancelled: (nat, Checkpoint) -> bool, a: Event<E>, b: Event<E>)
  {
    !Interrupted(call, cancelled, a) &&
    match a
    case Work(n, c) =>
      (call.block(n, c).SkipSignal? && b == Delay(n, c, call.getDelay(c))) ||
      (call.block(n, c).Error? && b == OnFailure(n, c, call.block(n, c).error))
    case OnFailure(n, c, e) =>
      call.onFailure(c, e) && c < call.maxCount as int && b == Delay(n, c, call.getDelay(c))
    case Delay(n, c, _) =>
      b == Work(n + 1, if call.block(n, c).SkipSignal? then c else c + 1)
  }

  /** The call may end with `outcome` right after event `last`. */
  ghost predicate Ends<T, E>(call: Call<T, E>, cancelled: (nat, Checkpoint) -> bool, last: Event<E>, outcome: Outcome<T, E>)
  {
    if Interrupted(call, cancelled, last) then outcome == Cancelled
    else match last
      case Work(n, c) => call.block(n, c).Value? && outcome == Success(call.block(n, c).value)
      case OnFailure(_, c, e) => (!call.onFailure(c, e) || c >= call.maxCount as int) && outcome == Failure(e)
      case Delay(_, _, _) => false
  }

  ghost predicate Steps<T, E>(call: Call<T, E>, cancelled: (nat, Checkpoint) -> bool, t: seq<Event<E>>)
  {
    forall k :: 0 <= k < |t| - 1 ==> Transition(call, cancelled, t[k], t[k + 1])
  }

  /** `r` is a run of the machine that starts with the `i`-th invocation at count `count`. */
  ghost predicate IsRun<T, E>(call: Call<T, E>, cancelled: (nat, Checkpoint) -> bool, r: Run<T, E>, i: nat, count: int)
  {
    |r.trace| > 0 && r.trace[0] == Work(i, count) &&
    Steps(call, cancelled, r.trace) &&
    Ends(call, cancelled, r.trace[|r.trace| - 1], r.outcome)
  }

  lemma TransitionIsDeterministic<T, E>(call: Call<T, E>, cancelled: (nat, Checkpoint) -> bool, a: Event<E>, b1: Event<E>, b2: Event<E>)
    requires Transition(call, cancelled, a, b1) && Transition(call, cancelled, a, b2)
    ensures b1 == b2
  {
  }

  lemma EndsExcludesTransition<T, E>(call: Call<T, E>, cancelled: (nat, Checkpoint) -> bool, a: Event<E>, b: Event<E>, outcome: Outcome<T, E>)
    requires Ends(call, cancelled, a, outcome)
    ensures !Transition(call, cancelled, a, b)
  {
  }

  lemma StepsConcat<T, E>(call: Call<T, E>, cancelled: (nat, Checkpoint) -> bool, a: seq<Event<E>>, b: seq<Event<E>>)
    requires |a| > 0 && |b| > 0
    requires Steps(call, cancelled, a) && Steps(call, cancelled, b)
    requires Transition(call, cancelled, a[|a| - 1], b[0])
    ensures Steps(call, cancelled, a + b)
  {
    forall k | 0 <= k < |a + b| - 1
      ensures Transition(call, cancelled, (a + b)[k], (a + b)[k + 1])
    {
      if k >= |a| {
        assert (a + b)[k] == b[k - |a|] && (a + b)[k + 1] == b[k + 1 - |a|];
      }
    }
  }

  lemma StepsSuffix<T, E>(call: Call<T, E>, cancelled: (nat, Checkpoint) -> bool, t: seq<Event<E>>, m: nat)
    requires m <= |t| && Steps(call, cancelled, t)
    ensures Steps(call, cancelled, t[m..])
  {
    forall k | 0 <= k < |t[m..]| - 1
      ensures Transition(call, cancelled, t[m..][k], t[m..][k + 1])
    {
      assert t[m..][k] == t[m + k] && t[m..][k + 1] == t[m + k + 1];
    }
  }

  /** Two walks of the machine from the same event agree as far as both go. */
  lemma {:induction false} WalksAgree<T, E>(call: Call<T, E>, cancelled: (nat, Checkpoint) -> bool,
                                            a: seq<Event<E>>, b: seq<Event<E>>, k: nat)
    requires Steps(call, cancelled, a) && Steps(call, cancelled, b)
    requires |a| > 0 && |b| > 0 && a[0] == b[0]
    requires k < |a| && k < |b|
    ensures a[k] == b[k]
  {
    if k > 0 {
      WalksAgree(call, cancelled, a, b, k - 1);
      TransitionIsDeterministic(call, cancelled, a[k - 1], a[k], b[k]);
    }
  }

  /** The events of one pass are a walk of the machine, ending or leading into the next pass. */
  lemma RoundFollowsStateMachine<T, E>(call: Call<T, E>, cancelled: (nat, Checkpoint) -> bool, i: nat, count: int)
    requires 1 <= count <= call.maxCount as int
    ensures var s := Round(call, cancelled, i, count);
      Steps(call, cancelled, s.events) &&
      (s.Stop? ==> Ends(call, cancelled, s.events[|s.events| - 1], s.outcome)) &&
      (s.Again? ==> Transition(call, cancelled, s.events[|s.events| - 1], Work(i + 1, s.next)))
  {
    var s := Round(call, cancelled, i, count);
    forall k | 0 <= k < |s.events| - 1
      ensures Transition(call, cancelled, s.events[k], s.events[k + 1])
    {
    }
  }

  // ---------------------------------------------------------------------------
  // The loop is exactly the state machine
  // ---------------------------------------------------------------------------

  lemma {:induction false} LoopFollowsStateMachine<T, E>(call: Call<T, E>, cancelled: (nat, Checkpoint) -> bool,
                                                         skipBound: nat, i: nat, count: int)
    requires FinitelyManySkips(call.block, skipBound)
    requires 1 <= count <= call.maxCount as int
    ensures IsRun(call, cancelled, Loop(call, cancelled, skipBound, i, count), i, count)
    decreases call.maxCount as int - count, skipBound - i
  {
    var s := Round(call, cancelled, i, count);
    RoundFollowsStateMachine(call, cancelled, i, count);
    if s.Again? {
      var rest := Loop(call, cancelled, skipBound, i + 1, s.next);
      LoopFollowsStateMachine(call, cancelled, skipBound, i + 1, s.next);
      StepsConcat(call, cancelled, s.events, rest.trace);
      assert (s.events + rest.trace)[|s.events + rest.trace| - 1] == rest.trace[|rest.trace| - 1];
    }
  }

  lemma {:induction false} StateMachineDeterminesLoop<T, E>(call: Call<T, E>, cancelled: (nat, Checkpoint) -> bool,
                                                            skipBound: nat, i: nat, count: int, r: Run<T, E>)
    requires FinitelyManySkips(call.block, skipBound)
    requires 1 <= count <= call.maxCount as int
    requires IsRun(call, cancelled, r, i, count)
    ensures r == Loop(call, cancelled, skipBound, i, count)
    decreases call.maxCount as int - count, skipBound - i
  {
    var s := Round(call, cancelled, i, count);
    RoundFollowsStateMachine(call, cancelled, i, count);
    var t, m := r.trace, |s.events|;
    // The run agrees with the pass's events as far as both go.
    forall k | 0 <= k < m && k < |t|
      ensures t[k] == s.events[k]
    {
      WalksAgree(call, cancelled, t, s.events, k);
    }
    // The run does not end inside the pass.
    if |t| < m {
      EndsExcludesTransition(call, cancelled, t[|t| - 1], s.events[|t|], r.outcome);
      assert false;
    }
    if s.Stop? {
      if |t| > m {
        EndsExcludesTransition(call, cancelled, s.events[m - 1], t[m], s.outcome);
        assert false;
      }
      assert t == s.events;
      assert Ends(call, cancelled, t[m - 1], r.outcome);
    } else {
      if |t| == m {
        EndsExcludesTransition(call, cancelled, t[m - 1], Work(i + 1, s.next), r.outcome);
        assert false;
      }
      TransitionIsDeterministic(call, cancelled, t[m - 1], t[m], Work(i + 1, s.next));
      var rest := Run(r.outcome, t[m..]);
      StepsSuffix(call, cancelled, t, m);
      assert rest.trace[|rest.trace| - 1] == t[|t| - 1];
      StateMachineDeterminesLoop(call, cancelled, skipBound, i + 1, s.next, rest);
      assert t == s.events + t[m..];
    }
  }

  /** The trace of a call with a valid `maxCount` is a run of the machine. */
  lemma ExecutionFollowsStateMachine<T, E>(call: Call<T, E>, cancelled: (nat, Checkpoint) -> bool, skipBound: nat)
    requires FinitelyManySkips(call.block, skipBound)
    requires call.maxCount > 0
    ensures IsRun(call, cancelled, Execution(call, cancelled, skipBound), 0, 1)
  {
    LoopFollowsStateMachine(call, cancelled, skipBound, 0, 1);
  }

  /**
   * The machine characterises a call completely: for a valid `maxCount`, a
   * run of the machine from the first invocation at count 1 is exactly the
   * execution of `rty`.
   */
  lemma ExecutionIsTheRunOfTheStateMachine<T, E>(call: Call<T, E>, cancelled: (nat, Checkpoint) -> bool, skipBound: nat)
    requires FinitelyManySkips(call.block, skipBound)
    requires call.maxCount > 0
    ensures IsRun(call, cancelled, Execution(call, cancelled, skipBound), 0, 1)
    ensures forall r :: IsRun(call, cancelled, r, 0, 1) ==> r == Execution(call, cancelled, skipBound)
  {
    LoopFollowsStateMachine(call, cancelled, skipBound, 0, 1);
    forall r | IsRun(call, cancelled, r, 0, 1)
      ensures r == Execution(call, cancelled, skipBound)
    {
      StateMachineDeterminesLoop(call, cancelled, skipBound, 0, 1, r);
    }
  }

  /** The bound on skips only serves termination: it does not change what a call does. */
  lemma SkipBoundIsIrrelevant<T, E>(call: Call<T, E>, cancelled: (nat, Checkpoint) -> bool, bound1: nat, bound2: nat)
    requires FinitelyManySkips(call.block, bound1) && FinitelyManySkips(call.block, bound2)
    ensures Execution(call, cancelled, bound1) == Execution(call, cancelled, bound2)
  {
    if call.maxCount > 0 {
      ExecutionIsTheRunOfTheStateMachine(call, cancelled, bound1);
      ExecutionIsTheRunOfTheStateMachine(call, cancelled, bound2);
    }
  }

  // ---------------------------------------------------------------------------
  // Local facts about walks of the machine
  // ---------------------------------------------------------------------------

  /** A report to `onFailure` directly follows the failed invocation it reports. */
  lemma ReportFollowsItsAttempt<T, E>(call: Call<T, E>, cancelled: (nat, Checkpoint) -> bool, t: seq<Event<E>>, k: nat)
    requires Steps(call, cancelled, t) && |t| > 0 && t[0].Work?
    requires k < |t| && t[k].OnFailure?
    ensures 1 <= k && t[k - 1] == Work(t[k].invocation, t[k].count)
    ensures call.block(t[k].invocation, t[k].count) == Error(t[k].error)
  {
    assert Transition(call, cancelled, t[k - 1], t[k]);
  }

  /** A delay directly follows a skipped invocation or the report of a failed one. */
  lemma DelayFollowsSkipOrReport<T, E>(call: Call<T, E>, cancelled: (nat, Checkpoint) -> bool, t: seq<Event<E>>, k: nat)
    requires Steps(call, cancelled, t) && |t| > 0 && t[0].Work?
    requires k < |t| && t[k].Delay?
    ensures 1 <= k && t[k].millis == call.getDelay(t[k].count)
    ensures t[k - 1].invocation == t[k].invocation && t[k - 1].count == t[k].count
    ensures call.block(t[k].invocation, t[k].count).SkipSignal? ==> t[k - 1].Work?
    ensures !call.block(t[k].invocation, t[k].count).SkipSignal? ==> t[k - 1].OnFailure?
  {
    assert Transition(call, cancelled, t[k - 1], t[k]);
    if t[k - 1].OnFailure? {
      ReportFollowsItsAttempt(call, cancelled, t, k - 1);
    }
  }

  /** A report that does not end the call is followed by a delay and the next count. */
  lemma RetryStep<T, E>(call: Call<T, E>, cancelled: (nat, Checkpoint) -> bool, t: seq<Event<E>>, k: nat)
    requires Steps(call, cancelled, t) && |t| > 0 && t[0].Work?
    requires k + 2 < |t| && t[k].OnFailure?
    ensures t[k + 1] == Delay(t[k].invocation, t[k].count, call.getDelay(t[k].count))
    ensures t[k + 2] == Work(t[k].invocation + 1, t[k].count + 1)
  {
    ReportFollowsItsAttempt(call, cancelled, t, k);
    assert Transition(call, cancelled, t[k], t[k + 1]);
    assert Transition(call, cancelled, t[k + 1], t[k + 2]);
  }

  lemma {:induction false} CountMonotone<T, E>(call: Call<T, E>, cancelled: (nat, Checkpoint) -> bool, t: seq<Event<E>>, j: nat, k: nat)
    requires Steps(call, cancelled, t) && j <= k < |t|
    ensures t[j].count <= t[k].count
    decreases k - j
  {
    if j < k {
      CountMonotone(call, cancelled, t, j, k - 1);
      assert Transition(call, cancelled, t[k - 1], t[k]);
    }
  }

  // ---------------------------------------------------------------------------
  // What every call of `rty` promises
  // ---------------------------------------------------------------------------

  /** The attempt count observed by the callbacks never goes down within a call. */
  lemma CountNeverDecreases<T, E>(call: Call<T, E>, cancelled: (nat, Checkpoint) -> bool, skipBound: nat)
    requires FinitelyManySkips(call.block, skipBound)
    ensures var t := Execution(call, cancelled, skipBound).trace;
      forall j, k :: 0 <= j <= k < |t| ==> t[j].count <= t[k].count
  {
    var t := Execution(call, cancelled, skipBound).trace;
    if call.maxCount > 0 {
      ExecutionFollowsStateMachine(call, cancelled, skipBound);
      forall j, k | 0 <= j <= k < |t|
        ensures t[j].count <= t[k].count
      {
        CountMonotone(call, cancelled, t, j, k);
      }
    }
  }

  /**
   * The count changes only from the delay of a counted retry (not a skip) to
   * the next invocation, and then by exactly one.
   */
  lemma CountRisesOnlyOnCountedRetry<T, E>(call: Call<T, E>, cancelled: (nat, Checkpoint) -> bool, skipBound: nat)
    requires FinitelyManySkips(call.block, skipBound)
    ensures var t := Execution(call, cancelled, skipBound).trace;
      forall j, k :: 0 <= j && k == j + 1 && k < |t| && t[k].count != t[j].count ==>
        t[k].count == t[j].count + 1 && t[j].Delay? && t[k].Work? &&
        !call.block(t[j].invocation, t[j].count).SkipSignal?
  {
    var t := Execution(call, cancelled, skipBound).trace;
    if call.maxCount > 0 {
      ExecutionFollowsStateMachine(call, cancelled, skipBound);
      forall j, k | 0 <= j && k == j + 1 && k < |t| && t[k].count != t[j].count
        ensures t[k].count == t[j].count + 1 && t[j].Delay? && t[k].Work?
        ensures !call.block(t[j].invocation, t[j].count).SkipSignal?
      {
        assert Transition(call, cancelled, t[j], t[k]);
      }
    }
  }

  /** Every counted retry re-runs the block, after its delay, at the next count. */
  lemma CountedRetryRaisesCount<T, E>(call: Call<T, E>, cancelled: (nat, Checkpoint) -> bool, skipBound: nat)
    requires FinitelyManySkips(call.block, skipBound)
    ensures var t := Execution(call, cancelled, skipBound).trace;
      forall k :: 0 <= k < |t| - 2 && t[k].OnFailure? ==>
        t[k + 1].Delay? && t[k + 2] == Work(t[k].invocation + 1, t[k].count + 1)
  {
    var t := Execution(call, cancelled, skipBound).trace;
    if call.maxCount > 0 {
      ExecutionFollowsStateMachine(call, cancelled, skipBound);
      forall k | 0 <= k < |t| - 2 && t[k].OnFailure?
        ensures t[k + 1].Delay? && t[k + 2] == Work(t[k].invocation + 1, t[k].count + 1)
      {
        RetryStep(call, cancelled, t, k);
      }
    }
  }

  /**
   * `onFailure` receives exactly the exception of the invocation just run,
   * with `rtyCount` equal to that invocation's count; a skip, a success or a
   * cancellation is never reported to it.
   */
  lemma FailurePolicySeesItsAttempt<T, E>(call: Call<T, E>, cancelled: (nat, Checkpoint) -> bool, skipBound: nat)
    requires FinitelyManySkips(call.block, skipBound)
    ensures var t := Execution(call, cancelled, skipBound).trace;
      forall k :: 0 <= k < |t| && t[k].OnFailure? ==>
        1 <= k && t[k - 1] == Work(t[k].invocation, t[k].count) &&
        call.block(t[k].invocation, t[k].count) == Error(t[k].error)
  {
    var t := Execution(call, cancelled, skipBound).trace;
    if call.maxCount > 0 {
      ExecutionFollowsStateMachine(call, cancelled, skipBound);
      forall k | 0 <= k < |t| && t[k].OnFailure?
        ensures 1 <= k && t[k - 1] == Work(t[k].invocation, t[k].count)
        ensures call.block(t[k].invocation, t[k].count) == Error(t[k].error)
      {
        ReportFollowsItsAttempt(call, cancelled, t, k);
      }
    }
  }

  /**
   * Every delay is `getDelay` at the count of the invocation it follows (so
   * before the increment of a counted retry). It follows the invocation
   * itself after a skip, and the report to `onFailure` otherwise; a skip
   * re-runs at the same count, a counted retry at the next one.
   */
  lemma DelaySeesCurrentCount<T, E>(call: Call<T, E>, cancelled: (nat, Checkpoint) -> bool, skipBound: nat)
    requires FinitelyManySkips(call.block, skipBound)
    ensures var t := Execution(call, cancelled, skipBound).trace;
      forall k :: 0 <= k < |t| && t[k].Delay? ==> 1 <= k && t[k].millis == call.getDelay(t[k].count)
    ensures var t := Execution(call, cancelled, skipBound).trace;
      forall j, k :: 0 <= j && k == j + 1 && k < |t| && t[k].Delay? ==>
        t[j].invocation == t[k].invocation && t[j].count == t[k].count &&
        (call.block(t[k].invocation, t[k].count).SkipSignal? ==> t[j].Work?) &&
        (!call.block(t[k].invocation, t[k].count).SkipSignal? ==> t[j].OnFailure?)
    ensures var t := Execution(call, cancelled, skipBound).trace;
      forall j, k :: 0 <= j && k == j + 1 && k < |t| && t[j].Delay? ==>
        t[k] == Work(t[j].invocation + 1,
                     if call.block(t[j].invocation, t[j].count).SkipSignal? then t[j].count else t[j].count + 1)
  {
    var t := Execution(call, cancelled, skipBound).trace;
    if call.maxCount > 0 {
      ExecutionFollowsStateMachine(call, cancelled, skipBound);
      forall k | 0 <= k < |t| && t[k].Delay?
        ensures 1 <= k && t[k].millis == call.getDelay(t[k].count)
      {
        DelayFollowsSkipOrReport(call, cancelled, t, k);
      }
      forall j, k | 0 <= j && k == j + 1 && k < |t| && t[k].Delay?
        ensures t[j].invocation == t[k].invocation && t[j].count == t[k].count
        ensures call.block(t[k].invocation, t[k].count).SkipSignal? ==> t[j].Work?
        ensures !call.block(t[k].invocation, t[k].count).SkipSignal? ==> t[j].OnFailure?
      {
        DelayFollowsSkipOrReport(call, cancelled, t, k);
      }
      forall j, k | 0 <= j && k == j + 1 && k < |t| && t[j].Delay?
        ensures t[k] == Work(t[j].invocation + 1,
                             if call.block(t[j].invocation, t[j].count).SkipSignal? then t[j].count else t[j].count + 1)
      {
        assert Transition(call, cancelled, t[j], t[k]);
      }
    }
  }

  /**
   * A skip is not counted: the skipped invocation is followed by one delay and
   * a re-run at the same count, unless the call is cancelled meanwhile.
   */
  lemma SkipIsUncounted<T, E>(call: Call<T, E>, cancelled: (nat, Checkpoint) -> bool, skipBound: nat)
    requires FinitelyManySkips(call.block, skipBound)
    ensures var r := Execution(call, cancelled, skipBound); var t := r.trace;
      forall k :: 0 <= k < |t| && t[k].Work? && call.block(t[k].invocation, t[k].count).SkipSignal? ==>
        (k + 1 < |t| ==> t[k + 1] == Delay(t[k].invocation, t[k].count, call.getDelay(t[k].count))) &&
        (k + 2 < |t| ==> t[k + 2] == Work(t[k].invocation + 1, t[k].count)) &&
        (k + 2 >= |t| ==> r.outcome == Cancelled)
  {
    var r := Execution(call, cancelled, skipBound);
    var t := r.trace;
    if call.maxCount > 0 {
      ExecutionFollowsStateMachine(call, cancelled, skipBound);
      forall k | 0 <= k < |t| && t[k].Work? && call.block(t[k].invocation, t[k].count).SkipSignal?
        ensures k + 1 < |t| ==> t[k + 1] == Delay(t[k].invocation, t[k].count, call.getDelay(t[k].count))
        ensures k + 2 < |t| ==> t[k + 2] == Work(t[k].invocation + 1, t[k].count)
        ensures k + 2 >= |t| ==> r.outcome == Cancelled
      {
        if k + 1 < |t| {
          assert Transition(call, cancelled, t[k], t[k + 1]);
        }
        if k + 2 < |t| {
          assert Transition(call, cancelled, t[k + 1], t[k + 2]);
        }
      }
    }
  }

  /**
   * A report ends the call when `onFailure` answers false or the count has
   * reached `maxCount` (the ceiling overrides a true answer); otherwise, if
   * the call is still active, a delay follows.
   */
  lemma FailureEndsUnlessRetried<T, E>(call: Call<T, E>, cancelled: (nat, Checkpoint) -> bool, skipBound: nat)
    requires FinitelyManySkips(call.block, skipBound)
    ensures var r := Execution(call, cancelled, skipBound); var t := r.trace;
      forall k :: 0 <= k < |t| && t[k].OnFailure? &&
                  (!call.onFailure(t[k].count, t[k].error) || t[k].count == call.maxCount as int) ==>
        k == |t| - 1 &&
        r.outcome == if cancelled(t[k].invocation, AfterFailure) then Cancelled else Failure(t[k].error)
    ensures var r := Execution(call, cancelled, skipBound); var t := r.trace;
      forall k :: 0 <= k < |t| && t[k].OnFailure? &&
                  call.onFailure(t[k].count, t[k].error) && t[k].count < call.maxCount as int &&
                  !cancelled(t[k].invocation, AfterFailure) ==>
        k + 1 < |t| && t[k + 1] == Delay(t[k].invocation, t[k].count, call.getDelay(t[k].count))
  {
    var r := Execution(call, cancelled, skipBound);
    var t := r.trace;
    if call.maxCount > 0 {
      ExecutionFollowsStateMachine(call, cancelled, skipBound);
      forall k | 0 <= k < |t| - 1 && t[k].OnFailure?
        ensures call.onFailure(t[k].count, t[k].error) && t[k].count < call.maxCount as int
        ensures !cancelled(t[k].invocation, AfterFailure)
        ensures t[k + 1] == Delay(t[k].invocation, t[k].count, call.getDelay(t[k].count))
      {
        assert Transition(call, cancelled, t[k], t[k + 1]);
      }
    }
  }

  /**
   * Cancellation is transparent: a cancellation thrown by the block or seen at
   * a checkpoint ends the call at once with `Cancelled`, and it is the only
   * way a call ends cancelled.
   */
  lemma CancellationIsTransparent<T, E>(call: Call<T, E>, cancelled: (nat, Checkpoint) -> bool, skipBound: nat)
    requires FinitelyManySkips(call.block, skipBound)
    ensures var r := Execution(call, cancelled, skipBound); var t := r.trace;
      forall k :: 0 <= k < |t| && Interrupted(call, cancelled, t[k]) ==>
        k == |t| - 1 && r.outcome == Cancelled
    ensures var r := Execution(call, cancelled, skipBound);
      r.outcome == Cancelled ==> |r.trace| > 0 && Interrupted(call, cancelled, r.trace[|r.trace| - 1])
  {
    var r := Execution(call, cancelled, skipBound);
    var t := r.trace;
    if call.maxCount > 0 {
      ExecutionFollowsStateMachine(call, cancelled, skipBound);
      forall k | 0 <= k < |t| - 1
        ensures !Interrupted(call, cancelled, t[k])
      {
        assert Transition(call, cancelled, t[k], t[k + 1]);
      }
    }
  }

  /**
   * Each count is reported to `onFailure` at most once: the counts of
   * successive reports strictly increase.
   */
  lemma EachCountReportedOnce<T, E>(call: Call<T, E>, cancelled: (nat, Checkpoint) -> bool, skipBound: nat)
    requires FinitelyManySkips(call.block, skipBound)
    ensures var t := Execution(call, cancelled, skipBound).trace;
      forall j, k :: 0 <= j < k < |t| && t[j].OnFailure? && t[k].OnFailure? ==> t[j].count < t[k].count
  {
    var t := Execution(call, cancelled, skipBound).trace;
    if call.maxCount > 0 {
      ExecutionFollowsStateMachine(call, cancelled, skipBound);
      forall j, k | 0 <= j < k < |t| && t[j].OnFailure? && t[k].OnFailure?
        ensures t[j].count < t[k].count
      {
        assert Transition(call, cancelled, t[j], t[j + 1]);
        RetryStep(call, cancelled, t, j);
        CountMonotone(call, cancelled, t, j + 2, k);
      }
    }
  }

  // ---------------------------------------------------------------------------
  // What an observer records
  // ---------------------------------------------------------------------------

  /** The values of `rtyCount` the block observes, one per invocation, in order. */
  function WorkCounts<E>(t: seq<Event<E>>): seq<int>
  {
    if t == [] then [] else (if t[0].Work? then [t[0].count] else []) + WorkCounts(t[1..])
  }

  /** The exceptions reported to `onFailure`, in order. */
  function Reports<E>(t: seq<Event<E>>): seq<E>
  {
    if t == [] then [] else (if t[0].OnFailure? then [t[0].error] else []) + Reports(t[1..])
  }

  lemma {:induction false} WorkCountsConcat<E>(a: seq<Event<E>>, b: seq<Event<E>>)
    ensures WorkCounts(a + b) == WorkCounts(a) + WorkCounts(b)
  {
    if a == [] {
      assert a + b == b;
    } else {
      assert (a + b)[1..] == a[1..] + b;
      WorkCountsConcat(a[1..], b);
    }
  }

  lemma {:induction false} ReportsConcat<E>(a: seq<Event<E>>, b: seq<Event<E>>)
    ensures Reports(a + b) == Reports(a) + Reports(b)
  {
    if a == [] {
      assert a + b == b;
    } else {
      assert (a + b)[1..] == a[1..] + b;
      ReportsConcat(a[1..], b);
    }
  }

  /** One pass reports its invocation's exception exactly when it failed and was not cancelled first. */
  lemma RoundReports<T, E>(call: Call<T, E>, cancelled: (nat, Checkpoint) -> bool, i: nat, count: int)
    requires 1 <= count <= call.maxCount as int
    ensures Reports(Round(call, cancelled, i, count).events) ==
      if call.block(i, count).Error? && !cancelled(i, AfterWork)
      then [call.block(i, count).error] else []
  {
    var s := Round(call, cancelled, i, count);
    var attempt := call.block(i, count);
    var w := Work(i, count);
    var d := Delay(i, count, call.getDelay(count));
    ReportsOfOne(w);
    ReportsOfOne(d);
    if attempt.CancelSignal? || cancelled(i, AfterWork) || attempt.Value? {
      assert s.events == [w];
    } else if attempt.SkipSignal? {
      assert s.events == [w] + [d];
      ReportsConcat([w], [d]);
    } else {
      var o := OnFailure(i, count, attempt.error);
      ReportsOfOne(o);
      ReportsConcat([w], [o]);
      if s.events != [w] + [o] {
        assert s.events == [w] + [o] + [d];
        ReportsConcat([w] + [o], [d]);
      }
    }
  }

  lemma WorkCountsOfOne<E>(ev: Event<E>)
    ensures WorkCounts([ev]) == if ev.Work? then [ev.count] else []
  {
    assert [ev][1..] == [];
  }

  lemma ReportsOfOne<E>(ev: Event<E>)
    ensures Reports([ev]) == if ev.OnFailure? then [ev.error] else []
  {
    assert [ev][1..] == [];
  }

  lemma {:induction false} LoopReportsAtMost<T, E>(call: Call<T, E>, cancelled: (nat, Checkpoint) -> bool,
                                                   skipBound: nat, i: nat, count: int)
    requires FinitelyManySkips(call.block, skipBound)
    requires 1 <= count <= call.maxCount as int
    ensures |Reports(Loop(call, cancelled, skipBound, i, count).trace)| <= call.maxCount as int - count + 1
    decreases call.maxCount as int - count, skipBound - i
  {
    var s := Round(call, cancelled, i, count);
    RoundReports(call, cancelled, i, count);
    if s.Again? {
      var rest := Loop(call, cancelled, skipBound, i + 1, s.next);
      LoopReportsAtMost(call, cancelled, skipBound, i + 1, s.next);
      ReportsConcat(s.events, rest.trace);
    }
  }

  /** `onFailure` is called at most `maxCount` times in one call, however often the block skips. */
  lemma ReportsAtMostMaxCount<T, E>(call: Call<T, E>, cancelled: (nat, Checkpoint) -> bool, skipBound: nat)
    requires FinitelyManySkips(call.block, skipBound)
    ensures |Reports(Execution(call, cancelled, skipBound).trace)| <= if call.maxCount > 0 then call.maxCount as int else 0
  {
    if call.maxCount > 0 {
      LoopReportsAtMost(call, cancelled, skipBound, 0, 1);
    }
  }
}
