# rty: a verified model of a coroutine retry loop

`rty` (lib/src/main/java/com/sd/lib/rty/Rty.kt) is a Kotlin suspend function
that runs a work block until it succeeds. Its arguments are:

- `maxCount`, the ceiling on counted attempts (default 3);
- `getDelay`, the wait before a re-run (default 5000 ms);
- `onFailure`, the failure policy (default: always continue).

The block and both callbacks read the current attempt number, `rtyCount`,
from a private scope object, `RtyScopeImpl`. The block may also call
`skip()`, which throws the private `SkipRtyException`.

One call works like this:

- `maxCount` must be positive.
- A success is returned at once.
- A cancellation propagates.
- A skip waits and re-runs the block at the same count.
- Any other exception goes to `onFailure`. A `false` answer returns that
  failure. A `true` answer retries after a delay at the next count, unless
  the count has reached `maxCount`.
- The coroutine's cancellation is also observed after the block and after
  `onFailure`.

The model has four modules:

- `Rty` (rty.dfy) holds the data model: attempts, checkpoints, trace events,
  outcomes, and the arguments of a call. It also holds:
  - `Round`, one pass of the loop, as a function;
  - `Loop` and `Execution`, the whole call, as functions;
  - the class `RtyScopeImpl`, whose counter is updated in place;
  - the methods `Pass` (one pass of the `while (true)` body, mutating the
    counter object) and `Rty` (the loop itself). Both are proved to compute
    `Round` and `Execution`. The loop invariant shows the counter stays
    within `1..maxCount`, so the wrap-around of Kotlin's `Int` increment
    never happens.
- `RtyProperties` (rty_properties.dfy) describes the loop as a state
  machine over trace events. It proves that the trace of every call is a
  run of the machine and that the machine has no other run. From this it
  derives the promises of `rty` about every call:
  - the counter;
  - skips;
  - what `onFailure` and `getDelay` see;
  - when a failure ends the call;
  - cancellation;
  - the bound of `maxCount` reports.
- `RtyScenarios` (rty_scenarios.dfy) covers whole calls for families of
  blocks: immediate success, a cancelling block, and a block that always
  fails until the policy or the ceiling stops it.
- `RtyTest` (rty_test.dfy) restates each unit test of
  app/src/test/java/com/sd/demo/rty/RtyTest.kt as a lemma about the model.

How the model stands in for what it cannot see:

- **Work block.** An oracle `block(n, c)` gives the attempt of the `n`-th
  invocation (from 0) at count `c`. Its result is a value, an ordinary
  exception, a skip or a cancellation. Numbering the invocations lets a
  block with state of its own be modelled, such as the test block that
  skips only once.
- **Cancellation.** An oracle `cancelled(n, p)` says whether the coroutine
  is found cancelled at checkpoint `p` of the `n`-th pass. The checkpoints
  are the two `ensureActive()` calls and the cancellable `delay`, for a
  positive duration.
- **Trace.** A call yields its outcome and a trace of events:
  - `Work(n, c)`, one invocation of the block;
  - `OnFailure(n, c, e)`, one report to `onFailure`;
  - `Delay(n, c, ms)`, one call of `getDelay` and its wait.

  An `IllegalArgument` outcome stands for the exception thrown by
  `require`. A `Cancelled` outcome stands for the propagating
  `CancellationException`.
- **Termination.** A block that skips forever makes `rty` loop forever. The
  functions and methods therefore take a ghost bound beyond which the block
  never skips. `SkipBoundIsIrrelevant` proves that the result does not
  depend on the bound.

## Model

| member | source | states |
|---|---|---|
| Rty.Round | lib/src/main/java/com/sd/lib/rty/Rty.kt:27-50 | One pass through the loop body. The block runs once, at the current count, and every event of the pass carries that invocation and count. A pass never ends with an argument error. A skip goes round again at the same count. A counted retry goes round again at the next count, which is still within `maxCount`. |
| Rty.DefaultCall | lib/src/main/java/com/sd/lib/rty/Rty.kt:16-20 | The defaults of `rty`: at most 3 counted attempts, 5000 ms before every re-run, and a policy that always continues. |
| Rty.Loop | lib/src/main/java/com/sd/lib/rty/Rty.kt:26-51 | The loop from a given invocation and count. The trace starts with that invocation, and every count in it lies between the starting count and `maxCount`. |
| Rty.Execution | lib/src/main/java/com/sd/lib/rty/Rty.kt:24-52 | A call is rejected with an argument error exactly when `maxCount <= 0`, and then the block never runs. Otherwise the first invocation runs at count 1, and every observed count lies in `1..maxCount`. |
| Rty.RtyScopeImpl.constructor | lib/src/main/java/com/sd/lib/rty/Rty.kt:66 | The counter starts at 1. |
| Rty.RtyScopeImpl.IncreaseCount | lib/src/main/java/com/sd/lib/rty/Rty.kt:70 | `_count++`: returns the old value and increments the field, wrapping around at the maximum of Kotlin's `Int`. |
| Rty.Pass | lib/src/main/java/com/sd/lib/rty/Rty.kt:27-50 | The imperative loop body equals `Round`. The scope's counter moves to the next count only on a counted retry and is otherwise unchanged. |
| Rty.LoopAfterPass | lib/src/main/java/com/sd/lib/rty/Rty.kt:26-51 | A pass that goes round again leaves the counter within `1..maxCount`. Whatever came before it, the rest of the call is that pass's events followed by the loop from the next invocation. |
| Rty.Rty | lib/src/main/java/com/sd/lib/rty/Rty.kt:14-53 | The `while (true)` loop over a counter object returns exactly the outcome and trace of `Execution`. |
| RtyProperties.RoundFollowsStateMachine | lib/src/main/java/com/sd/lib/rty/Rty.kt:27-50 | The events of one pass are a walk of the state machine. They end in a permitted final event, or they lead into the first event of the next pass. |
| RtyProperties.LoopFollowsStateMachine | lib/src/main/java/com/sd/lib/rty/Rty.kt:26-51 | Every trace of the loop is a run of the machine. |
| RtyProperties.StateMachineDeterminesLoop | lib/src/main/java/com/sd/lib/rty/Rty.kt:26-51 | Every run of the machine from a given invocation and count is the loop's result. |
| RtyProperties.ExecutionFollowsStateMachine | lib/src/main/java/com/sd/lib/rty/Rty.kt:24-52 | For a valid `maxCount`, the trace of a call is a run of the machine from invocation 0 at count 1. |
| RtyProperties.ExecutionIsTheRunOfTheStateMachine | lib/src/main/java/com/sd/lib/rty/Rty.kt:24-52 | For a valid `maxCount`, a call's outcome and trace are a run of the machine, and there is no other run. |
| RtyProperties.SkipBoundIsIrrelevant | lib/src/main/java/com/sd/lib/rty/Rty.kt:26-51 | Two bounds on skipping give the same call. |
| RtyProperties.TransitionIsDeterministic | lib/src/main/java/com/sd/lib/rty/Rty.kt:27-50 | At most one event can follow a given event. |
| RtyProperties.EndsExcludesTransition | lib/src/main/java/com/sd/lib/rty/Rty.kt:27-50 | An event after which the call may end has no successor. |
| RtyProperties.CountNeverDecreases | lib/src/main/java/com/sd/lib/rty/Rty.kt:48 | The count observed along a call never decreases. |
| RtyProperties.CountRisesOnlyOnCountedRetry | lib/src/main/java/com/sd/lib/rty/Rty.kt:34-48 | Wherever the count changes, it rises by exactly one. The change happens only from the delay of a retry that was not a skip to the next invocation. |
| RtyProperties.CountedRetryRaisesCount | lib/src/main/java/com/sd/lib/rty/Rty.kt:42-49 | After a report that does not end the call, a delay follows, and then the next invocation runs at the next count. |
| RtyProperties.FailurePolicySeesItsAttempt | lib/src/main/java/com/sd/lib/rty/Rty.kt:27-39 | Every report to `onFailure` directly follows the invocation it reports. It carries that invocation's count and exactly its exception. A skip, a success or a cancellation is never reported. |
| RtyProperties.DelaySeesCurrentCount | lib/src/main/java/com/sd/lib/rty/Rty.kt:34-48 | Every delay lasts `getDelay` of the count before any increment. It directly follows the skipped invocation, or the report of the failed one. The next invocation runs at the same count after a skip and at the next count after a retry. |
| RtyProperties.SkipIsUncounted | lib/src/main/java/com/sd/lib/rty/Rty.kt:34-37 | A skipped invocation is followed by one delay and a re-run at the same count. A call that ends within those two steps ends cancelled. |
| RtyProperties.FailureEndsUnlessRetried | lib/src/main/java/com/sd/lib/rty/Rty.kt:39-49 | A report ends the call when `onFailure` answers false or the count equals `maxCount`. The outcome is then that failure, or a cancellation if one is seen right after `onFailure`. Otherwise a delay follows the report, unless the call is cancelled right after `onFailure`. |
| RtyProperties.CancellationIsTransparent | lib/src/main/java/com/sd/lib/rty/Rty.kt:28-39 | A cancellation, whether thrown by the block or seen at a checkpoint, ends the call at once with `Cancelled`. A call ends cancelled only that way. |
| RtyProperties.EachCountReportedOnce | lib/src/main/java/com/sd/lib/rty/Rty.kt:39-48 | The counts of successive reports to `onFailure` strictly increase. |
| RtyProperties.RoundReports | lib/src/main/java/com/sd/lib/rty/Rty.kt:27-39 | A pass reports its invocation's exception exactly when the block failed with an ordinary exception and no cancellation was seen after it. |
| RtyProperties.LoopReportsAtMost | lib/src/main/java/com/sd/lib/rty/Rty.kt:42-48 | The loop from count `c` reports at most `maxCount - c + 1` failures. |
| RtyProperties.ReportsAtMostMaxCount | lib/src/main/java/com/sd/lib/rty/Rty.kt:42-44 | `onFailure` is called at most `maxCount` times in one call, however often the block skips. |
| RtyScenarios.FailingLoop | lib/src/main/java/com/sd/lib/rty/Rty.kt:39-49 | Under persistent failure, the loop from attempt `from` produces the failing rounds up to `last` and ends with the exception of attempt `last`. |
| RtyScenarios.FailingRoundsCounts | lib/src/main/java/com/sd/lib/rty/Rty.kt:47-48 | These rounds show the block the counts `from..last`, in order. |
| RtyScenarios.FailingRoundsReports | lib/src/main/java/com/sd/lib/rty/Rty.kt:39 | These rounds report each attempt's own exception to `onFailure`, in order. |
| RtyScenarios.PersistentFailure | lib/src/main/java/com/sd/lib/rty/Rty.kt:39-49 | Take a block that always fails and is never cancelled, under a policy that continues below attempt `last` and stops at `last` (or meets the ceiling there). The block runs exactly `last` times, sees counts `1..last`, and each exception is reported. The result is the failure of attempt `last`. With `last = maxCount`, the ceiling overrides a `true` answer. |
| RtyScenarios.ImmediateSuccess | lib/src/main/java/com/sd/lib/rty/Rty.kt:31 | A first invocation that returns a value, in an active coroutine, gives that value. The block runs once, and `getDelay` and `onFailure` are never called. |
| RtyScenarios.BlockCancellation | lib/src/main/java/com/sd/lib/rty/Rty.kt:28 | A block that throws a cancellation cancels the call after one invocation, without a report to `onFailure`. |
| RtyTest.TestSuccess | app/src/test/java/com/sd/demo/rty/RtyTest.kt:12-15 | `rty { "success" }` returns `"success"`. |
| RtyTest.TestError | app/src/test/java/com/sd/demo/rty/RtyTest.kt:18-22 | With `maxCount = 99`, the result is the exception of attempt 99. |
| RtyTest.TestCancel | app/src/test/java/com/sd/demo/rty/RtyTest.kt:25-33 | A block that throws a cancellation leaves the call cancelled. |
| RtyTest.TestCount | app/src/test/java/com/sd/demo/rty/RtyTest.kt:36-43 | A block that always fails observes the counts 1, 2, 3, 4, 5. |
| RtyTest.TestSkip | app/src/test/java/com/sd/demo/rty/RtyTest.kt:46-58 | A single skip at count 3 gives the counts 1, 2, 3, 3, 4, 5. |
| RtyTest.PassCounts | lib/src/main/java/com/sd/lib/rty/Rty.kt:34-49 | A pass that goes round again adds the count of its one invocation to the observed counts. |
| RtyTest.TestOnFailure | app/src/test/java/com/sd/demo/rty/RtyTest.kt:61-73 | `onFailure` receives the exceptions of attempts 1, 2, 3. Each report's exception matches its `rtyCount`. |
| RtyTest.TestOnFailureFalse | app/src/test/java/com/sd/demo/rty/RtyTest.kt:76-89 | The policy `rtyCount < 3` stops a call with `maxCount = Int.MAX_VALUE` after three reports, with the exception of attempt 3. |

## Left out

- Timing is not modelled. A delay is a trace event carrying the milliseconds `getDelay` returned; the model does not wait.
- The coroutine machinery is not modelled: `runCatching`, the class tests on exceptions, `currentCoroutineContext().ensureActive()` and suspension. A block's result is one of four attempt kinds, and a cancellation is an oracle consulted at checkpoints.
- Rty.kt calls `delay` at lines 35 and 47 but checks cancellation only through its two `ensureActive()` calls. The kotlinx `delay` checks it as well, so it is a third checkpoint, `InDelay`. For a duration of 0 ms or less, `delay` returns at once without that check, and the model consults `InDelay` only when `getDelay` is positive.
- Exceptions thrown by `getDelay` or `onFailure` themselves are not modelled; both callbacks are total functions of the count.
- `getDelay` returns a Kotlin `Long`, and the callbacks read `rtyCount` as a Kotlin `Int`. The model uses unbounded integers for both.
- A block that skips forever, which makes `rty` diverge, is excluded by the bound on skipping.
- `RtyScopeImpl.rtyCount` and `RtyScopeImpl.skip` have no members of their own. The block and the callbacks receive the count as an argument, and a skip is the `SkipSignal` attempt. `SkipRtyException` is that attempt too.
- The interfaces `RtyScope` and `RtyDoingScope` are not modelled. They only give the scope its read-only view.
- app/src/main/java/com/sd/demo/rty/SampleActivity.kt is not part of this model. It is a user-interface screen with no logic.
- The JUnit and `runTest` harness of RtyTest.kt is not modelled. Its assertions are the `RtyTest` lemmas. An exception message `"error $rtyCount"` is modelled by the count itself, and the constant message `"error"` by 0.
