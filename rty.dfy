/**
 * The retry primitive `rty` (lib/src/main/java/com/sd/lib/rty/Rty.kt).
 *
 * One call runs a work block repeatedly. A success is returned at once; a skip
 * waits and re-runs the block at the same attempt count; any other failure is
 * reported to `onFailure`, which may stop the loop, and otherwise the loop
 * retries after a delay until `maxCount` counted attempts have been made. A
 * cancellation, thrown by the block or observed at a checkpoint, ends the call.
 *
 * The caller's callbacks are function parameters: the work block is an oracle
 * indexed by the invocation number and the count it observes, and the
 * coroutine's cancellation state is an oracle consulted at each checkpoint.
 * Delays are recorded in the trace, not waited for.
 */
module Rty {

  /** Kotlin's `Int`: the type of `maxCount` and of the scope's counter. */
  const INT_MIN: int := -0x8000_0000
  const INT_MAX: int := 0x7fff_ffff
  newtype int32 = x: int | -0x8000_0000 <= x < 0x8000_0000

  /** What one invocation of the work block does. */
  datatype Attempt<T, E> =
    | Value(value: T)   // the block returned normally
    | Error(error: E)   // the block threw an exception that is neither a skip nor a cancellation
    | SkipSignal        // the block called `skip()`, which throws the private SkipRtyException
    | CancelSignal      // the block threw a CancellationException

  /** The points at which the loop observes that its coroutine was cancelled. */
  datatype Checkpoint =
    | AfterWork     // `ensureActive()` right after the block
    | AfterFailure  // `ensureActive()` right after `onFailure`
    | InDelay       // the cancellable `delay` before a re-run, for a positive duration only

  /**
   * What an observer sees of one call: each invocation of the block with the
   * count it observes, each report to `onFailure`, and each delay with the
   * count `getDelay` saw and the milliseconds it returned. `invocation`
   * numbers the block's invocations from 0.
   */
  datatype Event<E> =
    | Work(invocation: nat, count: int)
    | OnFailure(invocation: nat, count: int, error: E)
    | Delay(invocation: nat, count: int, millis: int)

  /**
   * How a call ends: the `Result` that `rty` returns (success or failure),
   * or one of the two exceptions that escape it.
   */
  datatype Outcome<T, E> =
    | Success(value: T)
    | Failure(error: E)
    | Cancelled        // a CancellationException propagates out of `rty`
    | IllegalArgument  // `require(maxCount > 0)` threw before the loop

  datatype Run<T, E> = Run(outcome: Outcome<T, E>, trace: seq<Event<E>>)

  /** The arguments of one call of `rty`. */
  datatype Call<T, !E> = Call(
    maxCount: int32,
    getDelay: int -> int,
    onFailure: (int, E) -> bool,
    block: (nat, int) -> Attempt<T, E>)

  /** The defaults of `rty`: at most 3 attempts, 5000 ms between them, always continue. */
  function DefaultCall<T, E(!new)>(block: (nat, int) -> Attempt<T, E>): (c: Call<T, E>)
    ensures c.maxCount == 3 && c.block == block
    ensures forall count :: c.getDelay(count) == 5000
    ensures forall count, e :: c.onFailure(count, e)
  {
    Call(3, _ => 5000, (_, _) => true, block)
  }

  /**
   * The block skips only finitely often: from invocation `bound` on it never
   * calls `skip()`. A block that skips forever makes `rty` run forever.
   */
  ghost predicate FinitelyManySkips<T, E>(block: (nat, int) -> Attempt<T, E>, bound: nat)
  {
    forall n: nat, c: int :: n >= bound ==> !block(n, c).SkipSignal?
  }

  function Prepend<T, E>(prefix: seq<Event<E>>, r: Run<T, E>): Run<T, E>
  {
    Run(r.outcome, prefix + r.trace)
  }

  /**
   * One pass through the body of the loop: either the call ends with the
   * given events, or the loop goes round again with the counter at `next`.
   */
  datatype Step<T, E> =
    | Stop(outcome: Outcome<T, E>, events: seq<Event<E>>)
    | Again(events: seq<Event<E>>, next: int)

  /** The `i`-th pass through the loop, with the counter at `count`. */
  function Round<T, E>(call: Call<T, E>, cancelled: (nat, Checkpoint) -> bool, i: nat, count: int): (s: Step<T, E>)
    requires 1 <= count <= call.maxCount as int
    ensures |s.events| > 0 && s.events[0] == Work(i, count)
    ensures forall k :: 0 <= k < |s.events| ==> s.events[k].invocation == i && s.events[k].count == count
    ensures s.Stop? ==> s.outcome != IllegalArgument
    ensures s.Again? ==> if call.block(i, count).SkipSignal? then s.next == count
                         else s.next == count + 1 <= call.maxCount as int
  {
    var attempt := call.block(i, count);
    if attempt.CancelSignal? then Stop(Cancelled, [Work(i, count)])
    else if cancelled(i, AfterWork) then Stop(Cancelled, [Work(i, count)])
    else if attempt.Value? then Stop(Success(attempt.value), [Work(i, count)])
    else if attempt.SkipSignal? then
      var paused := [Work(i, count), Delay(i, count, call.getDelay(count))];
      if cancelled(i, InDelay) && call.getDelay(count) > 0 then Stop(Cancelled, paused)
      else Again(paused, count)
    else
      var e := attempt.error;
      var reported := [Work(i, count), OnFailure(i, count, e)];
      if cancelled(i, AfterFailure) then Stop(Cancelled, reported)
      else if !call.onFailure(count, e) then Stop(Failure(e), reported)
      else if count >= call.maxCount as int then Stop(Failure(e), reported)
      else
        var paused := reported + [Delay(i, count, call.getDelay(count))];
        if cancelled(i, InDelay) && call.getDelay(count) > 0 then Stop(Cancelled, paused)
        else Again(paused, count + 1)
  }

  /**
   * The loop of `rty` from its `i`-th invocation of the block, with the
   * counter at `count`. `skipBound` only serves termination.
   */
  function Loop<T, E>(call: Call<T, E>, cancelled: (nat, Checkpoint) -> bool, skipBound: nat,
                      i: nat, count: int): (r: Run<T, E>)
    requires FinitelyManySkips(call.block, skipBound)
    requires 1 <= count <= call.maxCount as int
    ensures r.outcome != IllegalArgument
    ensures |r.trace| > 0 && r.trace[0] == Work(i, count)
    ensures forall k :: 0 <= k < |r.trace| ==> count <= r.trace[k].count <= call.maxCount as int
    decreases call.maxCount as int - count, skipBound - i
  {
    match Round(call, cancelled, i, count)
    case Stop(outcome, events) => Run(outcome, events)
    case Again(events, next) => Prepend(events, Loop(call, cancelled, skipBound, i + 1, next))
  }

  /** One call of `rty`: the argument check, then the loop from count 1. */
  function Execution<T, E>(call: Call<T, E>, cancelled: (nat, Checkpoint) -> bool, skipBound: nat): (r: Run<T, E>)
    requires FinitelyManySkips(call.block, skipBound)
    ensures r.outcome == IllegalArgument <==> call.maxCount <= 0
    ensures call.maxCount <= 0 ==> r.trace == []
    ensures call.maxCount > 0 ==> |r.trace| > 0 && r.trace[0] == Work(0, 1)
    ensures forall k :: 0 <= k < |r.trace| ==> 1 <= r.trace[k].count <= call.maxCount as int
  {
    if call.maxCount <= 0 then Run(IllegalArgument, [])
    else Loop(call, cancelled, skipBound, 0, 1)
  }

  /** The attempt counter that `rty` exposes to its callbacks as `rtyCount`. */
  class RtyScopeImpl {
    var count: int32

    constructor ()
      ensures count == 1
    {
      count := 1;
    }

    /** `_count++`: returns the old value; a Kotlin `Int` wraps around at its maximum. */
    method IncreaseCount() returns (previous: int32)
      modifies this
      ensures previous == old(count)
      ensures count as int == if old(count) as int == INT_MAX then INT_MIN else old(count) as int + 1
    {
      previous := count;
      count := if count as int == INT_MAX then INT_MIN as int32 else count + 1;
    }
  }

  /**
   * One pass through the body of the `while (true)` loop of `rty`: invoke
   * the block at the scope's count, then return, skip or retry. A retry
   * increases the count after its delay.
   */
  method Pass<T, E>(call: Call<T, E>, cancelled: (nat, Checkpoint) -> bool, scope: RtyScopeImpl, i: nat)
    returns (step: Step<T, E>)
    requires 1 <= scope.count as int <= call.maxCount as int
    modifies scope
    ensures step == Round(call, cancelled, i, old(scope.count) as int)
    ensures scope.count as int == if step.Again? then step.next else old(scope.count) as int
  {
    var count := scope.count as int;
    var attempt := call.block(i, count);
    var events := [Work(i, count)];
    if attempt.CancelSignal? {
      return Stop(Cancelled, events);
    }
    if cancelled(i, AfterWork) {
      return Stop(Cancelled, events);
    }
    if attempt.Value? {
      return Stop(Success(attempt.value), events);
    }
    if attempt.SkipSignal? {
      events := events + [Delay(i, count, call.getDelay(count))];
      if cancelled(i, InDelay) && call.getDelay(count) > 0 {
        return Stop(Cancelled, events);
      }
      return Again(events, count);
    }
    var e := attempt.error;
    var shouldContinue := call.onFailure(count, e);
    events := events + [OnFailure(i, count, e)];
    if cancelled(i, AfterFailure) {
      return Stop(Cancelled, events);
    }
    if !shouldContinue {
      return Stop(Failure(e), events);
    }
    if count >= call.maxCount as int {
      return Stop(Failure(e), events);
    }
    events := events + [Delay(i, count, call.getDelay(count))];
    if cancelled(i, InDelay) && call.getDelay(count) > 0 {
      return Stop(Cancelled, events);
    }
    var _ := scope.IncreaseCount();
    return Again(events, count + 1);
  }

  /** A pass that goes round again is followed by the loop from the next invocation. */
  lemma LoopAfterPass<T, E>(call: Call<T, E>, cancelled: (nat, Checkpoint) -> bool, skipBound: nat,
                            i: nat, count: int, before: seq<Event<E>>)
    requires FinitelyManySkips(call.block, skipBound)
    requires 1 <= count <= call.maxCount as int
    requires Round(call, cancelled, i, count).Again?
    ensures var s := Round(call, cancelled, i, count);
      1 <= s.next <= call.maxCount as int &&
      Prepend(before, Loop(call, cancelled, skipBound, i, count)) ==
      Prepend(before + s.events, Loop(call, cancelled, skipBound, i + 1, s.next))
  {
    var s := Round(call, cancelled, i, count);
    var rest := Loop(call, cancelled, skipBound, i + 1, s.next).trace;
    assert before + (s.events + rest) == (before + s.events) + rest;
  }

  /** `rty` itself: the loop over a counter object, proved to compute `Execution`. */
  method Rty<T, E>(call: Call<T, E>, cancelled: (nat, Checkpoint) -> bool, ghost skipBound: nat)
    returns (outcome: Outcome<T, E>, trace: seq<Event<E>>)
    requires FinitelyManySkips(call.block, skipBound)
    ensures Run(outcome, trace) == Execution(call, cancelled, skipBound)
  {
    if call.maxCount <= 0 {
      return IllegalArgument, [];
    }
    var scope := new RtyScopeImpl();
    var i: nat := 0;
    trace := [];
    ghost var whole := Loop(call, cancelled, skipBound, 0, 1);
    while true
      invariant 1 <= scope.count as int <= call.maxCount as int
      invariant whole == Prepend(trace, Loop(call, cancelled, skipBound, i, scope.count as int))
      decreases call.maxCount as int - scope.count as int, skipBound - i
    {
      ghost var before := trace;
      ghost var count := scope.count as int;
      var step := Pass(call, cancelled, scope, i);
      trace := trace + step.events;
      if step.Stop? {
        return step.outcome, trace;
      }
      LoopAfterPass(call, cancelled, skipBound, i, count, before);
      i := i + 1;
    }
  }
}
