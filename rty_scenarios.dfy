/**
 * Whole calls of `rty` for families of work blocks: an immediate success, a
 * cancellation, and a block that fails on every attempt until the failure
 * policy or the attempt ceiling stops it.
 */
module RtyScenarios {
  import opened Rty
  import opened RtyProperties

  /** Every invocation of the block throws an ordinary exception. */
  ghost predicate AlwaysFails<T, E>(block: (nat, int) -> Attempt<T, E>)
  {
    forall n: nat, c: int :: block(n, c).Error?
  }

  /** The coroutine is never cancelled. */
  ghost predicate NeverCancelled(cancelled: (nat, Checkpoint) -> bool)
  {
    forall n: nat, p: Checkpoint :: !cancelled(n, p)
  }

  /**
   * The trace of failing counted attempts `from` to `last` when nothing
   * skips: attempt `c` is invocation `c - 1`; all but the last are followed
   * by a delay.
   */
  ghost function FailingRounds<T, E>(call: Call<T, E>, from: nat, last: nat): seq<Event<E>>
    requires AlwaysFails(call.block) && 1 <= from <= last
    decreases last - from
  {
    var reported := [Work(from - 1, from), OnFailure(from - 1, from, call.block(from - 1, from).error)];
    if from == last then reported
    else reported + [Delay(from - 1, from, call.getDelay(from))] + FailingRounds(call, from + 1, last)
  }

  /** The block observes the counts `from` to `last`, in order. */
  lemma {:induction false} FailingRoundsCounts<T, E>(call: Call<T, E>, from: nat, last: nat)
    requires AlwaysFails(call.block) && 1 <= from <= last
    ensures WorkCounts(FailingRounds(call, from, last)) == seq(last - from + 1, k => from + k)
    decreases last - from
  {
    var w := Work(from - 1, from);
    var o := OnFailure(from - 1, from, call.block(from - 1, from).error);
    WorkCountsOfOne(w);
    WorkCountsOfOne(o);
    WorkCountsConcat([w], [o]);
    assert [w, o] == [w] + [o];
    if from < last {
      var d := Delay(from - 1, from, call.getDelay(from));
      WorkCountsOfOne(d);
      FailingRoundsCounts(call, from + 1, last);
      WorkCountsConcat([w, o], [d]);
      WorkCountsConcat([w, o] + [d], FailingRounds(call, from + 1, last));
    }
  }

  /** Each of the attempts `from` to `last` is reported to `onFailure` with its own exception, in order. */
  lemma {:induction false} FailingRoundsReports<T, E>(call: Call<T, E>, from: nat, last: nat)
    requires AlwaysFails(call.block) && 1 <= from <= last
    ensures var reports := Reports(FailingRounds(call, from, last));
      |reports| == last - from + 1 &&
      forall k :: 0 <= k < |reports| ==> reports[k] == call.block(from - 1 + k, from + k).error
    decreases last - from
  {
    var w := Work(from - 1, from);
    var o := OnFailure(from - 1, from, call.block(from - 1, from).error);
    ReportsOfOne(w);
    ReportsOfOne(o);
    ReportsConcat([w], [o]);
    assert [w, o] == [w] + [o];
    if from < last {
      var d := Delay(from - 1, from, call.getDelay(from));
      ReportsOfOne(d);
      var rest := Reports(FailingRounds(call, from + 1, last));
      FailingRoundsReports(call, from + 1, last);
      ReportsConcat([w, o], [d]);
      ReportsConcat([w, o] + [d], FailingRounds(call, from + 1, last));
      var reports := Reports(FailingRounds(call, from, last));
      assert reports == [o.error] + rest;
      forall k | 1 <= k < |reports|
        ensures reports[k] == call.block(from - 1 + k, from + k).error
      {
        var j := k - 1;
        assert reports[k] == rest[j];
        assert rest[j] == call.block(from + 1 - 1 + j, from + 1 + j).error;
        assert from + 1 - 1 + j == from - 1 + k && from + 1 + j == from + k;
      }
    }
  }

  lemma {:induction false} FailingLoop<T, E>(call: Call<T, E>, cancelled: (nat, Checkpoint) -> bool, from: nat, last: nat)
    requires AlwaysFails(call.block) && NeverCancelled(cancelled)
    requires 1 <= from <= last <= call.maxCount as int
    requires forall n: nat, c: int :: 1 <= c < last ==> call.onFailure(c, call.block(n, c).error)
    requires last == call.maxCount as int || !call.onFailure(last, call.block(last - 1, last).error)
    ensures Loop(call, cancelled, 0, from - 1, from) ==
            Run(Failure(call.block(last - 1, last).error), FailingRounds(call, from, last))
    decreases last - from
  {
    var s := Round(call, cancelled, from - 1, from);
    if from < last {
      assert s == Again(s.events, from + 1);
      FailingLoop(call, cancelled, from + 1, last);
    }
  }

  /**
   * A block that always fails, never cancelled, under a policy that continues
   * below `last` and stops at `last` (or meets the ceiling there): the call
   * makes exactly `last` counted attempts and returns the last exception.
   */
  lemma PersistentFailure<T, E>(call: Call<T, E>, cancelled: (nat, Checkpoint) -> bool, last: nat)
    requires AlwaysFails(call.block) && NeverCancelled(cancelled)
    requires 1 <= last <= call.maxCount as int
    requires forall n: nat, c: int :: 1 <= c < last ==> call.onFailure(c, call.block(n, c).error)
    requires last == call.maxCount as int || !call.onFailure(last, call.block(last - 1, last).error)
    ensures Execution(call, cancelled, 0) ==
            Run(Failure(call.block(last - 1, last).error), FailingRounds(call, 1, last))
    ensures WorkCounts(Execution(call, cancelled, 0).trace) == seq(last, k => 1 + k)
    ensures var reports := Reports(Execution(call, cancelled, 0).trace);
      |reports| == last && forall k :: 0 <= k < last ==> reports[k] == call.block(k, k + 1).error
  {
    FailingLoop(call, cancelled, 1, last);
    FailingRoundsCounts(call, 1, last);
    FailingRoundsReports(call, 1, last);
  }

  /** A block that returns at once, in an active coroutine: one invocation, and its value. */
  lemma ImmediateSuccess<T, E>(call: Call<T, E>, cancelled: (nat, Checkpoint) -> bool, skipBound: nat, v: T)
    requires FinitelyManySkips(call.block, skipBound)
    requires call.maxCount > 0 && call.block(0, 1) == Value(v) && !cancelled(0, AfterWork)
    ensures Execution(call, cancelled, skipBound) == Run(Success(v), [Work(0, 1)])
  {
  }

  /** A block that throws a cancellation: it propagates after one invocation, unreported. */
  lemma BlockCancellation<T, E>(call: Call<T, E>, cancelled: (nat, Checkpoint) -> bool, skipBound: nat)
    requires FinitelyManySkips(call.block, skipBound)
    requires call.maxCount > 0 && call.block(0, 1) == CancelSignal
    ensures Execution(call, cancelled, skipBound) == Run(Cancelled, [Work(0, 1)])
  {
  }
}
