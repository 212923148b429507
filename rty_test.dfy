/**
 * The unit tests of `rty` (app/src/test/java/com/sd/demo/rty/RtyTest.kt) as
 * lemmas about the model. An exception message `"error $rtyCount"` is
 * modelled by the count itself, the constant message `"error"` by 0; the
 * coroutine of every test stays active.
 */
module RtyTest {
  import opened Rty
  import opened RtyProperties
  import opened RtyScenarios

  /** The cancellation oracle of a coroutine that stays active. */
  function Active(n: nat, p: Checkpoint): bool
  {
    false
  }

  /** `rtyCount < 3`. */
  function ContinueBelowThree(count: int, e: int): bool
  {
    count < 3
  }

  function Succeed(n: nat, c: int): Attempt<string, int>
  {
    Value("success")
  }

  function ThrowCancellation(n: nat, c: int): Attempt<string, int>
  {
    CancelSignal
  }

  /** `error("error $rtyCount")`. */
  function FailWithCount(n: nat, c: int): Attempt<string, int>
  {
    Error(c)
  }

  /** `error("error")`. */
  function Fail(n: nat, c: int): Attempt<string, int>
  {
    Error(0)
  }

  /** The block of the skip test: the third invocation, at count 3, skips; every other one fails. */
  function SkipOnce(n: nat, c: int): Attempt<string, int>
  {
    if n == 2 then SkipSignal else Error(0)
  }

  lemma {:induction false} NoInvocations(events: seq<Event<int>>)
    requires forall k :: 0 <= k < |events| ==> !events[k].Work?
    ensures WorkCounts(events) == []
  {
    if events != [] {
      NoInvocations(events[1..]);
    }
  }

  /** `rty { "success" }` returns the block's value. */
  lemma TestSuccess()
    ensures Execution(DefaultCall(Succeed), Active, 0).outcome == Success("success")
  {
  }

  /** `rty(maxCount = 99) { error("error $rtyCount") }` fails with the exception of attempt 99. */
  lemma TestError()
    ensures Execution(DefaultCall(FailWithCount).(maxCount := 99), Active, 0).outcome == Failure(99)
  {
    PersistentFailure(DefaultCall(FailWithCount).(maxCount := 99), Active, 99);
  }

  /** A block that throws a cancellation cancels the calling coroutine. */
  lemma TestCancel()
    ensures Execution(DefaultCall(ThrowCancellation), Active, 0).outcome == Cancelled
  {
  }

  /** With `maxCount = 5` a block that always fails observes the counts 1 to 5. */
  lemma TestCount()
    ensures WorkCounts(Execution(DefaultCall(Fail).(maxCount := 5), Active, 0).trace) == [1, 2, 3, 4, 5]
  {
    PersistentFailure(DefaultCall(Fail).(maxCount := 5), Active, 5);
  }

  /** The call of the skip test. */
  function SkipTestCall(): Call<string, int>
  {
    DefaultCall(SkipOnce).(maxCount := 5)
  }

  /** A pass that goes round again contributes the count of its one invocation. */
  lemma PassCounts<T>(call: Call<T, int>, cancelled: (nat, Checkpoint) -> bool, skipBound: nat, i: nat, count: int)
    requires FinitelyManySkips(call.block, skipBound)
    requires 1 <= count <= call.maxCount as int
    requires Round(call, cancelled, i, count).Again?
    ensures var s := Round(call, cancelled, i, count);
      WorkCounts(Loop(call, cancelled, skipBound, i, count).trace) ==
      [count] + WorkCounts(Loop(call, cancelled, skipBound, i + 1, s.next).trace)
  {
    var s := Round(call, cancelled, i, count);
    WorkCountsConcat(s.events, Loop(call, cancelled, skipBound, i + 1, s.next).trace);
    WorkCountsConcat([s.events[0]], s.events[1..]);
    assert s.events == [s.events[0]] + s.events[1..];
    NoInvocations(s.events[1..]);
    WorkCountsOfOne(s.events[0]);
  }

  /** The last pass of the skip test: attempt 5 fails and meets the ceiling. */
  lemma SkipTestFrom5(bound: nat)
    requires FinitelyManySkips(SkipOnce, bound)
    ensures WorkCounts(Loop(SkipTestCall(), Active, bound, 5, 5).trace) == [5]
  {
    var t := Loop(SkipTestCall(), Active, bound, 5, 5).trace;
    assert t == [Work(5, 5), OnFailure(5, 5, 0)];
    WorkCountsConcat([t[0]], [t[1]]);
    WorkCountsOfOne(t[0]);
    WorkCountsOfOne(t[1]);
    assert t == [t[0]] + [t[1]];
  }

  lemma SkipTestFrom4(bound: nat)
    requires FinitelyManySkips(SkipOnce, bound)
    ensures WorkCounts(Loop(SkipTestCall(), Active, bound, 4, 4).trace) == [4, 5]
  {
    SkipTestFrom5(bound);
    PassCounts(SkipTestCall(), Active, bound, 4, 4);
  }

  lemma SkipTestFrom3(bound: nat)
    requires FinitelyManySkips(SkipOnce, bound)
    ensures WorkCounts(Loop(SkipTestCall(), Active, bound, 3, 3).trace) == [3, 4, 5]
  {
    SkipTestFrom4(bound);
    PassCounts(SkipTestCall(), Active, bound, 3, 3);
  }

  /** The skipped invocation: the next one runs at the same count. */
  lemma SkipTestFrom2(bound: nat)
    requires FinitelyManySkips(SkipOnce, bound)
    ensures WorkCounts(Loop(SkipTestCall(), Active, bound, 2, 3).trace) == [3, 3, 4, 5]
  {
    SkipTestFrom3(bound);
    PassCounts(SkipTestCall(), Active, bound, 2, 3);
  }

  lemma SkipTestFrom1(bound: nat)
    requires FinitelyManySkips(SkipOnce, bound)
    ensures WorkCounts(Loop(SkipTestCall(), Active, bound, 1, 2).trace) == [2, 3, 3, 4, 5]
  {
    SkipTestFrom2(bound);
    PassCounts(SkipTestCall(), Active, bound, 1, 2);
  }

  /**
   * A skipped attempt is not counted: the counts observed are 1, 2, 3, 3, 4, 5.
   * (The block never skips from its fourth invocation on; any such bound will do.)
   */
  lemma TestSkip(bound: nat)
    requires FinitelyManySkips(SkipOnce, bound)
    ensures WorkCounts(Execution(SkipTestCall(), Active, bound).trace) == [1, 2, 3, 3, 4, 5]
  {
    SkipTestFrom1(bound);
    PassCounts(SkipTestCall(), Active, bound, 0, 1);
  }

  /** With the default policy each of the three failures is reported, with its own count. */
  lemma TestOnFailure()
    ensures var t := Execution(DefaultCall(FailWithCount), Active, 0).trace;
      Reports(t) == [1, 2, 3] &&
      forall k :: 0 <= k < |t| && t[k].OnFailure? ==> t[k].error == t[k].count
  {
    var call := DefaultCall(FailWithCount);
    PersistentFailure(call, Active, 3);
    FailurePolicySeesItsAttempt(call, Active, 0);
  }

  /** A policy that answers false at count 3 stops the call there, far below `maxCount`. */
  lemma TestOnFailureFalse()
    ensures var r := Execution(DefaultCall(FailWithCount).(maxCount := 0x7fff_ffff, onFailure := ContinueBelowThree), Active, 0);
      Reports(r.trace) == [1, 2, 3] && r.outcome == Failure(3)
  {
    PersistentFailure(DefaultCall(FailWithCount).(maxCount := 0x7fff_ffff, onFailure := ContinueBelowThree), Active, 3);
  }
}
