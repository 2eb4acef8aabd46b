/** The pass/fail reporter (`TestRunner`) that both checkers keep a copy of. It counts
    the results it is given and keeps, in `log`, the result lines it prints. */
module Reporting {

  /** What one check found: a pass, or a failure with its detail. */
  datatype Outcome<+E> = Pass | Fail(error: E)

  /** One printed result line: the check's label and, for a failure, its detail. */
  datatype Event<+E> = Passed(msg: string) | Failed(msg: string, error: E)

  /** The result line a check prints, given its outcome and its two labels. */
  function ToEvent<E>(o: Outcome<E>, passLabel: string, failLabel: string): (ev: Event<E>)
    ensures ev.Passed? <==> o.Pass?
    ensures ev.Passed? ==> ev.msg == passLabel
    ensures ev.Failed? ==> ev.msg == failLabel && ev.error == o.error
  {
    match o
    case Pass => Passed(passLabel)
    case Fail(e) => Failed(failLabel, e)
  }

  function PassedCount<E>(log: seq<Event<E>>): (n: nat)
    ensures n <= |log|
  {
    if log == [] then 0
    else PassedCount(log[..|log| - 1]) + (if log[|log| - 1].Passed? then 1 else 0)
  }

  predicate AllPassed<E>(log: seq<Event<E>>) {
    forall k :: 0 <= k < |log| ==> log[k].Passed?
  }

  /** Every result passed exactly when the passes account for all of them. */
  lemma {:induction false} AllPassedCount<E>(log: seq<Event<E>>)
    ensures AllPassed(log) <==> PassedCount(log) == |log|
  {
    if log != [] {
      var init := log[..|log| - 1];
      AllPassedCount(init);
      if AllPassed(log) {
        assert AllPassed(init) by {
          forall k | 0 <= k < |init| ensures init[k].Passed? {
            assert init[k] == log[k];
          }
        }
      }
      if PassedCount(log) == |log| {
        assert log[|log| - 1].Passed?;
        forall k | 0 <= k < |log| ensures log[k].Passed? {
          if k < |init| { assert init[k] == log[k]; }
        }
      }
    }
  }

  lemma PassedCountAppend<E>(log: seq<Event<E>>, ev: Event<E>)
    ensures PassedCount(log + [ev]) == PassedCount(log) + (if ev.Passed? then 1 else 0)
  {
    assert (log + [ev])[..|log|] == log;
  }

  class Reporter<E> {
    var testsRun: nat
    var testsPassed: nat
    var testsFailed: nat
    /** The result lines printed so far, in order. */
    var log: seq<Event<E>>

    /** Every result is either a pass or a failure, and the counters agree with the lines printed. */
    ghost predicate Valid()
      reads this
    {
      testsRun == testsPassed + testsFailed &&
      testsRun == |log| && testsPassed == PassedCount(log)
    }

    constructor ()
      ensures Valid() && log == []
      ensures testsRun == 0 && testsPassed == 0 && testsFailed == 0
    {
      testsRun, testsPassed, testsFailed := 0, 0, 0;
      log := [];
    }

    /** `pass_test`. */
    method PassTest(msg: string)
      requires Valid()
      modifies this
      ensures Valid() && log == old(log) + [Passed(msg)]
      ensures testsRun == old(testsRun) + 1 && testsPassed == old(testsPassed) + 1
      ensures testsFailed == old(testsFailed)
    {
      PassedCountAppend(log, Passed(msg));
      testsRun := testsRun + 1;
      testsPassed := testsPassed + 1;
      log := log + [Passed(msg)];
    }

    /** `fail_test`. */
    method FailTest(msg: string, error: E)
      requires Valid()
      modifies this
      ensures Valid() && log == old(log) + [Failed(msg, error)]
      ensures testsRun == old(testsRun) + 1 && testsFailed == old(testsFailed) + 1
      ensures testsPassed == old(testsPassed)
    {
      PassedCountAppend(log, Failed(msg, error));
      testsRun := testsRun + 1;
      testsFailed := testsFailed + 1;
      log := log + [Failed(msg, error)];
    }

    /** Records a check's outcome under the label for a pass or the label for a failure. */
    method Report(o: Outcome<E>, passLabel: string, failLabel: string)
      requires Valid()
      modifies this
      ensures Valid() && log == old(log) + [ToEvent(o, passLabel, failLabel)]
    {
      match o
      case Pass => PassTest(passLabel);
      case Fail(e) => FailTest(failLabel, e);
    }

    /** `print_summary`: the exit status, 0 exactly when no recorded check failed. */
    method PrintSummary() returns (code: int)
      requires Valid()
      ensures code == (if testsFailed > 0 then 1 else 0)
      ensures code == 0 <==> AllPassed(log)
    {
      AllPassedCount(log);
      if testsFailed > 0 {
        code := 1;
      } else {
        code := 0;
      }
    }
  }
}
