/**
 The deprecated test runner _run_tests of FSBL/cmocka.c: a flat list of tests, setups and
 teardowns, a stack of test states, and flags that decide what still runs. What a test
 function does is the parameter `fails`: entry i says whether entry i fails if it is run.
 */
module RunTests {
  import opened Basics

  /** UNIT_TEST_FUNCTION_TYPE_*; every other value takes the default branch and ends the program. */
  datatype Kind = Test | Setup | Teardown | Other

  datatype UnitTest = UnitTest(name: string, hasFunction: bool, kind: Kind)

  /**
   The local variables of the loop: the three flags, the open setups (the stack of test states,
   each named by its setup's index), the counters, and the entries run so far.
   */
  datatype State = State(
    runNext: bool, setupFailed: bool, testFailed: bool, stack: seq<nat>,
    executed: nat, failed: nat, log: seq<nat>)

  const START := State(true, false, false, [], 0, 0, [])

  datatype Result = Exit | Ok(state: State)

  /** The bookkeeping before the entry is run: push, pop, and whether it will run. */
  function Prepare(s: State, t: UnitTest, i: nat): Result {
    match t.kind
    case Test => Ok(if s.setupFailed then s else s.(runNext := true))
    case Setup => Ok(s.(stack := s.stack + [i], runNext := true))
    case Teardown => if s.stack == [] then Exit else Ok(s.(stack := s.stack[..|s.stack| - 1]))
    case Other => Exit
  }

  /** Running the entry and counting its result. */
  function RunEntry(s: State, t: UnitTest, i: nat, fails: bool): State {
    var s := s.(log := s.log + [i]);
    match t.kind
    case Test => s.(testFailed := fails, failed := s.failed + Bit(fails), executed := s.executed + 1)
    case Setup =>
      s.(failed := s.failed + Bit(fails), executed := s.executed + Bit(fails), testFailed := false,
         runNext := !fails, setupFailed := s.setupFailed || fails)
    case Teardown => s.(failed := s.failed + Bit(fails && !s.testFailed))
    case Other => s
  }

  function Bit(b: bool): nat { if b then 1 else 0 }

  function Step(s: State, t: UnitTest, i: nat, fails: bool): Result {
    if !t.hasFunction then Ok(s)
    else
      match Prepare(s, t, i)
      case Exit => Exit
      case Ok(s') => Ok(if s'.runNext then RunEntry(s', t, i, fails) else s')
  }

  /** The loop over the first n entries. */
  function Run(tests: seq<UnitTest>, fails: seq<bool>, n: nat): Result
    requires n <= |tests| == |fails|
  {
    if n == 0 then Ok(START)
    else
      match Run(tests, fails, n - 1)
      case Exit => Exit
      case Ok(s) => Step(s, tests[n - 1], n - 1, fails[n - 1])
  }

  // ---- The procedure, with its two heap arrays ----

  /** What _run_tests returns, or that the program exits. */
  datatype Outcome = Exited | Returned(rc: int)

  /** (size_t)-1 */
  const SIZE_MAX := 0xFFFF_FFFF_FFFF_FFFF

  function ReturnOf(s: State): int { AsInt(if s.stack != [] then SIZE_MAX else s.failed) }

  /**
   _run_tests; arrays of one slot per entry hold the stack and the failed names, `leak` is the result of the last leak
   check
   */
  method RunTests(tests: seq<UnitTest>, fails: seq<bool>, leak: bool) returns (out: Outcome, log: seq<nat>)
    requires |tests| == |fails|
    ensures var r := Run(tests, fails, |tests|);
      if r.Exit? then out == Exited
      else
        && log == r.state.log
        && out == if leak then Exited else Returned(ReturnOf(r.state))
  {
    var testStates := new nat[|tests|];
    var failedNames: array<string> := new string[|tests|];
    var runNext, setupFailed, testFailed := true, false, false;
    var depth: nat, executed: nat, failed: nat := 0, 0, 0;
    log := [];
    var current := 0;
    while current < |tests|
      invariant 0 <= current <= |tests| && depth <= current && failed <= current
      invariant Run(tests, fails, current) ==
                Ok(State(runNext, setupFailed, testFailed, testStates[..depth], executed, failed, log))
    {
      var test, index := tests[current], current;
      ghost var before := State(runNext, setupFailed, testFailed, testStates[..depth], executed, failed, log);
      current := current + 1;
      assert Run(tests, fails, current) == Step(before, test, index, fails[index]);
      ExitIsFinal(tests, fails, current, |tests|);
      if !test.hasFunction {
        continue;
      }
      match test.kind {
        case Test =>
          if !setupFailed { runNext := true; }
        case Setup =>
          testStates[depth] := index;
          depth := depth + 1;
          runNext := true;
          assert testStates[..depth] == before.stack + [index];
        case Teardown =>
          if depth == 0 {
            return Exited, log;
          }
          depth := depth - 1;
          assert testStates[..depth] == before.stack[..depth];
        case Other =>
          return Exited, log;
      }
      if runNext {
        var failure := fails[index];
        log := log + [index];
        if failure {
          failedNames[failed] := test.name;
        }
        match test.kind {
          case Test =>
            testFailed := failure;
            failed := failed + Bit(failure);
            executed := executed + 1;
          case Setup =>
            if failure {
              failed := failed + 1;
              executed := executed + 1;
              runNext := false;
              setupFailed := true;
            }
            testFailed := false;
          case Teardown =>
            if failure && !testFailed {
              failed := failed + 1;
            }
          case Other =>
            return Exited, log;
        }
      }
    }
    if depth != 0 {
      failed := SIZE_MAX;
    }
    out := if leak then Exited else Returned(AsInt(failed));
  }

  lemma {:induction false} ExitIsFinal(tests: seq<UnitTest>, fails: seq<bool>, m: nat, n: nat)
    requires m <= n <= |tests| == |fails|
    ensures Run(tests, fails, m).Exit? ==> Run(tests, fails, n).Exit?
  {
    if m < n { ExitIsFinal(tests, fails, m, n - 1); }
  }

  // ---- Properties of every run ----

  predicate IsSetup(t: UnitTest) { t.hasFunction && t.kind == Setup }
  predicate IsTeardown(t: UnitTest) { t.hasFunction && t.kind == Teardown }

  /** Setups minus teardowns among the first n entries. */
  function Balance(tests: seq<UnitTest>, n: nat): int
    requires n <= |tests|
  {
    if n == 0 then 0
    else Balance(tests, n - 1) + Bit(IsSetup(tests[n - 1])) - Bit(IsTeardown(tests[n - 1]))
  }

  /** The index of the last setup before n, or -1. */
  function LastSetup(tests: seq<UnitTest>, n: nat): (k: int)
    requires n <= |tests|
    ensures -1 <= k < n
    ensures k >= 0 ==> IsSetup(tests[k])
    ensures forall j :: k < j < n ==> !IsSetup(tests[j])
  {
    if n == 0 then -1 else if IsSetup(tests[n - 1]) then n - 1 else LastSetup(tests, n - 1)
  }

  /** Entry i is run exactly when it is a setup or no failed setup is the last one before it. */
  predicate Runs(tests: seq<UnitTest>, fails: seq<bool>, i: nat)
    requires i < |tests| == |fails|
  {
    && tests[i].hasFunction
    && (tests[i].kind == Setup || LastSetup(tests, i) == -1 || !fails[LastSetup(tests, i)])
  }

  /** The entries a list runs, in order. */
  function Expected(tests: seq<UnitTest>, fails: seq<bool>, n: nat): seq<nat>
    requires n <= |tests| == |fails|
  {
    if n == 0 then []
    else Expected(tests, fails, n - 1) + if Runs(tests, fails, n - 1) then [n - 1] else []
  }

  ghost predicate FlagsHold(tests: seq<UnitTest>, fails: seq<bool>, n: nat, s: State)
    requires n <= |tests| == |fails|
  {
    var k := LastSetup(tests, n);
    && (s.runNext <==> k == -1 || !fails[k])
    && (k >= 0 && fails[k] ==> s.setupFailed)
  }

  /** The three flags amount to: run everything but what follows a failed setup, up to the next setup. */
  lemma {:induction false} LogIsExpected(tests: seq<UnitTest>, fails: seq<bool>, n: nat)
    requires n <= |tests| == |fails| && Run(tests, fails, n).Ok?
    ensures FlagsHold(tests, fails, n, Run(tests, fails, n).state)
    ensures Run(tests, fails, n).state.log == Expected(tests, fails, n)
  {
    if n > 0 { LogIsExpected(tests, fails, n - 1); }
  }

  /** Entry j is a setup, and no entry between it and entry i is one. */
  ghost predicate LastSetupIs(tests: seq<UnitTest>, j: nat, i: nat) {
    && j < i <= |tests| && tests[j].hasFunction && tests[j].kind == Setup
    && forall m :: j < m < i && tests[m].hasFunction ==> tests[m].kind != Setup
  }

  lemma RunsIff(tests: seq<UnitTest>, fails: seq<bool>, i: nat)
    requires i < |tests| == |fails|
    ensures Runs(tests, fails, i) <==>
      tests[i].hasFunction && (tests[i].kind == Setup || !exists j: nat :: LastSetupIs(tests, j, i) && fails[j])
  {
    var k := LastSetup(tests, i);
    if k >= 0 { assert LastSetupIs(tests, k, i); }
    forall j: nat | LastSetupIs(tests, j, i) ensures j == k { }
  }

  lemma {:induction false} ExpectedIs(tests: seq<UnitTest>, fails: seq<bool>, n: nat)
    requires n <= |tests| == |fails|
    ensures var log := Expected(tests, fails, n);
      && (forall j, k :: 0 <= j < k < |log| ==> log[j] < log[k])
      && forall i: nat :: i in log <==> i < n && Runs(tests, fails, i)
  {
    if n > 0 {
      ExpectedIs(tests, fails, n - 1);
      var log := Expected(tests, fails, n - 1);
      assert forall k :: 0 <= k < |log| ==> log[k] in log;
    }
  }

  /**
   Which entries a run logs, in terms of the list alone: each once and in order, those with a function that are
   setups or have no failed setup as the last setup before them.
   */
  lemma {:induction false} LogIs(tests: seq<UnitTest>, fails: seq<bool>, n: nat, i: nat)
    requires n <= |tests| == |fails| && Run(tests, fails, n).Ok?
    ensures var log := Run(tests, fails, n).state.log;
      && (forall j, k :: 0 <= j < k < |log| ==> log[j] < log[k])
      && (i in log <==>
            && i < n && tests[i].hasFunction
            && (tests[i].kind == Setup || !exists j: nat :: LastSetupIs(tests, j, i) && fails[j]))
  {
    LogIsExpected(tests, fails, n);
    ExpectedIs(tests, fails, n);
    if i < n { RunsIff(tests, fails, i); }
  }

  /** The stack is as deep as setups exceed teardowns, and the program exits exactly when it would go below. */
  lemma {:induction false} DepthIsBalance(tests: seq<UnitTest>, fails: seq<bool>, n: nat)
    requires n <= |tests| == |fails|
    ensures Run(tests, fails, n).Ok? ==> |Run(tests, fails, n).state.stack| == Balance(tests, n)
    ensures Run(tests, fails, n).Ok? <==>
            forall i :: 0 <= i < n && tests[i].hasFunction ==>
              tests[i].kind != Other && (tests[i].kind == Teardown ==> Balance(tests, i) > 0)
  {
    if n > 0 { DepthIsBalance(tests, fails, n - 1); }
  }

  /** `st` holds setups among the first n entries, each at its depth and not closed since. */
  ghost predicate OpenSetups(tests: seq<UnitTest>, n: nat, st: seq<nat>)
    requires n <= |tests|
  {
    && (forall j :: 0 <= j < |st| ==> st[j] < n && IsSetup(tests[st[j]]) && Balance(tests, st[j]) == j)
    && (forall j, i :: 0 <= j < |st| && st[j] < i <= n ==> Balance(tests, i) > j)
  }

  /** One more entry pushes its index, pops the last one, or leaves the stack alone, as the balance says. */
  lemma {:induction false} OpenSetupsStep(tests: seq<UnitTest>, n: nat, st: seq<nat>, st': seq<nat>)
    requires n < |tests| && OpenSetups(tests, n, st) && |st| == Balance(tests, n)
    requires st' == if IsSetup(tests[n]) then st + [n]
                    else if IsTeardown(tests[n]) && st != [] then st[..|st| - 1] else st
    requires |st'| == Balance(tests, n + 1)
    ensures OpenSetups(tests, n + 1, st')
  {
  }

  /** The stack holds open setups in order, so a teardown pops the state of the nearest open setup. */
  lemma {:induction false} StackIsOpenSetups(tests: seq<UnitTest>, fails: seq<bool>, n: nat)
    requires n <= |tests| == |fails| && Run(tests, fails, n).Ok?
    ensures OpenSetups(tests, n, Run(tests, fails, n).state.stack)
  {
    if n > 0 {
      StackIsOpenSetups(tests, fails, n - 1);
      DepthIsBalance(tests, fails, n - 1);
      DepthIsBalance(tests, fails, n);
      OpenSetupsStep(tests, n - 1, Run(tests, fails, n - 1).state.stack, Run(tests, fails, n).state.stack);
    }
  }

  /** The last test or setup that was run before entry n is a test, and it failed. */
  predicate AfterFailedTest(tests: seq<UnitTest>, fails: seq<bool>, n: nat)
    requires n <= |tests| == |fails|
  {
    if n == 0 then false
    else if !Runs(tests, fails, n - 1) || tests[n - 1].kind == Teardown then AfterFailedTest(tests, fails, n - 1)
    else tests[n - 1].kind == Test && fails[n - 1]
  }

  /** Entry i is counted as failed: it ran and failed, and is not the teardown of a test already counted. */
  predicate CountsAsFailed(tests: seq<UnitTest>, fails: seq<bool>, i: nat)
    requires i < |tests| == |fails|
  {
    Runs(tests, fails, i) && fails[i] && !(tests[i].kind == Teardown && AfterFailedTest(tests, fails, i))
  }

  /** Entry i is counted as executed: a test that ran, or a setup that failed. */
  predicate CountsAsExecuted(tests: seq<UnitTest>, fails: seq<bool>, i: nat)
    requires i < |tests| == |fails|
  {
    Runs(tests, fails, i) && (tests[i].kind == Test || (tests[i].kind == Setup && fails[i]))
  }

  function FailedCount(tests: seq<UnitTest>, fails: seq<bool>, n: nat): nat
    requires n <= |tests| == |fails|
  {
    if n == 0 then 0 else FailedCount(tests, fails, n - 1) + Bit(CountsAsFailed(tests, fails, n - 1))
  }

  function ExecutedCount(tests: seq<UnitTest>, fails: seq<bool>, n: nat): nat
    requires n <= |tests| == |fails|
  {
    if n == 0 then 0 else ExecutedCount(tests, fails, n - 1) + Bit(CountsAsExecuted(tests, fails, n - 1))
  }

  /** What one entry adds to the counters and does to the third flag, given the flags before it. */
  lemma {:induction false} CountersStep(tests: seq<UnitTest>, fails: seq<bool>, n: nat, s: State)
    requires n < |tests| == |fails| && FlagsHold(tests, fails, n, s) && s.testFailed == AfterFailedTest(tests, fails, n)
    ensures var r := Step(s, tests[n], n, fails[n]);
      r.Ok? ==>
        && r.state.failed == s.failed + Bit(CountsAsFailed(tests, fails, n))
        && r.state.executed == s.executed + Bit(CountsAsExecuted(tests, fails, n))
        && r.state.testFailed == AfterFailedTest(tests, fails, n + 1)
  {
  }

  /** The two counters and the third flag, in terms of the list alone. */
  lemma {:induction false} CountersAre(tests: seq<UnitTest>, fails: seq<bool>, n: nat)
    requires n <= |tests| == |fails| && Run(tests, fails, n).Ok?
    ensures var s := Run(tests, fails, n).state;
      && s.failed == FailedCount(tests, fails, n) <= n
      && s.executed == ExecutedCount(tests, fails, n)
      && s.testFailed == AfterFailedTest(tests, fails, n)
  {
    if n > 0 {
      CountersAre(tests, fails, n - 1);
      LogIsExpected(tests, fails, n - 1);
      CountersStep(tests, fails, n - 1, Run(tests, fails, n - 1).state);
    }
  }

  // ---- The number of failures, in terms of the log ----

  /** Entry j is a test that was run and failed, and only teardowns were run between it and entry i. */
  ghost predicate FailedBefore(tests: seq<UnitTest>, fails: seq<bool>, log: seq<nat>, j: nat, i: nat) {
    && j < i <= |tests| == |fails| && j in log && tests[j].kind == Test && fails[j]
    && forall m: nat :: j < m < i && m in log ==> tests[m].kind == Teardown
  }

  /** Entry i was run and failed, and is not a teardown of a failed test. */
  ghost predicate IsFailure(tests: seq<UnitTest>, fails: seq<bool>, log: seq<nat>, i: nat) {
    && i < |tests| == |fails| && i in log && fails[i]
    && (tests[i].kind == Teardown ==> !exists j: nat :: FailedBefore(tests, fails, log, j, i))
  }

  ghost predicate LogOf(tests: seq<UnitTest>, fails: seq<bool>, log: seq<nat>, n: nat)
    requires n <= |tests| == |fails|
  {
    forall i: nat :: i in log <==> i < n && Runs(tests, fails, i)
  }

  lemma FailedBeforeNext(tests: seq<UnitTest>, fails: seq<bool>, log: seq<nat>, j: nat, h: nat)
    requires h < |tests| == |fails|
    ensures FailedBefore(tests, fails, log, j, h + 1) <==>
      if h !in log || tests[h].kind == Teardown then FailedBefore(tests, fails, log, j, h)
      else j == h && tests[h].kind == Test && fails[h]
  {
  }

  lemma {:induction false} AfterFailedIff(tests: seq<UnitTest>, fails: seq<bool>, log: seq<nat>, n: nat, i: nat)
    requires i <= n <= |tests| == |fails| && LogOf(tests, fails, log, n)
    requires forall m :: 0 <= m < n && tests[m].hasFunction ==> tests[m].kind != Other
    ensures AfterFailedTest(tests, fails, i) <==> exists j: nat :: FailedBefore(tests, fails, log, j, i)
  {
    if i > 0 {
      var h := i - 1;
      AfterFailedIff(tests, fails, log, n, h);
      if j: nat :| FailedBefore(tests, fails, log, j, h) { FailedBeforeNext(tests, fails, log, j, h); }
      if j: nat :| FailedBefore(tests, fails, log, j, i) { FailedBeforeNext(tests, fails, log, j, h); }
      FailedBeforeNext(tests, fails, log, h, h);
      assert h in log <==> Runs(tests, fails, h);
    }
  }

  lemma {:induction false} FailureIff(tests: seq<UnitTest>, fails: seq<bool>, log: seq<nat>, n: nat, i: nat)
    requires i < n <= |tests| == |fails| && LogOf(tests, fails, log, n)
    requires forall m :: 0 <= m < n && tests[m].hasFunction ==> tests[m].kind != Other
    ensures IsFailure(tests, fails, log, i) <==> CountsAsFailed(tests, fails, i)
  {
    AfterFailedIff(tests, fails, log, n, i);
  }

  /** The failures among the first m entries. */
  ghost function Failures(tests: seq<UnitTest>, fails: seq<bool>, log: seq<nat>, m: nat): set<nat> {
    set i: nat | i < m && IsFailure(tests, fails, log, i)
  }

  lemma FailuresNext(tests: seq<UnitTest>, fails: seq<bool>, log: seq<nat>, h: nat)
    ensures h !in Failures(tests, fails, log, h)
    ensures Failures(tests, fails, log, h + 1) ==
            Failures(tests, fails, log, h) + if IsFailure(tests, fails, log, h) then {h} else {}
  {
  }

  lemma {:induction false} FailedCountIs(tests: seq<UnitTest>, fails: seq<bool>, log: seq<nat>, n: nat, m: nat)
    requires m <= n <= |tests| == |fails|
    requires forall i: nat :: i < n ==> (IsFailure(tests, fails, log, i) <==> CountsAsFailed(tests, fails, i))
    ensures FailedCount(tests, fails, m) == |Failures(tests, fails, log, m)|
  {
    if m > 0 {
      FailedCountIs(tests, fails, log, n, m - 1);
      FailuresNext(tests, fails, log, m - 1);
      assert IsFailure(tests, fails, log, m - 1) <==> CountsAsFailed(tests, fails, m - 1);
    }
  }

  /**
   The failures counted are the entries that were run and failed, except that a teardown does not count
   when the last test or setup run before it is a test that failed.
   */
  lemma {:induction false} FailuresCounted(tests: seq<UnitTest>, fails: seq<bool>, n: nat)
    requires n <= |tests| == |fails| && Run(tests, fails, n).Ok?
    ensures var s := Run(tests, fails, n).state; s.failed == |Failures(tests, fails, s.log, n)|
  {
    CountersAre(tests, fails, n);
    LogIsExpected(tests, fails, n);
    ExpectedIs(tests, fails, n);
    DepthIsBalance(tests, fails, n);
    var log := Run(tests, fails, n).state.log;
    forall i: nat | i < n ensures IsFailure(tests, fails, log, i) <==> CountsAsFailed(tests, fails, i) {
      FailureIff(tests, fails, log, n, i);
    }
    FailedCountIs(tests, fails, log, n, n);
  }

  /** Tests that ran and passed, and teardowns counted as failed. */
  function PassedCount(tests: seq<UnitTest>, fails: seq<bool>, n: nat): nat
    requires n <= |tests| == |fails|
  {
    if n == 0 then 0
    else PassedCount(tests, fails, n - 1) +
         Bit(Runs(tests, fails, n - 1) && tests[n - 1].kind == Test && !fails[n - 1])
  }

  function FailedTeardowns(tests: seq<UnitTest>, fails: seq<bool>, n: nat): nat
    requires n <= |tests| == |fails|
  {
    if n == 0 then 0
    else FailedTeardowns(tests, fails, n - 1) +
         Bit(CountsAsFailed(tests, fails, n - 1) && tests[n - 1].kind == Teardown)
  }

  /**
   Conservation: executed + failed teardowns = failed + passed. So the printed number of passed
   tests, executed - failed in size_t, is right exactly when no teardown was counted as failed, and
   wraps around exactly when such teardowns outnumber the passing tests.
   */
  lemma {:induction false} PassedBalance(tests: seq<UnitTest>, fails: seq<bool>, n: nat)
    requires n <= |tests| == |fails| && Run(tests, fails, n).Ok?
    ensures var s := Run(tests, fails, n).state;
      && s.executed + FailedTeardowns(tests, fails, n) == s.failed + PassedCount(tests, fails, n)
      && (s.executed - s.failed == PassedCount(tests, fails, n) <==> FailedTeardowns(tests, fails, n) == 0)
      && (s.executed < s.failed <==> PassedCount(tests, fails, n) < FailedTeardowns(tests, fails, n))
  {
    CountersAre(tests, fails, n);
    if n > 0 {
      PassedBalance(tests, fails, n - 1);
      CountersAre(tests, fails, n - 1);
      DepthIsBalance(tests, fails, n);
    }
  }

  /** Nothing is counted as failed exactly when nothing that ran failed. */
  lemma {:induction false} NothingFailedIff(tests: seq<UnitTest>, fails: seq<bool>, n: nat)
    requires n <= |tests| == |fails|
    ensures FailedCount(tests, fails, n) == 0 <==> forall i :: 0 <= i < n && Runs(tests, fails, i) ==> !fails[i]
    ensures AfterFailedTest(tests, fails, n) ==> FailedCount(tests, fails, n) > 0
  {
    if n > 0 { NothingFailedIff(tests, fails, n - 1); }
  }

  /**
   A run that returns gives -1 when setups and teardowns do not match, and 0 when they do and nothing failed.
   These are the only ways for fewer than 2^31 entries; beyond, the cast adds the counts that wrap to them.
   */
  lemma ReturnCode(tests: seq<UnitTest>, fails: seq<bool>)
    requires |tests| == |fails| && Run(tests, fails, |tests|).Ok?
    ensures var rc := ReturnOf(Run(tests, fails, |tests|).state);
      var n := FailedCount(tests, fails, |tests|); var matched := Balance(tests, |tests|) == 0;
      && (rc == -1 <==> !matched || n % 0x1_0000_0000 == 0xFFFF_FFFF)
      && (rc == 0 <==> matched && n % 0x1_0000_0000 == 0)
      && (|tests| < 0x8000_0000 ==>
            && rc == (if matched then n else -1)
            && (rc == 0 <==> matched && forall i :: 0 <= i < |tests| && Runs(tests, fails, i) ==> !fails[i]))
  {
    DepthIsBalance(tests, fails, |tests|);
    CountersAre(tests, fails, |tests|);
    NothingFailedIff(tests, fails, |tests|);
  }
}
