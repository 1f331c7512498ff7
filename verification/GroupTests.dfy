/**
 The test runner _cmocka_run_group_tests of FSBL/cmocka.c: selecting tests by name
 patterns, running each with its fixtures, classifying and counting the results.

 What a test or fixture function does is a parameter: it passes, it fails (including
 leaks and leftover expectations), or it calls skip().
 */
module GroupTests {
  import opened Basics
  import opened StrMatch

  datatype Step = Passes | Fails | Skips

  /** struct CMUnitTest: a NULL function is None. */
  datatype CMUnitTest = CMUnitTest(
    name: Option<string>, body: Option<Step>, setup: Option<Step>, teardown: Option<Step>)

  datatype Status = NotStarted | Passed | Failed | Error | Skipped

  // ---- One test ----

  /**
   cmocka_run_one_test_or_fixture: whether it returned 0, and global_skip_test afterwards. A NULL function returns 0.
   */
  function RunStep(f: Option<Step>, skip: bool): (r: (bool, bool)) {
    match f
    case None => (true, skip)
    case Some(Passes) => (true, skip)
    case Some(Fails) => (false, skip)
    case Some(Skips) => (false, true)
  }

  datatype Ran = Ran(status: Status, ok: bool, skip: bool)

  /** cmocka_run_one_tests: the status, whether 0 was returned, and the flag left behind. */
  function RunOne(t: CMUnitTest, skip: bool): Ran {
    var (setupOk, skip) := RunStep(t.setup, skip);
    if !setupOk then Ran(Error, false, skip)
    else
      var (bodyOk, skip) := RunStep(t.body, skip);
      var status := if bodyOk then Passed else if skip then Skipped else Failed;
      var skip := if !bodyOk && skip then false else skip;
      var (teardownOk, skip) := RunStep(t.teardown, skip);
      if teardownOk then Ran(status, true, skip) else Ran(Error, false, skip)
  }

  predicate Good(f: Option<Step>) { f == None || f == Some(Passes) }

  /** What each status means. A failing body is called skipped when the flag is up, whoever raised it. */
  lemma StatusMeans(t: CMUnitTest, skip: bool)
    ensures var r := RunOne(t, skip);
      && (r.status == Passed <==> Good(t.setup) && Good(t.body) && Good(t.teardown))
      && (r.status == Error <==> !Good(t.setup) || !Good(t.teardown))
      && (r.status == Skipped <==>
            Good(t.setup) && Good(t.teardown) && !Good(t.body) && (t.body == Some(Skips) || skip))
      && (r.status == Failed <==> Good(t.setup) && Good(t.teardown) && t.body == Some(Fails) && !skip)
      && (r.ok <==> r.status != Error)
      && r.status != NotStarted
  {
  }

  /**
   The flag one test leaves behind: up after a fixture that skips. Otherwise a setup that fails leaves it as it was,
   and a body that fails or skips takes it down.
   */
  lemma FlagAfterOne(t: CMUnitTest, skip: bool)
    ensures RunOne(t, skip).skip <==>
      || t.setup == Some(Skips)
      || (t.setup == Some(Fails) && skip)
      || ((t.setup == None || t.setup == Some(Passes)) &&
          (t.teardown == Some(Skips) || (skip && (t.body == None || t.body == Some(Passes)))))
  {
  }

  // ---- The group ----

  datatype Counters = Counters(executed: nat, passed: nat, failed: nat, errors: nat, skipped: nat)

  const ZERO := Counters(0, 0, 0, 0, 0)

  /** Statuses and flag after running the tests in order. */
  function RunAll(tests: seq<CMUnitTest>, skip: bool): (r: (seq<Status>, bool))
    ensures |r.0| == |tests|
  {
    if tests == [] then ([], skip)
    else
      var n := |tests| - 1;
      var (statuses, skip') := RunAll(tests[..n], skip);
      var ran := RunOne(tests[n], skip');
      (statuses + [ran.status], ran.skip)
  }

  /** How often a status occurs. */
  function Count(statuses: seq<Status>, s: Status): nat {
    if statuses == [] then 0
    else Count(statuses[..|statuses| - 1], s) + if statuses[|statuses| - 1] == s then 1 else 0
  }

  function CountersOf(st: seq<Status>): Counters {
    Counters(|st|, Count(st, Passed), Count(st, Failed), Count(st, Error), Count(st, Skipped))
  }

  lemma {:induction false} CountIsMultiplicity(st: seq<Status>, s: Status)
    ensures Count(st, s) == multiset(st)[s]
  {
    if st != [] {
      var n := |st| - 1;
      CountIsMultiplicity(st[..n], s);
      assert st == st[..n] + [st[n]];
    }
  }

  /** Each counter is the number of tests with its status. */
  lemma {:induction false} CountersMean(st: seq<Status>)
    ensures var c := CountersOf(st); var m := multiset(st);
      && c.executed == |st| && c.passed == m[Passed] && c.failed == m[Failed]
      && c.errors == m[Error] && c.skipped == m[Skipped]
  {
    CountIsMultiplicity(st, Passed);
    CountIsMultiplicity(st, Failed);
    CountIsMultiplicity(st, Error);
    CountIsMultiplicity(st, Skipped);
  }

  /** What the group call does: ends the program because of a leak, or returns. */
  datatype Outcome = Exited | Returned(rc: int)

  /** What the group returns. The result of the group teardown is not part of it. */
  function GroupCode(prepared: seq<CMUnitTest>, groupSetup: Option<Step>, skip: bool): int {
    var st := RunAll(prepared, skip).0;
    AsInt(if Good(groupSetup) then Count(st, Failed) + Count(st, Error) else 1)
  }

  /** Fixtures, tests and return value of a group whose tests have been selected. */
  method RunPrepared(prepared: seq<CMUnitTest>, groupSetup: Option<Step>, groupTeardown: Option<Step>,
                     leak: bool, skip: bool)
    returns (out: Outcome, c: Counters, skip': bool)
    ensures groupSetup == None || groupSetup == Some(Passes) ==>
      var (st, flag) := RunAll(prepared, skip);
      c == CountersOf(st) && (skip' <==> flag || groupTeardown == Some(Skips))
    ensures groupSetup == Some(Fails) || groupSetup == Some(Skips) ==>
      && c == Counters(0, 0, 0, 1, 0)
      && (skip' <==> skip || groupSetup == Some(Skips) || groupTeardown == Some(Skips))
    ensures out == if leak then Exited else Returned(AsInt(c.failed + c.errors))
    ensures !leak ==> out == Returned(GroupCode(prepared, groupSetup, skip))
  {
    c, skip' := ZERO, skip;
    var ok := true;
    if groupSetup.Some? {
      var r := RunStep(groupSetup, skip');
      ok, skip' := r.0, r.1;
    }
    if ok {
      c, skip' := Execute(prepared, skip');
    } else {
      c := ZERO.(errors := 1);
    }
    if groupTeardown.Some? {
      var r := RunStep(groupTeardown, skip');
      skip' := r.1;
    }
    out := if leak then Exited else Returned(AsInt(c.failed + c.errors));
  }

  /**
   _cmocka_run_group_tests. `gotArray` says whether the array of test states could be allocated,
   `leak` whether the group left blocks allocated, `skip` is global_skip_test on entry. The tests run are those
   with a name and some function which the filter, if any, accepts and the skip filter, if any, does not.
   */
  method RunGroupTests(tests: seq<CMUnitTest>, filter: Option<string>, skipFilter: Option<string>,
                       groupSetup: Option<Step>, groupTeardown: Option<Step>,
                       gotArray: bool, leak: bool, skip: bool)
    returns (out: Outcome, prepared: seq<CMUnitTest>, c: Counters, skip': bool, ghost idx: seq<nat>)
    ensures !gotArray ==> out == Returned(-1) && skip' == skip
    ensures gotArray ==> |prepared| == |idx|
    ensures gotArray ==> forall k :: 0 <= k < |idx| ==> idx[k] < |tests| && prepared[k] == tests[idx[k]]
    ensures forall j, k :: 0 <= j < k < |idx| ==> idx[j] < idx[k]
    ensures gotArray ==> forall i :: 0 <= i < |tests| ==> (i in idx <==>
      && tests[i].name.Some? && (tests[i].body.Some? || tests[i].setup.Some? || tests[i].teardown.Some?)
      && (filter.None? || Glob(tests[i].name.value, Effective(filter.value)))
      && (skipFilter.None? || !Glob(tests[i].name.value, Effective(skipFilter.value))))
    ensures gotArray && (groupSetup == None || groupSetup == Some(Passes)) ==>
      var (st, flag) := RunAll(prepared, skip);
      c == CountersOf(st) && (skip' <==> flag || groupTeardown == Some(Skips))
    ensures gotArray && (groupSetup == Some(Fails) || groupSetup == Some(Skips)) ==>
      && c == Counters(0, 0, 0, 1, 0)
      && (skip' <==> skip || groupSetup == Some(Skips) || groupTeardown == Some(Skips))
    ensures gotArray ==> out == if leak then Exited else Returned(AsInt(c.failed + c.errors))
    ensures gotArray && !leak ==> out == Returned(GroupCode(prepared, groupSetup, skip))
  {
    if !gotArray {
      return Returned(-1), [], ZERO, skip, [];
    }
    var cmTests: array<CMUnitTest> := new CMUnitTest[|tests|](i => CMUnitTest(None, None, None, None));
    var total;
    total, idx := Prepare(tests, filter, skipFilter, cmTests);
    prepared := cmTests[..total];
    out, c, skip' := RunPrepared(prepared, groupSetup, groupTeardown, leak, skip);
  }

  /**
   The selection of one test; the two patterns are global_test_filter_pattern and global_skip_filter_pattern.
   c_strmatch reads a pattern as its effective glob.
   */
  method Includes(t: CMUnitTest, filter: Option<string>, skipFilter: Option<string>) returns (include_: bool)
    ensures include_ <==>
      && t.name.Some? && (t.body.Some? || t.setup.Some? || t.teardown.Some?)
      && (filter.None? || Glob(t.name.value, Effective(filter.value)))
      && (skipFilter.None? || !Glob(t.name.value, Effective(skipFilter.value)))
  {
    include_ := false;
    if t.name.Some? && (t.body.Some? || t.setup.Some? || t.teardown.Some?) {
      include_ := true;
      if filter.Some? {
        MatchIsEffectiveGlob(t.name.value, filter.value);
        var match_ := StrMatch.StrMatch(t.name.value, filter.value);
        if !match_ { include_ := false; }
      }
      if include_ && skipFilter.Some? {
        MatchIsEffectiveGlob(t.name.value, skipFilter.value);
        var match_ := StrMatch.StrMatch(t.name.value, skipFilter.value);
        if match_ { include_ := false; }
      }
    }
  }

  /**
   The first loop: the tests to run are copied to the front of the array in input order. They are those with a
   name and some function which the filter, if any, accepts and the skip filter, if any, does not.
   */
  method Prepare(tests: seq<CMUnitTest>, filter: Option<string>, skipFilter: Option<string>, cmTests: array<CMUnitTest>)
    returns (total: nat, ghost idx: seq<nat>)
    requires cmTests.Length == |tests|
    modifies cmTests
    ensures total == |idx| <= cmTests.Length
    ensures forall k :: 0 <= k < total ==> idx[k] < |tests| && cmTests[k] == tests[idx[k]]
    ensures forall j, k :: 0 <= j < k < total ==> idx[j] < idx[k]
    ensures forall i :: 0 <= i < |tests| ==> (i in idx <==>
      && tests[i].name.Some? && (tests[i].body.Some? || tests[i].setup.Some? || tests[i].teardown.Some?)
      && (filter.None? || Glob(tests[i].name.value, Effective(filter.value)))
      && (skipFilter.None? || !Glob(tests[i].name.value, Effective(skipFilter.value))))
  {
    total, idx := 0, [];
    var i := 0;
    while i < |tests|
      invariant 0 <= i <= |tests| && total == |idx| <= i
      invariant forall k :: 0 <= k < total ==> idx[k] < i && cmTests[k] == tests[idx[k]]
      invariant forall j, k :: 0 <= j < k < total ==> idx[j] < idx[k]
      invariant forall j :: 0 <= j < i ==> (j in idx <==>
        && tests[j].name.Some? && (tests[j].body.Some? || tests[j].setup.Some? || tests[j].teardown.Some?)
        && (filter.None? || Glob(tests[j].name.value, Effective(filter.value)))
        && (skipFilter.None? || !Glob(tests[j].name.value, Effective(skipFilter.value))))
    {
      var include_ := Includes(tests[i], filter, skipFilter);
      if include_ {
        cmTests[total] := tests[i];
        total, idx := total + 1, idx + [i];
      }
      i := i + 1;
    }
  }

  lemma {:induction false} CountAppend(st: seq<Status>, x: Status, s: Status)
    ensures Count(st + [x], s) == Count(st, s) + if x == s then 1 else 0
  {
  }

  /** The switch over the status of one test. */
  method Tally(c: Counters, ran: Ran, ghost st: seq<Status>) returns (c': Counters)
    requires c == CountersOf(st) && (!ran.ok ==> ran.status == Error) && ran.status != NotStarted
    ensures c' == CountersOf(st + [ran.status])
  {
    c' := c.(executed := c.executed + 1);
    CountAppend(st, ran.status, Passed);
    CountAppend(st, ran.status, Failed);
    CountAppend(st, ran.status, Error);
    CountAppend(st, ran.status, Skipped);
    if ran.ok && ran.status == Passed {
      c' := c'.(passed := c.passed + 1);
    } else if ran.ok && ran.status == Skipped {
      c' := c'.(skipped := c.skipped + 1);
    } else if ran.ok && ran.status == Failed {
      c' := c'.(failed := c.failed + 1);
    } else {
      c' := c'.(errors := c.errors + 1);
    }
  }

  /** The second loop: run and count. */
  method Execute(tests: seq<CMUnitTest>, skip: bool) returns (c: Counters, skip': bool)
    ensures c == CountersOf(RunAll(tests, skip).0)
    ensures skip' == RunAll(tests, skip).1
  {
    c, skip' := ZERO, skip;
    var i := 0;
    while i < |tests|
      invariant 0 <= i <= |tests|
      invariant c == CountersOf(RunAll(tests[..i], skip).0)
      invariant skip' == RunAll(tests[..i], skip).1
    {
      assert tests[..i + 1][..i] == tests[..i];
      var ran := RunOne(tests[i], skip');
      StatusMeans(tests[i], skip');
      c := Tally(c, ran, RunAll(tests[..i], skip).0);
      skip' := ran.skip;
      i := i + 1;
    }
    assert tests[..i] == tests;
  }

  // ---- Properties of every group ----

  /** Every test is counted once: executed = passed + failed + errors + skipped. */
  lemma {:induction false} CountsAddUp(tests: seq<CMUnitTest>, skip: bool)
    ensures var st := RunAll(tests, skip).0;
      Count(st, Passed) + Count(st, Failed) + Count(st, Error) + Count(st, Skipped) == |tests|
  {
    if tests != [] {
      var n := |tests| - 1;
      CountsAddUp(tests[..n], skip);
      StatusMeans(tests[n], RunAll(tests[..n], skip).1);
      assert RunAll(tests, skip).0[..n] == RunAll(tests[..n], skip).0;
    }
  }

  lemma {:induction false} CountIsZero(statuses: seq<Status>, s: Status)
    ensures Count(statuses, s) == 0 <==> s !in statuses
  {
    CountIsMultiplicity(statuses, s);
  }

  /** The group returns 0 exactly when every selected test passed or was skipped. */
  lemma ResultIsZeroIff(tests: seq<CMUnitTest>, skip: bool)
    ensures var st := RunAll(tests, skip).0;
      Count(st, Failed) + Count(st, Error) == 0 <==> forall i :: 0 <= i < |st| ==> st[i] == Passed || st[i] == Skipped
  {
    var st := RunAll(tests, skip).0;
    CountIsZero(st, Failed);
    CountIsZero(st, Error);
    CountIsZero(st, NotStarted);
    CountsAddUp(tests, skip);
    NeverNotStarted(tests, skip);
  }

  lemma {:induction false} NeverNotStarted(tests: seq<CMUnitTest>, skip: bool)
    ensures NotStarted !in RunAll(tests, skip).0
  {
    if tests != [] {
      NeverNotStarted(tests[..|tests| - 1], skip);
      StatusMeans(tests[|tests| - 1], RunAll(tests[..|tests| - 1], skip).1);
    }
  }

  /** The i-th status is that of test i under the flag the tests before it left. */
  lemma {:induction false} StatusAt(tests: seq<CMUnitTest>, skip: bool, i: nat)
    requires i < |tests|
    ensures RunAll(tests, skip).0[i] == RunOne(tests[i], RunAll(tests[..i], skip).1).status
  {
    var n := |tests| - 1;
    if i < n {
      StatusAt(tests[..n], skip, i);
      assert tests[..n][..i] == tests[..i];
    }
  }

  /** The flag goes from each test to the next, from its value on entry to the one the group leaves. */
  lemma {:induction false} FlagAt(tests: seq<CMUnitTest>, skip: bool, i: nat)
    requires i < |tests|
    ensures RunAll(tests[..0], skip).1 == skip
    ensures RunAll(tests[..i + 1], skip).1 == RunOne(tests[i], RunAll(tests[..i], skip).1).skip
    ensures RunAll(tests[..|tests|], skip) == RunAll(tests, skip)
  {
    assert tests[..i + 1][..i] == tests[..i] && tests[..|tests|] == tests;
  }

  /** While no fixture calls skip(), the flag stays down, so only a test that skips itself is called skipped. */
  lemma {:induction false} FlagStaysDown(tests: seq<CMUnitTest>)
    requires forall i :: 0 <= i < |tests| ==> tests[i].setup != Some(Skips) && tests[i].teardown != Some(Skips)
    ensures !RunAll(tests, false).1
    ensures forall i :: 0 <= i < |tests| && RunAll(tests, false).0[i] == Skipped ==> tests[i].body == Some(Skips)
  {
    if tests != [] {
      var n := |tests| - 1;
      FlagStaysDown(tests[..n]);
      StatusMeans(tests[n], false);
    }
  }

  predicate GoodFixtures(t: CMUnitTest) { Good(t.setup) && Good(t.teardown) }

  /** Index of the first test whose body fails or skips, or |tests|. */
  function FirstBad(tests: seq<CMUnitTest>): (k: nat)
    ensures k <= |tests| && (k < |tests| ==> !Good(tests[k].body))
    ensures forall i :: 0 <= i < k ==> Good(tests[i].body)
  {
    if tests == [] then 0
    else if !Good(tests[0].body) then 0
    else 1 + FirstBad(tests[1..])
  }

  /** With good fixtures the flag stays as it was until the first body that is not good, which takes it down. */
  lemma {:induction false} FlagAfter(tests: seq<CMUnitTest>, skip: bool)
    requires forall i :: 0 <= i < |tests| ==> GoodFixtures(tests[i])
    ensures RunAll(tests, skip).1 <==> skip && forall i :: 0 <= i < |tests| ==> Good(tests[i].body)
  {
    if tests != [] { FlagAfter(tests[..|tests| - 1], skip); }
  }

  /**
   Exactly when a group returns 0, in terms of its tests: the fixtures are good, and no body fails except
   that a flag already up on entry hides a failure in the first body that is not good.
   */
  lemma {:induction false} ZeroIff(tests: seq<CMUnitTest>, skip: bool)
    ensures var st := RunAll(tests, skip).0;
      Count(st, Failed) + Count(st, Error) == 0 <==>
      && (forall i :: 0 <= i < |tests| ==> GoodFixtures(tests[i]))
      && (forall i :: 0 <= i < |tests| && tests[i].body == Some(Fails) ==> skip && i == FirstBad(tests))
  {
    var st := RunAll(tests, skip).0;
    ResultIsZeroIff(tests, skip);
    forall i: nat | i < |tests|
      ensures st[i] == Error <==> !GoodFixtures(tests[i])
      ensures (forall k :: 0 <= k < |tests| ==> GoodFixtures(tests[k])) ==>
                (st[i] == Failed <==> tests[i].body == Some(Fails) && !(skip && i == FirstBad(tests)))
    {
      StatusAt(tests, skip, i);
      StatusMeans(tests[i], RunAll(tests[..i], skip).1);
      if forall k :: 0 <= k < |tests| ==> GoodFixtures(tests[k]) {
        FlagAfter(tests[..i], skip);
        assert forall k :: 0 <= k < i ==> tests[..i][k] == tests[k];
      }
    }
    NeverNotStarted(tests, skip);
  }

  /** The same for the int the group returns, as long as the counts fit one. */
  lemma {:induction false} ReturnsZeroIff(tests: seq<CMUnitTest>, groupSetup: Option<Step>, skip: bool)
    requires |tests| < 0x8000_0000
    ensures GroupCode(tests, groupSetup, skip) == 0 <==>
      && Good(groupSetup)
      && (forall i :: 0 <= i < |tests| ==> GoodFixtures(tests[i]))
      && (forall i :: 0 <= i < |tests| && tests[i].body == Some(Fails) ==> skip && i == FirstBad(tests))
  {
    var st := RunAll(tests, skip).0;
    var n := Count(st, Failed) + Count(st, Error);
    CountsAddUp(tests, skip);
    AsIntSmall(n);
    AsIntSmall(1);
    ZeroIff(tests, skip);
  }

  /**
   A result of 0 hides a failed body exactly when the flag was up on entry, as a skip() in an earlier
   fixture leaves it, and the first body that is not good fails rather than skips.
   */
  lemma {:induction false} HiddenFailureIff(tests: seq<CMUnitTest>, skip: bool)
    requires var st := RunAll(tests, skip).0; Count(st, Failed) + Count(st, Error) == 0
    ensures (exists i :: 0 <= i < |tests| && tests[i].body == Some(Fails)) <==>
            skip && var k := FirstBad(tests); k < |tests| && tests[k].body == Some(Fails)
  {
    ZeroIff(tests, skip);
  }

  /** An instance: a group whose only test plainly fails returns 0 when it is entered with the flag up. */
  lemma StaleFlagHidesFailure(t: CMUnitTest)
    requires GoodFixtures(t) && t.body == Some(Fails)
    ensures RunAll([t], true).0 == [Skipped] && RunAll([t], false).0 == [Failed]
  {
  }
}
