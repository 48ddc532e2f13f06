/**
 * The harness's `main`: discover the tests, run each one in its own engine
 * invocation, keep pass/fail counters and the results in execution order,
 * rank the results slowest first, and decide the exit status.
 *
 * The engine is a parameter: `engine(k, test)` is what the `k`-th
 * single-test invocation (counting from 0) captures for identifier `test`.
 * Console output is modelled by the data each printed line shows.
 */
module Harness {
  import opened Wrappers
  import opened Strings
  import opened Records
  import opened Discovery
  import opened SingleRun
  import opened Durations
  import opened Names
  import opened Ranking

  /** How many trailing output lines a failed test's progress entry shows. */
  const ErrorTailLines: nat := 10

  /**
   * What the progress line of one test shows: its position, the identifier
   * it names (through `Heading`), the verdict, the duration and, for a
   * failure, the tail of the captured output.
   */
  datatype Progress = Progress(
    index: nat, total: nat, test: string,
    success: bool, shown: Shown, errorTail: seq<string>)

  /** The entry for the test at position `k` (counting from 0) of `total`. */
  function ProgressOf(k: nat, total: nat, test: string, run: TestRun): Progress
  {
    Progress(k + 1, total, test, run.success, FormatDuration(run.duration),
             if run.success then [] else LastN(SplitLines(run.output), ErrorTailLines))
  }

  /**
   * A progress entry names its test and position, carries the verdict and
   * the bucketed duration, and for a failure shows exactly the last ten
   * lines of the captured output, in order (all of them when there are
   * no more than ten); a pass shows none.
   */
  lemma ProgressOfShows(k: nat, total: nat, test: string, run: TestRun)
    ensures var p := ProgressOf(k, total, test, run);
      && p.index == k + 1 && p.total == total && p.test == test && p.success == run.success
      && p.shown == FormatDuration(run.duration)
      && (run.success ==> p.errorTail == [])
      && (!run.success ==>
            var lines := SplitLines(run.output);
            && |p.errorTail| == (if |lines| <= ErrorTailLines then |lines| else ErrorTailLines)
            && IsSuffix(p.errorTail, lines))
  {
  }

  /** `{test_file}::{test_name}`, as the progress line prints it. */
  function Heading(p: Progress): string {
    TestFile(p.test) + "::" + TestName(p.test)
  }

  /**
   * The progress line of `<dir>/<file>::<name>()` is headed `<file>::<name>`
   * when neither name holds `/` or `:` and the test name does not end with a
   * parenthesis.
   */
  lemma HeadingOfIdentifier(p: Progress, dir: string, file: string, name: string)
    requires p.test == dir + "/" + file + "::" + name + "()"
    requires Avoids(file, {'/', ':'}) && Avoids(name, {'/', ':'})
    requires name == [] || name[|name| - 1] !in Parens
    ensures Heading(p) == file + "::" + name
  {
    TestFileOf(dir, file, name);
    TestNameOf(dir, file, name);
  }

  /** The number of results whose success flag is `success`. */
  function Count(results: seq<TestResult>, success: bool): nat
    decreases |results|
  {
    if |results| == 0 then 0
    else Count(results[..|results| - 1], success) + (if results[|results| - 1].success == success then 1 else 0)
  }

  /** Every result is either passed or failed. */
  lemma {:induction false} CountsAddUp(results: seq<TestResult>)
    ensures Count(results, true) + Count(results, false) == |results|
    decreases |results|
  {
    if results != [] {
      CountsAddUp(results[..|results| - 1]);
    }
  }

  /** No failed result means every result passed, and conversely. */
  lemma {:induction false} NoFailuresMeansAllPassed(results: seq<TestResult>)
    ensures Count(results, false) == 0 <==> forall k :: 0 <= k < |results| ==> results[k].success
    decreases |results|
  {
    if results != [] {
      var init := results[..|results| - 1];
      NoFailuresMeansAllPassed(init);
      assert forall k :: 0 <= k < |init| ==> init[k] == results[k];
    }
  }

  /**
   * Where the run of tests stopped: the position of the test whose result
   * could not be read, why, and the progress entries printed before it.
   */
  datatype Crash = Crash(index: nat, error: RunError, progress: seq<Progress>)

  /** The state `main` builds while running the tests. */
  datatype Tally = Tally(results: seq<TestResult>, passed: nat, failed: nat, progress: seq<Progress>)

  /** The result recorded for the `k`-th test, once its run has been read as `run`. */
  function Record(test: string, run: TestRun): TestResult
  {
    TestResult(test, run.success, run.duration)
  }

  /** Whether the first `i` runs could all be read. */
  predicate AllRead(tests: seq<string>, runTest: (nat, string) -> Result<TestRun, RunError>, i: nat)
    requires i <= |tests|
  {
    forall k :: 0 <= k < i ==> runTest(k, tests[k]).Ok?
  }

  /** The results of the first `i` tests, in execution order. */
  function ResultsSoFar(tests: seq<string>, runTest: (nat, string) -> Result<TestRun, RunError>, i: nat): (r: seq<TestResult>)
    requires i <= |tests| && AllRead(tests, runTest, i)
    ensures |r| == i
  {
    if i == 0 then []
    else ResultsSoFar(tests, runTest, i - 1) + [Record(tests[i - 1], runTest(i - 1, tests[i - 1]).value)]
  }

  /** The progress entries of the first `i` tests, in execution order. */
  function ProgressSoFar(tests: seq<string>, runTest: (nat, string) -> Result<TestRun, RunError>, i: nat): (r: seq<Progress>)
    requires i <= |tests| && AllRead(tests, runTest, i)
    ensures |r| == i
  {
    if i == 0 then []
    else ProgressSoFar(tests, runTest, i - 1) + [ProgressOf(i - 1, |tests|, tests[i - 1], runTest(i - 1, tests[i - 1]).value)]
  }

  /** The `k`-th recorded result is the `k`-th test's own. */
  lemma {:induction false} ResultsSoFarAt(tests: seq<string>, runTest: (nat, string) -> Result<TestRun, RunError>, i: nat)
    requires i <= |tests| && AllRead(tests, runTest, i)
    ensures forall k :: 0 <= k < i ==> ResultsSoFar(tests, runTest, i)[k] == Record(tests[k], runTest(k, tests[k]).value)
  {
    if i > 0 {
      ResultsSoFarAt(tests, runTest, i - 1);
      var prev := ResultsSoFar(tests, runTest, i - 1);
      var all := ResultsSoFar(tests, runTest, i);
      assert all == prev + [Record(tests[i - 1], runTest(i - 1, tests[i - 1]).value)];
      forall k | 0 <= k < i
        ensures all[k] == Record(tests[k], runTest(k, tests[k]).value)
      {
        if k < i - 1 {
          assert all[k] == prev[k];
        }
      }
    }
  }

  /** The `k`-th progress entry is the `k`-th test's own. */
  lemma {:induction false} ProgressSoFarAt(tests: seq<string>, runTest: (nat, string) -> Result<TestRun, RunError>, i: nat)
    requires i <= |tests| && AllRead(tests, runTest, i)
    ensures forall k :: 0 <= k < i ==>
      ProgressSoFar(tests, runTest, i)[k] == ProgressOf(k, |tests|, tests[k], runTest(k, tests[k]).value)
  {
    if i > 0 {
      ProgressSoFarAt(tests, runTest, i - 1);
      var prev := ProgressSoFar(tests, runTest, i - 1);
      var all := ProgressSoFar(tests, runTest, i);
      assert all == prev + [ProgressOf(i - 1, |tests|, tests[i - 1], runTest(i - 1, tests[i - 1]).value)];
      forall k | 0 <= k < i
        ensures all[k] == ProgressOf(k, |tests|, tests[k], runTest(k, tests[k]).value)
      {
        if k < i - 1 {
          assert all[k] == prev[k];
        }
      }
    }
  }

  /** Recording one more result adds one to the counter of its verdict. */
  lemma CountStep(results: seq<TestResult>, t: TestResult)
    ensures Count(results + [t], true) == Count(results, true) + (if t.success then 1 else 0)
    ensures Count(results + [t], false) == Count(results, false) + (if t.success then 0 else 1)
  {
    assert (results + [t])[..|results|] == results;
  }

  /** One more readable run extends the results and the progress by that run's entries. */
  lemma RunStep(tests: seq<string>, runTest: (nat, string) -> Result<TestRun, RunError>, i: nat)
    requires i < |tests| && AllRead(tests, runTest, i) && runTest(i, tests[i]).Ok?
    ensures AllRead(tests, runTest, i + 1)
    ensures ResultsSoFar(tests, runTest, i + 1)
      == ResultsSoFar(tests, runTest, i) + [Record(tests[i], runTest(i, tests[i]).value)]
    ensures ProgressSoFar(tests, runTest, i + 1)
      == ProgressSoFar(tests, runTest, i) + [ProgressOf(i, |tests|, tests[i], runTest(i, tests[i]).value)]
  {
  }

  /**
   * The loop of `main` over the discovered tests. `runTest(k, test)` is how
   * the `k`-th single-test invocation (counting from 0) reads, or why it
   * could not be read. A result that cannot be read stops the whole run,
   * after the progress entries of the tests before it; otherwise every test
   * gets exactly one result, in execution order, and the counters count
   * passes and failures.
   */
  method RunTests(tests: seq<string>, runTest: (nat, string) -> Result<TestRun, RunError>)
    returns (r: Result<Tally, Crash>)
    ensures r.Err? <==> !AllRead(tests, runTest, |tests|)
    ensures r.Err? ==> var c := r.error;
      && c.index < |tests|
      && runTest(c.index, tests[c.index]) == Err(c.error)
      && AllRead(tests, runTest, c.index)
      && c.progress == ProgressSoFar(tests, runTest, c.index)
    ensures r.Ok? ==> var t := r.value;
      && AllRead(tests, runTest, |tests|)
      && t.results == ResultsSoFar(tests, runTest, |tests|)
      && t.progress == ProgressSoFar(tests, runTest, |tests|)
      && t.passed == Count(t.results, true)
      && t.failed == Count(t.results, false)
      && t.passed + t.failed == |tests|
  {
    var results: seq<TestResult> := [];
    var progress: seq<Progress> := [];
    var passed, failed := 0, 0;
    var i := 0;
    while i < |tests|
      invariant i <= |tests| && AllRead(tests, runTest, i)
      invariant results == ResultsSoFar(tests, runTest, i)
      invariant progress == ProgressSoFar(tests, runTest, i)
      invariant passed == Count(results, true) && failed == Count(results, false)
    {
      var test := tests[i];
      var outcome := runTest(i, test);
      if outcome.Err? {
        return Err(Crash(i, outcome.error, progress));
      }
      var run := outcome.value;
      if run.success {
        passed := passed + 1;
      } else {
        failed := failed + 1;
      }
      var rec := Record(test, run);
      assert rec.success == run.success;
      CountStep(results, rec);
      RunStep(tests, runTest, i);
      results := results + [rec];
      progress := progress + [ProgressOf(i, |tests|, test, run)];
      i := i + 1;
    }
    CountsAddUp(results);
    return Ok(Tally(results, passed, failed, progress));
  }

  /**
   * `run_single_test` against the engine: the `k`-th invocation's captured
   * output, read by `Classify`.
   */
  function RunSingleTest(engine: (nat, string) -> ProcessResult, parse: string -> Option<real>)
    : (nat, string) -> Result<TestRun, RunError>
  {
    (k: nat, test: string) => Classify(engine(k, test), parse)
  }

  /** One line of the ranked report: rank (from 1), duration, verdict, path shown. */
  datatype ReportRow = ReportRow(rank: nat, shown: Shown, passed: bool, path: string)

  /** The report line for the result ranked `rank`. */
  function RowOf(rank: nat, t: TestResult): ReportRow {
    ReportRow(rank, FormatDuration(t.duration), t.success, DisplayPath(t.id))
  }

  /** The closing lines: test count, counters and the bucketed total time. */
  datatype Summary = Summary(total: nat, passed: nat, failed: nat, totalTime: Shown)

  /** How a run of the harness ends. */
  datatype Outcome =
    | CollectFailed(stderr: string)  // the listing failed: its stderr is shown
    | NoTests                        // the listing held no test identifier
    | Aborted(crash: Crash)          // a test's output could not be read
    | Reported(tally: Tally, ranked: seq<TestResult>, rows: seq<ReportRow>, summary: Summary)

  /** The process exit status: 0 only after a report with no failure. */
  function ExitCode(o: Outcome): int {
    if o.Reported? && o.summary.failed == 0 then 0 else 1
  }

  /**
   * With every run read, no result failed exactly when every single-test
   * invocation exited with status 0.
   */
  lemma NoFailureIffAllExitZero(tests: seq<string>, engine: (nat, string) -> ProcessResult,
                                parse: string -> Option<real>)
    requires AllRead(tests, RunSingleTest(engine, parse), |tests|)
    ensures Count(ResultsSoFar(tests, RunSingleTest(engine, parse), |tests|), false) == 0
        <==> forall k :: 0 <= k < |tests| ==> engine(k, tests[k]).returncode == 0
  {
    var runTest := RunSingleTest(engine, parse);
    var results := ResultsSoFar(tests, runTest, |tests|);
    ResultsSoFarAt(tests, runTest, |tests|);
    NoFailuresMeansAllPassed(results);
    forall k | 0 <= k < |tests|
      ensures results[k].success <==> engine(k, tests[k]).returncode == 0
    {
      assert runTest(k, tests[k]) == Classify(engine(k, tests[k]), parse);
    }
  }

  /** The table lines, one per result in ranked order, numbered from 1. */
  method ReportRows(ranked: seq<TestResult>) returns (rows: seq<ReportRow>)
    ensures |rows| == |ranked|
    ensures forall j :: 0 <= j < |rows| ==> rows[j] == RowOf(j + 1, ranked[j])
  {
    rows := [];
    var i := 0;
    while i < |ranked|
      invariant i <= |ranked| && |rows| == i
      invariant forall j :: 0 <= j < i ==> rows[j] == RowOf(j + 1, ranked[j])
    {
      rows := rows + [RowOf(i + 1, ranked[i])];
      i := i + 1;
    }
  }

  /**
   * The ranked table: the results sorted slowest first (ties keep execution
   * order), one numbered row each, and the total time, which the sum over
   * the ranked list gives the same as over execution order.
   */
  method Report(results: seq<TestResult>) returns (ranked: seq<TestResult>, rows: seq<ReportRow>, totalTime: Shown)
    ensures ranked == RankDesc(results)
    ensures |ranked| == |results| && |rows| == |results|
    ensures forall j :: 0 <= j < |rows| ==> rows[j] == RowOf(j + 1, ranked[j])
    ensures totalTime == FormatDuration(TotalDuration(results))
  {
    var a := new TestResult[|results|](k requires 0 <= k < |results| => results[k]);
    assert a[..] == results;
    SortByDurationDesc(a);
    ranked := a[..];
    RankDescPermutes(results);
    rows := ReportRows(ranked);
    RankDescTotal(results);
    totalTime := FormatDuration(TotalDuration(ranked));
  }

  /**
   * Three runs of 0.5 s (pass), 65.3 s (fail) and 2.0 s (pass) are ranked
   * 65.3, 2.0, 0.5; the counters read 2 passed and 1 failed; the total of
   * 67.8 s falls in the minutes bucket as 1 minute and 7.8 seconds.
   */
  lemma ReportExample()
    ensures var a := TestResult("tests/a.mojo::test_one()", true, 0.5);
      var b := TestResult("tests/b.mojo::test_two()", false, 65.3);
      var c := TestResult("tests/c.mojo::test_three()", true, 2.0);
      && RankDesc([a, b, c]) == [b, c, a]
      && Count([a, b, c], true) == 2 && Count([a, b, c], false) == 1
      && FormatDuration(TotalDuration([a, b, c])) == Minutes(1, 7.8)
  {
    var a := TestResult("tests/a.mojo::test_one()", true, 0.5);
    var b := TestResult("tests/b.mojo::test_two()", false, 65.3);
    var c := TestResult("tests/c.mojo::test_three()", true, 2.0);
    var ab, abc := [a, b], [a, b, c];
    assert abc[..2] == ab && ab[..1] == [a] && [a][..0] == [];
    assert RankDesc([a]) == Insert([], a) == [a];
    assert Insert([a], b) == Insert([], b) + [a] == [b, a];
    assert RankDesc(ab) == Insert(RankDesc([a]), b) == [b, a];
    assert [b, a][..1] == [b] && [b][..0] == [];
    assert Insert([b], c) == [b, c];
    assert Insert([b, a], c) == Insert([b], c) + [a] == [b, c, a];
    assert RankDesc(abc) == Insert(RankDesc(ab), c) == [b, c, a];
    assert Count([a], true) == 1 && Count([a], false) == 0;
    assert Count(ab, true) == 1 && Count(ab, false) == 1;
    assert Count(abc, true) == 2 && Count(abc, false) == 1;
    assert TotalDuration([a]) == 0.5 && TotalDuration(ab) == 65.8;
    assert TotalDuration(abc) == 67.8;
    assert FormatDuration(67.8) == Minutes(1, 7.8);
  }

  /**
   * What `main` ends with once the listing has produced `tests`: "no tests"
   * for an empty list; otherwise a stop at the first test whose output
   * cannot be read, after the progress entries of the tests before it; or,
   * with every output read, the tally, the ranked table and the summary.
   */
  predicate MainOutcome(tests: seq<string>, engine: (nat, string) -> ProcessResult,
                        parse: string -> Option<real>, o: Outcome)
  {
    var runTest := RunSingleTest(engine, parse);
    && !o.CollectFailed?
    && (o.NoTests? <==> tests == [])
    && (o.Aborted? <==> tests != [] && !AllRead(tests, runTest, |tests|))
    && (o.Aborted? ==>
          && o.crash.index < |tests|
          && Classify(engine(o.crash.index, tests[o.crash.index]), parse) == Err(o.crash.error)
          && AllRead(tests, runTest, o.crash.index)
          && o.crash.progress == ProgressSoFar(tests, runTest, o.crash.index))
    && (o.Reported? ==>
          && AllRead(tests, runTest, |tests|)
          && o.tally.results == ResultsSoFar(tests, runTest, |tests|)
          && o.tally.progress == ProgressSoFar(tests, runTest, |tests|)
          && o.ranked == RankDesc(o.tally.results)
          && |o.rows| == |o.ranked|
          && (forall j :: 0 <= j < |o.rows| ==> o.rows[j] == RowOf(j + 1, o.ranked[j]))
          && o.summary == Summary(|tests|, Count(o.tally.results, true), Count(o.tally.results, false),
                                  FormatDuration(TotalDuration(o.tally.results))))
  }

  /**
   * The exit status is 0 exactly when there were tests, every output could
   * be read and every single-test invocation exited with status 0.
   */
  lemma ExitStatus(tests: seq<string>, engine: (nat, string) -> ProcessResult,
                   parse: string -> Option<real>, o: Outcome)
    requires !o.CollectFailed? && (o.NoTests? <==> tests == [])
    requires o.Aborted? <==> tests != [] && !AllRead(tests, RunSingleTest(engine, parse), |tests|)
    requires o.Reported? ==>
      && AllRead(tests, RunSingleTest(engine, parse), |tests|)
      && o.summary.failed == Count(ResultsSoFar(tests, RunSingleTest(engine, parse), |tests|), false)
    ensures ExitCode(o) == 0 <==>
      && tests != []
      && AllRead(tests, RunSingleTest(engine, parse), |tests|)
      && forall k :: 0 <= k < |tests| ==> engine(k, tests[k]).returncode == 0
  {
    if o.Reported? {
      NoFailureIffAllExitZero(tests, engine, parse);
    }
  }

  /** `main` after a successful listing that produced `tests`. */
  method RunListed(tests: seq<string>, engine: (nat, string) -> ProcessResult,
                   parse: string -> Option<real>) returns (o: Outcome)
    ensures MainOutcome(tests, engine, parse, o)
  {
    if tests == [] {
      return NoTests;
    }
    var run := RunTests(tests, RunSingleTest(engine, parse));
    if run.Err? {
      return Aborted(run.error);
    }
    var tally := run.value;
    var ranked, rows, totalTime := Report(tally.results);
    o := Reported(tally, ranked, rows, Summary(|tests|, tally.passed, tally.failed, totalTime));
  }

  /**
   * `main`: collect the identifiers, run each test once in order, rank the
   * results slowest first, report, and pick the exit status.
   */
  method RunHarness(listing: ProcessResult, engine: (nat, string) -> ProcessResult,
                    parse: string -> Option<real>) returns (o: Outcome)
    ensures listing.returncode != 0 ==> o == CollectFailed(listing.stderr)
    ensures listing.returncode == 0 ==> MainOutcome(TestIds(SplitLines(listing.stdout)), engine, parse, o)
    ensures var tests := TestIds(SplitLines(listing.stdout));
      ExitCode(o) == 0 <==>
        && listing.returncode == 0 && tests != []
        && AllRead(tests, RunSingleTest(engine, parse), |tests|)
        && forall k :: 0 <= k < |tests| ==> engine(k, tests[k]).returncode == 0
  {
    var collected := GetAllTests(listing);
    if collected.CollectError? {
      return CollectFailed(collected.stderr);
    }
    o := RunListed(collected.tests, engine, parse);
    ExitStatus(collected.tests, engine, parse, o);
  }
}
