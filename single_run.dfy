/**
 * What `run_single_test` does with the engine's captured result once the
 * subprocess has returned: take the first line of standard output, read the
 * duration from its last space-separated field, and classify the run.
 *
 * Python's `float(...)` is not modelled; it is passed in as `parse`, which
 * returns `None` where `float` would raise.
 */
module SingleRun {
  import opened Wrappers
  import opened Strings
  import opened Records

  /** Why reading a run's result aborts the harness (an uncaught exception in the source). */
  datatype RunError =
    | NoFirstLine                 // `splitlines()[0]` on empty output: IndexError
    | BadDuration(token: string)  // `float(token)` fails: ValueError

  /** `(success, duration, output)` as `run_single_test` returns it. */
  datatype TestRun = TestRun(success: bool, duration: real, output: string)

  /**
   * `line.split(" ")[-1]`: the text after the last space of the line, or the
   * whole line when it has no space.
   */
  function LastField(line: string): (f: string)
    ensures IsSuffix(f, line)
    ensures forall k :: 0 <= k < |f| ==> f[k] != ' '
    ensures f == line || line[|line| - |f| - 1] == ' '
  {
    var f := LastPiece(line, " ");
    assert forall k :: 0 <= k < |f| ==> f[k] != ' ' by {
      forall k | 0 <= k < |f|
        ensures f[k] != ' '
      {
        AtChars(f, k, " ");
      }
    }
    assert f == line || line[|line| - |f| - 1] == ' ' by {
      if f != line {
        AtChars(line, |line| - |f| - 1, " ");
        assert line[|line| - |f| - 1 + 0] == " "[0];
      }
    }
    f
  }

  /** The duration token: the last field of the line with at most one trailing `s` removed. */
  function DurationToken(line: string): (t: string)
    ensures var f := LastField(line);
      if |f| > 0 && f[|f| - 1] == 's' then t == f[..|f| - 1] else t == f
  {
    var f := LastField(line);
    assert IsSuffix("s", f) <==> |f| > 0 && f[|f| - 1] == 's' by {
      if |f| > 0 {
        assert f[|f| - 1..] == [f[|f| - 1]];
      }
    }
    RemoveSuffix(f, "s")
  }

  /**
   * Lines 56-59 of `run_single_test`: the first output line must exist and
   * its duration token must parse; success is a zero return code; the output
   * kept is standard output on success and standard error otherwise.
   */
  function Classify(run: ProcessResult, parse: string -> Option<real>): (r: Result<TestRun, RunError>)
    ensures r == Err(NoFirstLine) <==> run.stdout == []
    ensures r.Err? && r.error.BadDuration? <==>
      run.stdout != [] && parse(DurationToken(SplitLines(run.stdout)[0])).None?
    ensures r.Err? && r.error.BadDuration? ==> r.error.token == DurationToken(SplitLines(run.stdout)[0])
    ensures r.Ok? ==> && run.stdout != []
                      && parse(DurationToken(SplitLines(run.stdout)[0])) == Some(r.value.duration)
                      && (r.value.success <==> run.returncode == 0)
                      && r.value.output == (if run.returncode == 0 then run.stdout else run.stderr)
  {
    var lines := SplitLines(run.stdout);
    if lines == [] then Err(NoFirstLine)
    else
      var token := DurationToken(lines[0]);
      match parse(token)
      case None => Err(BadDuration(token))
      case Some(duration) =>
        var success := run.returncode == 0;
        Ok(TestRun(success, duration, if success then run.stdout else run.stderr))
  }

  /** A line whose text after its last space is `word` has `word` as its last field. */
  lemma LastFieldAfterSpace(prefix: string, word: string)
    requires forall k :: 0 <= k < |word| ==> word[k] != ' '
    ensures LastField(prefix + " " + word) == word
  {
    var line := prefix + " " + word;
    assert line[|line| - |word|..] == word;
    assert line[|line| - |word| - 1] == ' ';
    CharFreeSuffixesAgree(line, LastField(line), word, ' ');
  }

  /**
   * A first line `... <number>s` yields the token `<number>`: only the one
   * `s` the engine appends is removed, whatever `<number>` ends with.
   */
  lemma TokenOfStatusLine(prefix: string, number: string)
    requires forall k :: 0 <= k < |number| ==> number[k] != ' '
    ensures DurationToken(prefix + " " + number + "s") == number
  {
    var word := number + "s";
    assert forall k :: 0 <= k < |word| ==> word[k] != ' ' by {
      forall k | 0 <= k < |word|
        ensures word[k] != ' '
      {
        if k < |number| {
          assert word[k] == number[k];
        }
      }
    }
    LastFieldAfterSpace(prefix, word);
    assert prefix + " " + number + "s" == prefix + " " + word;
    assert word[..|word| - 1] == number;
  }
}
