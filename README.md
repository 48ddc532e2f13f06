# Per-test timing harness, modelled in Dafny

`scripts/run_tests_with_timing.py` is a harness for the Mojo test engine. It works in four steps:

1. **Discovery.** It asks the engine to list the test suite (`--collect-only`) and keeps, from each line of that listing, the text matched by `tests/.*\.mojo::test_.*\(\)`.
2. **Running.** It runs every test in its own engine invocation. From the first line of that invocation's output it reads the duration, as the last space-separated field with its trailing `s` removed.
3. **Counting.** It counts passes and failures, and prints one progress line per test, with the tail of the output for a failure.
4. **Reporting.** It ranks the results slowest first with a stable sort, prints a table and a summary with the total time, and exits with status 0 only when nothing failed.

The model follows the script's own structure, one module per concern:

| file | module | what it holds |
|---|---|---|
| `wrappers.dfy` | `Wrappers` | `Option` and `Result` |
| `records.dfy` | `Records` | what one engine invocation returns (`ProcessResult`) and one entry of `results` (`TestResult`) |
| `strings.dfy` | `Strings` | the Python `str` operations the script relies on: `split`, `join`, `split(sep)[0]` and `[-1]`, `rstrip(chars)`, `removesuffix`, `splitlines`, `[-n:]` |
| `pattern.dfy` | `TestPattern` | the identifier pattern, with a matcher proved to return what `re.search` returns (leftmost start, greedy end) |
| `discovery.dfy` | `Discovery` | `get_all_tests`, as a method with a loop, plus its specification `TestIds` |
| `single_run.dfy` | `SingleRun` | lines 56-59 of `run_single_test`: duration token and classification |
| `durations.dfy` | `Durations` | `format_duration`'s choice of unit and the numbers it renders |
| `names.dfy` | `Names` | the test name, file name and report path derived from an identifier |
| `ranking.dfy` | `Ranking` | the stable descending sort: a functional specification `RankDesc`, its properties, and an in-place insertion sort on an array proved to compute it |
| `harness.dfy` | `Harness` | `main`: the loop over the tests, the report, and the exit status |

The engine is not modelled. Three things stand in for it:

- The listing run is a `ProcessResult` value.
- The single-test runs are a function `engine(k, test)`, giving what the `k`-th invocation (counting from 0) captures for `test`.
- Python's `float(...)` is a function `parse` that returns `None` where `float` would raise.

The script does not catch two errors, and both stop it:

- An invocation with empty standard output, where `splitlines()[0]` raises `IndexError`.
- A duration token that `float` rejects.

The model keeps this behaviour as the `Aborted` outcome, with exit status 1. Such a run is not counted as a failed test.

Two consequences of the code are easy to miss:

- **File extension.** The identifier pattern only accepts files ending in `.mojo`. A line such as `tests/a.ext::test_one()` yields no identifier.
- **Total time.** A total of 67.8 seconds falls in the minutes bucket and prints as `1m 7.8s`. `Harness.ReportExample` proves this.

## Model

| member | source | states |
|---|---|---|
| Strings.JoinSplit | scripts/run_tests_with_timing.py:127 | joining the pieces of `s.split(sep)` back with `sep` gives `s` again |
| Strings.SplitPiecesFree | scripts/run_tests_with_timing.py:127 | no piece of `s.split(sep)` contains `sep` |
| Strings.FirstPiece | scripts/run_tests_with_timing.py:93 | `s.split(sep)[0]` is a prefix of `s`, contains no `sep`, and is all of `s` or is followed by `sep` |
| Strings.LastPiece | scripts/run_tests_with_timing.py:92-93 | `s.split(sep)[-1]` is a suffix of `s`, contains no `sep`, and is all of `s` or is preceded by `sep`. For a separator that overlaps itself, such as `::`, this alone does not fix the piece; `Strings.LastPieceOfScan` does |
| Strings.SplitIsScan | scripts/run_tests_with_timing.py:92-93 | `s.split(sep)` is a left-to-right scan: each piece but the last runs up to the first occurrence of `sep` at or after its start, the scan resumes after that occurrence, and the last piece holds no occurrence |
| Strings.ScanUnique | scripts/run_tests_with_timing.py:92-93 | a text has only one such scan for a given separator, even one that overlaps itself |
| Strings.LastPieceOfScan | scripts/run_tests_with_timing.py:92-93 | `s.split(sep)[-1]` is the last piece of that scan |
| Strings.LastPieceOverlapping | scripts/run_tests_with_timing.py:92 | the last piece of `"a:::b".split("::")` is `":b"` |
| Strings.RStrip | scripts/run_tests_with_timing.py:92 | `rstrip(chars)` keeps a prefix that does not end in `chars` and drops only characters in `chars` |
| Names.RStripUnique | scripts/run_tests_with_timing.py:92 | exactly one prefix meets that description, so `rstrip` works on a character set and not on a suffix |
| Strings.SplitLines | scripts/run_tests_with_timing.py:31 | `splitlines()` gives no lines for empty text, lines without boundaries, and one line for text without a boundary |
| Strings.SplitLinesKeepEnds | scripts/run_tests_with_timing.py:31 | for every text, the lines of `splitlines()`, each followed by the boundary that ends it, spell the text. Every line but the last ends with a boundary (one boundary character, or `\r\n` as a single boundary). The last line ends with a boundary or is a non-empty rest of the text. A `\r` followed by `\n` is never cut into two boundaries with an empty line between them |
| Strings.JoinSplitLines | scripts/run_tests_with_timing.py:31 | for text whose only boundaries are `\n`, joining its lines with `\n` gives it back, without the final `\n` when the text ends with one; empty text has no lines |
| Strings.LastN | scripts/run_tests_with_timing.py:107 | for `n >= 1`, `lines[-n:]` holds the last `min(n, len(lines))` lines, in order |
| TestPattern.MatchEndIsLongest | scripts/run_tests_with_timing.py:33 | from a start position, the matcher returns the longest match, and returns none only when no match starts there |
| TestPattern.SearchFromIsLeftmostLongest | scripts/run_tests_with_timing.py:33 | the search returns the leftmost start of a match and the longest match from it, and returns none only when no match exists |
| TestPattern.TestIdInIsReSearch | scripts/run_tests_with_timing.py:33-35 | `re.search(...).group()` is none exactly when the line has no match; otherwise it is the substring of the leftmost, longest match |
| TestPattern.TestIdShape | scripts/run_tests_with_timing.py:33-35 | every extracted identifier starts with `tests/`, contains `.mojo::test_`, ends with `()` and holds no newline |
| TestPattern.WholeLineIsTestId | scripts/run_tests_with_timing.py:33-35 | a line that is a whole match is extracted unchanged |
| TestPattern.IdentifierLineIsTestId | scripts/run_tests_with_timing.py:33-35 | a line `tests/<path>.mojo::test_<name>()` is extracted unchanged |
| TestPattern.NoPrefixNoTestId | scripts/run_tests_with_timing.py:33-35 | a line that never contains `tests/` contributes nothing |
| Discovery.OriginsGiveTestIds | scripts/run_tests_with_timing.py:30-37 | each identifier is the match found in its own line |
| Discovery.OriginsIncrease | scripts/run_tests_with_timing.py:31-35 | identifiers come from strictly increasing line positions: line order is kept and no line gives two identifiers |
| Discovery.OriginsCoverMatches | scripts/run_tests_with_timing.py:31-35 | every line with a match contributes its identifier, so duplicates are kept |
| Discovery.TestIdsAppend | scripts/run_tests_with_timing.py:31-35 | discovery on two blocks of lines gives the identifiers of the first block followed by those of the second |
| Discovery.TestIdsAtMostOnePerLine | scripts/run_tests_with_timing.py:31-35 | there are never more identifiers than lines |
| Discovery.GetAllTests | scripts/run_tests_with_timing.py:24-37 | a failed listing yields its error stream; otherwise the loop collects exactly `TestIds` of the listing's lines |
| SingleRun.LastField | scripts/run_tests_with_timing.py:57 | `line.split(" ")[-1]` is a suffix without spaces that is the whole line or follows a space |
| SingleRun.DurationToken | scripts/run_tests_with_timing.py:57 | the token is the last field with at most one trailing `s` removed |
| SingleRun.LastFieldAfterSpace | scripts/run_tests_with_timing.py:57 | the last field of `prefix + " " + word` is `word` whenever `word` has no space |
| SingleRun.TokenOfStatusLine | scripts/run_tests_with_timing.py:57 | a first line `... <number>s` yields the token `<number>`, with only one `s` removed |
| SingleRun.Classify | scripts/run_tests_with_timing.py:56-61 | empty output is an error and so is an unreadable token; otherwise success is return code 0, the duration is the parsed token, and the output kept is stdout on success and stderr otherwise |
| Durations.FormatDuration | scripts/run_tests_with_timing.py:63-72 | below 1 s gives milliseconds, [1, 60) gives seconds and 60 or more gives minutes; in the minutes case `minutes * 60 + secs == seconds` with `0 <= secs < 60` and `minutes >= 1` |
| Names.TestName | scripts/run_tests_with_timing.py:92 | the test name is the last piece of `split("::")` with every trailing `(`/`)` removed |
| Names.TestNameOf | scripts/run_tests_with_timing.py:92 | for `<dir>/<file>::<name>()`, where neither `<file>` nor `<name>` holds `/` or `:` and `<name>` does not end in `(` or `)`, the test name is `<name>` |
| Names.TestFile | scripts/run_tests_with_timing.py:93 | the file name is the text after the last `/`, up to its first `::` |
| Names.TestFileOf | scripts/run_tests_with_timing.py:93 | for `<dir>/<file>::<name>()`, where neither `<file>` nor `<name>` holds `/` or `:`, the file name is `<file>`, whatever `<dir>` is |
| Harness.HeadingOfIdentifier | scripts/run_tests_with_timing.py:92-95 | the progress line for `<dir>/<file>::<name>()`, where neither `<file>` nor `<name>` holds `/` or `:` and `<name>` does not end in `(` or `)`, is headed `<file>::<name>` |
| Names.DisplayPathRemovesOccurrences | scripts/run_tests_with_timing.py:127 | the report path is the identifier with each occurrence of `tests/` that a left-to-right scan finds cut out |
| Names.DisplayPathOfTestsPrefix | scripts/run_tests_with_timing.py:127 | `tests/<rest>` is shown as `<rest>` when `<rest>` never contains `tests/` |
| Ranking.RankDescPermutes | scripts/run_tests_with_timing.py:113 | the ranking is a permutation of the results |
| Ranking.RankDescSorted | scripts/run_tests_with_timing.py:113 | the ranking is in non-increasing order of duration |
| Ranking.RankDescStable | scripts/run_tests_with_timing.py:113 | results of equal duration keep their execution order |
| Ranking.RankDescIsTheStableSort | scripts/run_tests_with_timing.py:113 | every descending order that keeps equal durations in execution order is the ranking |
| Ranking.SortedDescUnique | scripts/run_tests_with_timing.py:113 | two descending sequences that agree on each duration's results are equal |
| Ranking.RankDescTotal | scripts/run_tests_with_timing.py:133 | summing durations over the ranking gives the sum over the results in execution order |
| Ranking.SortByDurationDesc | scripts/run_tests_with_timing.py:113 | sorting the array in place leaves exactly `RankDesc` of its old contents |
| Ranking.InsertAt | scripts/run_tests_with_timing.py:113 | one insertion step puts the next result after every longer-or-equal one and leaves the rest of the array alone |
| Harness.ProgressOfShows | scripts/run_tests_with_timing.py:90-108 | a progress entry shows `i/len(tests)`, the verdict and the bucketed duration; for a failure it also shows the last 10 output lines exactly (all of them when there are fewer), in order |
| Harness.CountsAddUp | scripts/run_tests_with_timing.py:87-104 | every result is either passed or failed |
| Harness.ResultsSoFarAt | scripts/run_tests_with_timing.py:86-110 | before the sort, the `k`-th result is the `k`-th test's own |
| Harness.ProgressSoFarAt | scripts/run_tests_with_timing.py:90-108 | the `k`-th progress entry belongs to the `k`-th test |
| Harness.RunTests | scripts/run_tests_with_timing.py:86-110 | the loop stops at the first unreadable output; otherwise `len(results) == len(tests)`, results are in execution order, `passed`/`failed` count the verdicts and `passed + failed == len(tests)` |
| Harness.NoFailuresMeansAllPassed | scripts/run_tests_with_timing.py:135 | no failed result exactly when every result passed |
| Harness.NoFailureIffAllExitZero | scripts/run_tests_with_timing.py:135 | with every output read, `failed == 0` exactly when every invocation exited with status 0 |
| Harness.ReportRows | scripts/run_tests_with_timing.py:121-129 | one table row per ranked result, ranks `1..n`, with the bucketed duration, the verdict and the report path |
| Harness.Report | scripts/run_tests_with_timing.py:113-133 | the ranking is `RankDesc` of the results, there are as many rows as results, and the total time is the bucketed sum of all durations |
| Harness.ReportExample | scripts/run_tests_with_timing.py:113-133 | runs of 0.5 s (pass), 65.3 s (fail) and 2.0 s (pass) rank as 65.3, 2.0, 0.5, with 2 passed, 1 failed and a total of 1 min 7.8 s |
| Harness.ExitStatus | scripts/run_tests_with_timing.py:80-135 | after a successful listing the exit status is 0 exactly when there were tests, every output was read and every invocation exited with 0 |
| Harness.RunListed | scripts/run_tests_with_timing.py:80-135 | no tests is its own outcome; otherwise the run aborts at the first unreadable output or reports the tally, ranking, rows and summary |
| Harness.RunHarness | scripts/run_tests_with_timing.py:74-135 | a failed listing ends with its error stream; otherwise the outcome is the listed run's, and the exit status is 0 exactly when the listing succeeded, found tests, and every test was read and exited with 0 |

## Left out

- Process invocation (`subprocess.run`, lines 18-22 and 50-54). The listing is a given `ProcessResult`, and each single-test invocation is the injected `engine(k, test)`. The command lines themselves are not modelled.
- Console output, including the table padding and the ANSI colours. The model keeps the data each printed line shows (`Progress`, `ReportRow`, `Summary`, `Heading`), not the characters.
- `float(...)` is the injected `parse`. Durations are exact `real` numbers, not IEEE doubles.
- Durations.FormatDuration: the decimal rendering (`:.0f`, `:.2f`, `:.1f`) is not modelled. The model keeps the real number each format field receives.
- Ranking.RankDescTotal: it equates the two summation orders over exact reals. With doubles, summing in ranked order, as the script does, may round differently. `Harness.Report` states the total as the sum in execution order.
- `sys.exit` is modelled as the value `Harness.ExitCode`. An uncaught exception in `run_single_test` is the `Aborted` outcome with status 1, and the traceback is not modelled.
- General regular expressions are not modelled. `TestPattern` matches the one pattern the script uses, with `.` matching any character but `\n`.
- `tests_helper.py` and `tests/tests_helper.py` are not part of this model. They only wrap the standard `zipfile` library.
