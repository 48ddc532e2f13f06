/**
 * Test discovery (`get_all_tests`): the listing run of the test engine is
 * given as its captured result; a non-zero return code is fatal, otherwise
 * every line of its standard output contributes the identifier found in it,
 * if any.
 */
module Discovery {
  import opened Wrappers
  import opened Strings
  import opened TestPattern
  import opened Records

  /** The identifier a line contributes: none, or exactly one. */
  function Contribution(line: string): seq<string> {
    match TestIdIn(line)
    case Some(id) => [id]
    case None => []
  }

  /** The identifiers found in `lines`, in line order. */
  function TestIds(lines: seq<string>): seq<string>
    decreases |lines|
  {
    if |lines| == 0 then []
    else TestIds(lines[..|lines| - 1]) + Contribution(lines[|lines| - 1])
  }

  /** The indices of the lines that hold a match, in increasing order. */
  ghost function Origins(lines: seq<string>): seq<nat>
    decreases |lines|
  {
    if |lines| == 0 then []
    else
      var n := |lines| - 1;
      Origins(lines[..n]) + (if TestIdIn(lines[n]).Some? then [n] else [])
  }

  /** Each identifier is the match found in its origin line. */
  lemma {:induction false} OriginsGiveTestIds(lines: seq<string>)
    ensures |Origins(lines)| == |TestIds(lines)|
    ensures forall k :: 0 <= k < |Origins(lines)| ==>
      Origins(lines)[k] < |lines| && TestIdIn(lines[Origins(lines)[k]]) == Some(TestIds(lines)[k])
    decreases |lines|
  {
    if lines != [] {
      var n := |lines| - 1;
      var init := lines[..n];
      OriginsGiveTestIds(init);
      var o', ids' := Origins(init), TestIds(init);
      var o, ids := Origins(lines), TestIds(lines);
      assert o == o' + (if TestIdIn(lines[n]).Some? then [n] else []);
      assert ids == ids' + Contribution(lines[n]);
      forall k | 0 <= k < |o'|
        ensures o[k] < |lines| && TestIdIn(lines[o[k]]) == Some(ids[k])
      {
        assert o[k] == o'[k] && ids[k] == ids'[k];
        assert lines[o'[k]] == init[o'[k]];
      }
    }
  }

  /** Origins are strictly increasing: line order is kept and a line gives at most one identifier. */
  lemma {:induction false} OriginsIncrease(lines: seq<string>)
    ensures forall i :: 0 <= i < |Origins(lines)| ==> Origins(lines)[i] < |lines|
    ensures forall k, l :: 0 <= k < l < |Origins(lines)| ==> Origins(lines)[k] < Origins(lines)[l]
    decreases |lines|
  {
    if lines != [] {
      var n := |lines| - 1;
      OriginsIncrease(lines[..n]);
    }
  }

  /** Every line holding a match is an origin: no identifier is dropped, duplicates are kept. */
  lemma {:induction false} OriginsCoverMatches(lines: seq<string>)
    ensures forall i :: 0 <= i < |lines| && TestIdIn(lines[i]).Some? ==> i in Origins(lines)
    decreases |lines|
  {
    if lines != [] {
      var n := |lines| - 1;
      var init := lines[..n];
      OriginsCoverMatches(init);
      var o', o := Origins(init), Origins(lines);
      assert o == o' + (if TestIdIn(lines[n]).Some? then [n] else []);
      if TestIdIn(lines[n]).Some? {
        assert o[|o'|] == n;
      }
      forall i | 0 <= i < n && TestIdIn(lines[i]).Some?
        ensures i in o
      {
        assert lines[i] == init[i];
        var j :| 0 <= j < |o'| && o'[j] == i;
        assert o[j] == i;
      }
    }
  }

  /** Discovery is line-local: the identifiers of two blocks of lines are those of each, in order. */
  lemma {:induction false} TestIdsAppend(a: seq<string>, b: seq<string>)
    ensures TestIds(a + b) == TestIds(a) + TestIds(b)
    decreases |b|
  {
    if b == [] {
      assert a + b == a;
    } else {
      var b', ab, c := b[..|b| - 1], a + b, Contribution(b[|b| - 1]);
      assert ab[..|ab| - 1] == a + b' && ab[|ab| - 1] == b[|b| - 1];
      calc {
        TestIds(ab);
        TestIds(ab[..|ab| - 1]) + Contribution(ab[|ab| - 1]);
        TestIds(a + b') + c;
        { TestIdsAppend(a, b'); }
        (TestIds(a) + TestIds(b')) + c;
        TestIds(a) + (TestIds(b') + c);
        TestIds(a) + TestIds(b);
      }
    }
  }

  /** Each line contributes at most one identifier. */
  lemma {:induction false} TestIdsAtMostOnePerLine(lines: seq<string>)
    ensures |TestIds(lines)| <= |lines|
    decreases |lines|
  {
    if lines != [] {
      TestIdsAtMostOnePerLine(lines[..|lines| - 1]);
    }
  }

  /** The outcome of discovery: the identifiers, or the listing run's error stream. */
  datatype Collected = Collected(tests: seq<string>) | CollectError(stderr: string)

  /** `get_all_tests`: scan the listing output line by line, appending each line's match. */
  method GetAllTests(listing: ProcessResult) returns (r: Collected)
    ensures listing.returncode != 0 ==> r == CollectError(listing.stderr)
    ensures listing.returncode == 0 ==> r == Collected(TestIds(SplitLines(listing.stdout)))
  {
    if listing.returncode != 0 {
      return CollectError(listing.stderr);
    }
    var lines := SplitLines(listing.stdout);
    var tests: seq<string> := [];
    var i := 0;
    while i < |lines|
      invariant i <= |lines|
      invariant tests == TestIds(lines[..i])
    {
      var found := TestIdIn(lines[i]);
      if found.Some? {
        tests := tests + [found.value];
      }
      assert lines[..i + 1][..i] == lines[..i];
      i := i + 1;
    }
    assert lines[..|lines|] == lines;
    return Collected(tests);
  }
}
