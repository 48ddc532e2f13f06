/**
 * Ranking (`results.sort(key=lambda x: x[2], reverse=True)`): Python's sort
 * is stable, and with `reverse=True` it still keeps equal keys in their
 * original order. The specification is a stable insertion sort on
 * sequences, `RankDesc`; its properties are proved once as lemmas, and the
 * in-place sort on an array is proved to compute it.
 */
module Ranking {
  import opened Records

  predicate SortedDesc(s: seq<TestResult>) {
    forall i, j :: 0 <= i < j < |s| ==> s[i].duration >= s[j].duration
  }

  /** The results of `s` with duration `d`, in their order in `s`. */
  function WithDuration(s: seq<TestResult>, d: real): seq<TestResult>
    decreases |s|
  {
    if s == [] then []
    else WithDuration(s[..|s| - 1], d) + (if s[|s| - 1].duration == d then [s[|s| - 1]] else [])
  }

  /** Puts `x` after every element of `r` whose duration is at least `x`'s. */
  function Insert(r: seq<TestResult>, x: TestResult): seq<TestResult>
    decreases |r|
  {
    if r == [] then [x]
    else if r[|r| - 1].duration >= x.duration then r + [x]
    else Insert(r[..|r| - 1], x) + [r[|r| - 1]]
  }

  /** The stable descending sort of `s` by duration. */
  function RankDesc(s: seq<TestResult>): seq<TestResult>
    decreases |s|
  {
    if s == [] then [] else Insert(RankDesc(s[..|s| - 1]), s[|s| - 1])
  }

  /** `sum(r.duration for r in s)`, added left to right. */
  function TotalDuration(s: seq<TestResult>): real
    decreases |s|
  {
    if s == [] then 0.0 else TotalDuration(s[..|s| - 1]) + s[|s| - 1].duration
  }

  lemma {:induction false} InsertPermutes(r: seq<TestResult>, x: TestResult)
    ensures multiset(Insert(r, x)) == multiset(r) + multiset{x}
    decreases |r|
  {
    if r != [] && r[|r| - 1].duration < x.duration {
      var init := r[..|r| - 1];
      InsertPermutes(init, x);
      assert r == init + [r[|r| - 1]];
    }
  }

  lemma {:induction false} InsertSorted(r: seq<TestResult>, x: TestResult)
    requires SortedDesc(r)
    ensures SortedDesc(Insert(r, x))
    decreases |r|
  {
    if r != [] && r[|r| - 1].duration < x.duration {
      var init, last := r[..|r| - 1], r[|r| - 1];
      InsertSorted(init, x);
      InsertPermutes(init, x);
      var t := Insert(init, x);
      forall i | 0 <= i < |t|
        ensures t[i].duration >= last.duration
      {
        assert t[i] in multiset(t);
        if t[i] != x {
          assert t[i] in multiset(init);
          var j :| 0 <= j < |init| && init[j] == t[i];
          assert r[j] == init[j];
        }
      }
    }
  }

  lemma {:induction false} WithDurationAppend(a: seq<TestResult>, b: seq<TestResult>, d: real)
    ensures WithDuration(a + b, d) == WithDuration(a, d) + WithDuration(b, d)
    decreases |b|
  {
    if b == [] {
      assert a + b == a;
    } else {
      var b', z := b[..|b| - 1], b[|b| - 1];
      var tail := if z.duration == d then [z] else [];
      WithDurationAppend(a, b', d);
      assert (a + b)[..|a + b| - 1] == a + b' && (a + b)[|a + b| - 1] == z;
      assert WithDuration(a + b, d) == WithDuration(a + b', d) + tail;
      assert WithDuration(b, d) == WithDuration(b', d) + tail;
    }
  }

  lemma WithDurationSingle(x: TestResult, d: real)
    ensures WithDuration([x], d) == if x.duration == d then [x] else []
  {
    assert [x][..0] == [];
  }

  /** Inserting `x` puts it after every element of equal duration. */
  lemma {:induction false} InsertStable(r: seq<TestResult>, x: TestResult, d: real)
    ensures WithDuration(Insert(r, x), d) == WithDuration(r, d) + WithDuration([x], d)
    decreases |r|
  {
    if r == [] {
      WithDurationSingle(x, d);
    } else if r[|r| - 1].duration >= x.duration {
      WithDurationAppend(r, [x], d);
    } else {
      var init, last := r[..|r| - 1], r[|r| - 1];
      assert r == init + [last];
      assert Insert(r, x) == Insert(init, x) + [last];
      WithDurationSingle(x, d);
      WithDurationSingle(last, d);
      calc {
        WithDuration(Insert(r, x), d);
        == { WithDurationAppend(Insert(init, x), [last], d); }
        WithDuration(Insert(init, x), d) + WithDuration([last], d);
        == { InsertStable(init, x, d); }
        WithDuration(init, d) + WithDuration([x], d) + WithDuration([last], d);
        == // at most one of `x` and `last` has duration `d`
        WithDuration(init, d) + WithDuration([last], d) + WithDuration([x], d);
        == { WithDurationAppend(init, [last], d); }
        WithDuration(r, d) + WithDuration([x], d);
      }
    }
  }

  /** The ranking is a permutation of the results. */
  lemma {:induction false} RankDescPermutes(s: seq<TestResult>)
    ensures multiset(RankDesc(s)) == multiset(s)
    decreases |s|
  {
    if s != [] {
      var init := s[..|s| - 1];
      RankDescPermutes(init);
      InsertPermutes(RankDesc(init), s[|s| - 1]);
      assert s == init + [s[|s| - 1]];
    }
  }

  /** The ranking is in non-increasing order of duration. */
  lemma {:induction false} RankDescSorted(s: seq<TestResult>)
    ensures SortedDesc(RankDesc(s))
    decreases |s|
  {
    if s != [] {
      RankDescSorted(s[..|s| - 1]);
      InsertSorted(RankDesc(s[..|s| - 1]), s[|s| - 1]);
    }
  }

  /** The ranking is stable: results of equal duration keep their execution order. */
  lemma {:induction false} RankDescStable(s: seq<TestResult>, d: real)
    ensures WithDuration(RankDesc(s), d) == WithDuration(s, d)
    decreases |s|
  {
    if s != [] {
      var init := s[..|s| - 1];
      RankDescStable(init, d);
      InsertStable(RankDesc(init), s[|s| - 1], d);
      WithDurationAppend(init, [s[|s| - 1]], d);
      assert s == init + [s[|s| - 1]];
    }
  }

  lemma {:induction false} InsertTotal(r: seq<TestResult>, x: TestResult)
    ensures TotalDuration(Insert(r, x)) == TotalDuration(r) + x.duration
    decreases |r|
  {
    if r != [] && r[|r| - 1].duration < x.duration {
      var init := r[..|r| - 1];
      InsertTotal(init, x);
      var t := Insert(init, x) + [r[|r| - 1]];
      assert t[..|t| - 1] == Insert(init, x);
    } else if r != [] {
      assert (r + [x])[..|r|] == r;
    }
  }

  /** The total time summed over the ranking equals the sum over the results in execution order. */
  lemma {:induction false} RankDescTotal(s: seq<TestResult>)
    ensures TotalDuration(RankDesc(s)) == TotalDuration(s)
    decreases |s|
  {
    if s != [] {
      RankDescTotal(s[..|s| - 1]);
      InsertTotal(RankDesc(s[..|s| - 1]), s[|s| - 1]);
    }
  }

  lemma {:induction false} WithDurationMembers(s: seq<TestResult>, d: real, x: TestResult)
    ensures x in WithDuration(s, d) <==> x in s && x.duration == d
    decreases |s|
  {
    if s != [] {
      var init := s[..|s| - 1];
      WithDurationMembers(init, d, x);
      assert s == init + [s[|s| - 1]];
    }
  }

  /** A sequence with no result of any duration is empty. */
  lemma NoDurationsEmpty(c: seq<TestResult>)
    requires forall d :: WithDuration(c, d) == []
    ensures c == []
  {
    if c != [] {
      var z := c[|c| - 1];
      WithDurationMembers(c, z.duration, z);
      assert false;
    }
  }

  /** Two non-empty descending sequences that agree on every duration end alike. */
  lemma SortedDescSameLast(a: seq<TestResult>, x: TestResult, b: seq<TestResult>, y: TestResult)
    requires SortedDesc(a + [x]) && SortedDesc(b + [y])
    requires forall d :: WithDuration(a + [x], d) == WithDuration(b + [y], d)
    ensures x == y
    ensures forall e :: WithDuration(a, e) == WithDuration(b, e)
  {
    var a1, b1 := a + [x], b + [y];
    assert a1[..|a1| - 1] == a && b1[..|b1| - 1] == b;
    WithDurationMembers(b1, x.duration, x);
    WithDurationMembers(a1, y.duration, y);
    assert x in WithDuration(a1, x.duration) && y in WithDuration(b1, y.duration);
    var i :| 0 <= i < |b1| && b1[i] == x;
    var j :| 0 <= j < |a1| && a1[j] == y;
    var d := x.duration;
    assert y.duration == d;
    var wa, wb := WithDuration(a, d), WithDuration(b, d);
    assert wa + [x] == WithDuration(a1, d) == WithDuration(b1, d) == wb + [y];
    assert x == (wa + [x])[|wa|] && y == (wb + [y])[|wb|];
    forall e
      ensures WithDuration(a, e) == WithDuration(b, e)
    {
      if e == d {
        assert wa == (wa + [x])[..|wa|] && wb == (wb + [y])[..|wb|];
      } else {
        assert WithDuration(a1, e) == WithDuration(a, e);
        assert WithDuration(b1, e) == WithDuration(b, e);
      }
    }
  }

  /**
   * A sorted sequence is determined by its per-duration subsequences: two
   * descending sequences that agree on every `WithDuration` are equal.
   */
  lemma {:induction false} SortedDescUnique(a: seq<TestResult>, b: seq<TestResult>)
    requires SortedDesc(a) && SortedDesc(b)
    requires forall d :: WithDuration(a, d) == WithDuration(b, d)
    ensures a == b
    decreases |a| + |b|
  {
    if a == [] {
      NoDurationsEmpty(b);
    } else if b == [] {
      NoDurationsEmpty(a);
    } else {
      var a', b' := a[..|a| - 1], b[..|b| - 1];
      assert a == a' + [a[|a| - 1]] && b == b' + [b[|b| - 1]];
      SortedDescSameLast(a', a[|a| - 1], b', b[|b| - 1]);
      SortedDescUnique(a', b');
    }
  }

  /** `RankDesc(s)` is the one descending order of `s` that keeps equal durations in order. */
  lemma RankDescIsTheStableSort(s: seq<TestResult>, t: seq<TestResult>)
    requires SortedDesc(t)
    requires forall d :: WithDuration(t, d) == WithDuration(s, d)
    ensures t == RankDesc(s)
  {
    RankDescSorted(s);
    forall d
      ensures WithDuration(t, d) == WithDuration(RankDesc(s), d)
    {
      RankDescStable(s, d);
    }
    SortedDescUnique(t, RankDesc(s));
  }

  /**
   * `results.sort(key=duration, reverse=True)` on the list in place: an
   * insertion sort.
   */
  method SortByDurationDesc(a: array<TestResult>)
    modifies a
    ensures a[..] == RankDesc(old(a[..]))
  {
    ghost var input := a[..];
    var i := 0;
    while i < a.Length
      invariant 0 <= i <= a.Length
      invariant a[..i] == RankDesc(input[..i])
      invariant a[i..] == input[i..]
    {
      assert a[i] == input[i];
      InsertAt(a, i);
      assert input[..i + 1][..i] == input[..i];
      assert RankDesc(input[..i + 1]) == Insert(RankDesc(input[..i]), input[i]);
      assert a[i + 1..] == input[i + 1..];
      i := i + 1;
    }
    assert a[..] == a[..a.Length] && input[..a.Length] == input;
  }

  /** Moves `a[i]` into the sorted prefix `a[..i]`, shifting the shorter results right. */
  method InsertAt(a: array<TestResult>, i: nat)
    requires i < a.Length
    modifies a
    ensures a[..i + 1] == Insert(old(a[..i]), old(a[i]))
    ensures a[i + 1..] == old(a[i + 1..])
  {
    var x := a[i];
    ghost var done := a[..i];
    var j := i;
    while j > 0 && a[j - 1].duration < x.duration
      invariant 0 <= j <= i
      invariant forall k :: 0 <= k < j ==> a[k] == done[k]
      invariant forall k :: j < k <= i ==> a[k] == done[k - 1]
      invariant forall k :: j <= k < i ==> done[k].duration < x.duration
      invariant a[i + 1..] == old(a[i + 1..])
    {
      a[j] := a[j - 1];
      j := j - 1;
    }
    a[j] := x;
    InsertAtGap(done, j, x);
    ghost var spliced := done[..j] + [x] + done[j..];
    assert |spliced| == i + 1;
    forall k | 0 <= k <= i
      ensures a[k] == spliced[k]
    {
      if k < j {
        assert spliced[k] == done[k];
      } else if k > j {
        assert spliced[k] == done[k - 1];
      }
    }
    assert a[..i + 1] == spliced;
  }

  /**
   * `Insert` places `x` right after the last result at least as long as it:
   * at the gap `j` that the insertion loop stops at.
   */
  lemma {:induction false} InsertAtGap(r: seq<TestResult>, j: nat, x: TestResult)
    requires j <= |r| && (j == 0 || r[j - 1].duration >= x.duration)
    requires forall k :: j <= k < |r| ==> r[k].duration < x.duration
    ensures Insert(r, x) == r[..j] + [x] + r[j..]
    decreases |r|
  {
    if j < |r| {
      var init := r[..|r| - 1];
      InsertAtGap(init, j, x);
      assert init[..j] == r[..j] && init[j..] + [r[|r| - 1]] == r[j..];
    }
  }
}
