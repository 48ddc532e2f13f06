/**
 * The Python `str` operations the harness relies on, with Python's own
 * semantics: `split(sep)` (left to right, non-overlapping), `sep.join`,
 * `rstrip(chars)` (a character set, not a suffix), `removesuffix`,
 * `splitlines()` and list slicing `[-n:]`.
 */
module Strings {
  import opened Wrappers

  /** `w` occurs in `s` starting at index `i`, compared character by character. */
  predicate At(s: string, i: nat, w: string) {
    i + |w| <= |s| && AgreesFrom(s, i, w, 0)
  }

  /** With `w` placed at `i`, `s` agrees with `w` at every offset from `t` on. */
  predicate AgreesFrom(s: string, i: nat, w: string, t: nat)
    requires i + |w| <= |s|
    decreases |w| - t
  {
    t >= |w| || (s[i + t] == w[t] && AgreesFrom(s, i, w, t + 1))
  }

  lemma {:induction false} AgreesFromChars(s: string, i: nat, w: string, t: nat)
    requires i + |w| <= |s|
    ensures AgreesFrom(s, i, w, t) <==> forall u :: t <= u < |w| ==> s[i + u] == w[u]
    decreases |w| - t
  {
    if t < |w| {
      AgreesFromChars(s, i, w, t + 1);
    }
  }

  /** An occurrence is a character-wise agreement, and equally a slice equal to `w`. */
  lemma AtChars(s: string, i: nat, w: string)
    ensures At(s, i, w) <==> i + |w| <= |s| && forall u :: 0 <= u < |w| ==> s[i + u] == w[u]
    ensures At(s, i, w) <==> i + |w| <= |s| && s[i..i + |w|] == w
  {
    if i + |w| <= |s| {
      AgreesFromChars(s, i, w, 0);
      if forall u :: 0 <= u < |w| ==> s[i + u] == w[u] {
        assert s[i..i + |w|] == w;
      }
      if s[i..i + |w|] == w {
        forall u | 0 <= u < |w|
          ensures s[i + u] == w[u]
        {
          assert s[i..i + |w|][u] == s[i + u];
        }
      }
    }
  }

  /** `w` occurs nowhere in `s`. */
  predicate Free(s: string, w: string) {
    forall k: nat :: k <= |s| ==> !At(s, k, w)
  }

  /** `r` is a suffix of `s`. */
  predicate IsSuffix<T(==)>(r: seq<T>, s: seq<T>) {
    |r| <= |s| && s[|s| - |r|..] == r
  }

  /** No character of `s` is in `cs`. */
  predicate Avoids(s: string, cs: set<char>) {
    forall k :: 0 <= k < |s| ==> s[k] !in cs
  }

  /** The leftmost occurrence of `w` at or after `i` that ends by `lim` (`str.find`). */
  function FirstAt(s: string, w: string, i: nat, lim: nat): (r: Option<nat>)
    requires |w| > 0 && lim <= |s|
    ensures r.Some? ==> i <= r.value && r.value + |w| <= lim && At(s, r.value, w)
    ensures r.Some? ==> forall k: nat :: i <= k < r.value ==> !At(s, k, w)
    ensures r.None? ==> forall k: nat :: i <= k && k + |w| <= lim ==> !At(s, k, w)
    decreases lim - i
  {
    if i + |w| > lim then None
    else if At(s, i, w) then Some(i)
    else FirstAt(s, w, i + 1, lim)
  }

  /** The rightmost occurrence of `w` at or after `lo` that ends by `hi`. */
  function LastAt(s: string, w: string, lo: nat, hi: nat): (r: Option<nat>)
    requires |w| > 0 && hi <= |s|
    ensures r.Some? ==> lo <= r.value && r.value + |w| <= hi && At(s, r.value, w)
    ensures r.Some? ==> forall k: nat :: r.value < k && k + |w| <= hi ==> !At(s, k, w)
    ensures r.None? ==> forall k: nat :: lo <= k && k + |w| <= hi ==> !At(s, k, w)
    decreases hi
  {
    if hi < lo + |w| then None
    else if At(s, hi - |w|, w) then Some(hi - |w|)
    else LastAt(s, w, lo, hi - 1)
  }

  /** An occurrence inside a slice is an occurrence in the whole string, within the slice's bounds. */
  lemma AtWithin(s: string, a: nat, b: nat, j: nat, w: string)
    requires a <= b <= |s| && At(s[a..b], j, w)
    ensures a + j + |w| <= b && At(s, a + j, w)
  {
    AtChars(s[a..b], j, w);
    AtChars(s, a + j, w);
    forall u | 0 <= u < |w|
      ensures s[a + j + u] == w[u]
    {
      assert s[a..b][j + u] == w[u];
    }
  }

  /** An occurrence that lies inside `[p, e)` is an occurrence in the slice `s[p..e]`. */
  lemma AtSlice(s: string, p: nat, e: nat, q: nat, w: string)
    requires p <= q && q + |w| <= e <= |s| && At(s, q, w)
    ensures At(s[p..e], q - p, w)
  {
    AtChars(s, q, w);
    AtChars(s[p..e], q - p, w);
    forall u | 0 <= u < |w|
      ensures s[p..e][q - p + u] == w[u]
    {
      assert s[p..e][q - p + u] == s[q + u];
    }
  }

  /** Python's `s[i:].split(sep)` for a non-empty separator, scanning `s` from `i`. */
  function SplitFrom(s: string, sep: string, i: nat): (r: seq<string>)
    requires |sep| > 0 && i <= |s|
    ensures |r| >= 1
    decreases |s| - i
  {
    match FirstAt(s, sep, i, |s|)
    case None => [s[i..]]
    case Some(k) => [s[i..k]] + SplitFrom(s, sep, k + |sep|)
  }

  /** Python's `s.split(sep)` for a non-empty separator. */
  function Split(s: string, sep: string): (r: seq<string>)
    requires |sep| > 0
    ensures |r| >= 1
  {
    SplitFrom(s, sep, 0)
  }

  /** Python's `sep.join(parts)`. */
  function Join(parts: seq<string>, sep: string): string
    requires |parts| >= 1
  {
    if |parts| == 1 then parts[0] else parts[0] + sep + Join(parts[1..], sep)
  }

  lemma {:induction false} JoinSplitFrom(s: string, sep: string, i: nat)
    requires |sep| > 0 && i <= |s|
    ensures Join(SplitFrom(s, sep, i), sep) == s[i..]
    decreases |s| - i
  {
    match FirstAt(s, sep, i, |s|)
    case None =>
    case Some(k) =>
      var m := k + |sep|;
      JoinSplitFrom(s, sep, m);
      AtChars(s, k, sep);
      var parts := SplitFrom(s, sep, i);
      assert parts == [s[i..k]] + SplitFrom(s, sep, m);
      assert parts[1..] == SplitFrom(s, sep, m);
      assert s[i..] == s[i..k] + s[k..m] + s[m..];
  }

  /** Joining the pieces of a split with the same separator gives back the input. */
  lemma JoinSplit(s: string, sep: string)
    requires |sep| > 0
    ensures Join(Split(s, sep), sep) == s
  {
    JoinSplitFrom(s, sep, 0);
    assert s[0..] == s;
  }

  lemma {:induction false} SplitFromPiecesFree(s: string, sep: string, i: nat)
    requires |sep| > 0 && i <= |s|
    ensures forall n :: 0 <= n < |SplitFrom(s, sep, i)| ==> Free(SplitFrom(s, sep, i)[n], sep)
    decreases |s| - i
  {
    var parts := SplitFrom(s, sep, i);
    match FirstAt(s, sep, i, |s|)
    case None =>
      assert s[i..] == s[i..|s|];
      forall j: nat | At(s[i..], j, sep)
        ensures false
      {
        AtWithin(s, i, |s|, j, sep);
      }
      assert parts == [s[i..]];
    case Some(k) =>
      var m := k + |sep|;
      SplitFromPiecesFree(s, sep, m);
      assert parts == [s[i..k]] + SplitFrom(s, sep, m);
      forall j: nat | At(s[i..k], j, sep)
        ensures false
      {
        AtWithin(s, i, k, j, sep);
      }
      forall n | 0 <= n < |parts|
        ensures Free(parts[n], sep)
      {
        if n > 0 {
          assert parts[n] == SplitFrom(s, sep, m)[n - 1];
        }
      }
  }

  /** No piece of a split contains the separator. */
  lemma SplitPiecesFree(s: string, sep: string)
    requires |sep| > 0
    ensures forall i :: 0 <= i < |Split(s, sep)| ==> Free(Split(s, sep)[i], sep)
  {
    SplitFromPiecesFree(s, sep, 0);
  }

  /**
   * `parts` are the pieces of a left-to-right scan of `s[i..]` for `sep`:
   * each piece but the last runs from where the scan stands up to the first
   * occurrence of `sep` at or after that point, and the scan resumes right
   * after that occurrence; the last piece is the rest of `s`, and holds no
   * occurrence.
   */
  predicate IsScan(s: string, sep: string, i: nat, parts: seq<string>)
    requires |sep| > 0 && i <= |s|
    decreases |parts|
  {
    && |parts| >= 1
    && var k := i + |parts[0]|;
    && k <= |s| && s[i..k] == parts[0]
    && if |parts| == 1 then
         && k == |s|
         && forall q: nat :: i <= q && q + |sep| <= |s| ==> !At(s, q, sep)
       else
         && k + |sep| <= |s| && At(s, k, sep)
         && (forall q: nat :: i <= q < k ==> !At(s, q, sep))
         && IsScan(s, sep, k + |sep|, parts[1..])
  }

  /** `SplitFrom` is that scan. */
  lemma {:induction false} SplitFromIsScan(s: string, sep: string, i: nat)
    requires |sep| > 0 && i <= |s|
    ensures IsScan(s, sep, i, SplitFrom(s, sep, i))
    decreases |s| - i
  {
    var parts := SplitFrom(s, sep, i);
    match FirstAt(s, sep, i, |s|)
    case None =>
      assert parts == [s[i..]];
    case Some(k) =>
      var m := k + |sep|;
      SplitFromIsScan(s, sep, m);
      assert parts == [s[i..k]] + SplitFrom(s, sep, m);
      assert parts[1..] == SplitFrom(s, sep, m);
  }

  /** Python's `s.split(sep)` is the left-to-right scan of `s` for `sep`. */
  lemma SplitIsScan(s: string, sep: string)
    requires |sep| > 0
    ensures IsScan(s, sep, 0, Split(s, sep))
  {
    SplitFromIsScan(s, sep, 0);
  }

  /** A text has one left-to-right scan for a separator, even one that overlaps itself. */
  lemma {:induction false} ScanUnique(s: string, sep: string, i: nat, p: seq<string>, q: seq<string>)
    requires |sep| > 0 && i <= |s|
    requires IsScan(s, sep, i, p) && IsScan(s, sep, i, q)
    ensures p == q
    decreases |p|
  {
    var kp, kq := i + |p[0]|, i + |q[0]|;
    if |p| > 1 && |q| > 1 {
      assert kp == kq by {
        assert !(kp < kq) && !(kq < kp);
      }
      ScanUnique(s, sep, kp + |sep|, p[1..], q[1..]);
      assert p == [p[0]] + p[1..] && q == [q[0]] + q[1..];
    } else {
      assert |p| == 1 && |q| == 1;
    }
  }

  /**
   * Python's `s.split(sep)[0]`: the text before the first occurrence of `sep`,
   * or all of `s` when there is none.
   */
  function FirstPiece(s: string, sep: string): (r: string)
    requires |sep| > 0
    ensures |r| <= |s| && r == s[..|r|]
    ensures forall k: nat :: k < |r| ==> !At(s, k, sep)
    ensures r == s || At(s, |r|, sep)
  {
    assert s[0..] == s;
    Split(s, sep)[0]
  }

  /** Where the last piece of `SplitFrom(s, sep, i)` starts. */
  function LastStart(s: string, sep: string, i: nat): (j: nat)
    requires |sep| > 0 && i <= |s|
    ensures i <= j <= |s|
    decreases |s| - i
  {
    match FirstAt(s, sep, i, |s|)
    case None => i
    case Some(k) => LastStart(s, sep, k + |sep|)
  }

  lemma LastStartStep(s: string, sep: string, i: nat, k: nat)
    requires |sep| > 0 && i <= |s| && FirstAt(s, sep, i, |s|) == Some(k)
    ensures k + |sep| <= |s| && At(s, k, sep)
    ensures LastStart(s, sep, i) == LastStart(s, sep, k + |sep|)
  {
  }

  /** The last piece starts where the scan started or right after an occurrence of the separator. */
  lemma {:induction false} LastStartAfterSep(s: string, sep: string, i: nat)
    requires |sep| > 0 && i <= |s|
    ensures var j := LastStart(s, sep, i); j == i || (i + |sep| <= j && At(s, j - |sep|, sep))
    decreases |s| - i
  {
    match FirstAt(s, sep, i, |s|)
    case None =>
    case Some(k) =>
      LastStartStep(s, sep, i, k);
      LastStartAfterSep(s, sep, k + |sep|);
  }

  lemma {:induction false} LastStartIsLastPiece(s: string, sep: string, i: nat)
    requires |sep| > 0 && i <= |s|
    ensures var parts := SplitFrom(s, sep, i); parts[|parts| - 1] == s[LastStart(s, sep, i)..]
    decreases |s| - i
  {
    match FirstAt(s, sep, i, |s|)
    case None =>
    case Some(k) =>
      var m := k + |sep|;
      LastStartIsLastPiece(s, sep, m);
      assert SplitFrom(s, sep, i) == [s[i..k]] + SplitFrom(s, sep, m);
  }

  lemma {:induction false} LastStartFree(s: string, sep: string, i: nat)
    requires |sep| > 0 && i <= |s|
    ensures forall k: nat :: LastStart(s, sep, i) <= k && k + |sep| <= |s| ==> !At(s, k, sep)
    decreases |s| - i
  {
    match FirstAt(s, sep, i, |s|)
    case None =>
    case Some(k) =>
      LastStartFree(s, sep, k + |sep|);
  }

  /**
   * Python's `s.split(sep)[-1]`: a suffix of `s` free of `sep` that is either
   * all of `s` or directly preceded by `sep`. For a separator that overlaps
   * itself several suffixes fit that description; `LastPieceOfScan` says
   * which one this is.
   */
  function LastPiece(s: string, sep: string): (r: string)
    requires |sep| > 0
    ensures IsSuffix(r, s) && Free(r, sep)
    ensures r == s || (|r| + |sep| <= |s| && At(s, |s| - |r| - |sep|, sep))
  {
    LastStartAfterSep(s, sep, 0);
    LastStartIsLastPiece(s, sep, 0);
    LastStartFree(s, sep, 0);
    var j := LastStart(s, sep, 0);
    assert s[j..] == s[j..|s|];
    forall k: nat | At(s[j..], k, sep)
      ensures false
    {
      AtWithin(s, j, |s|, k, sep);
    }
    assert s[0..] == s;
    var parts := Split(s, sep);
    parts[|parts| - 1]
  }

  /**
   * `s.split(sep)[-1]` is the last piece of the left-to-right scan, which
   * fixes it also for a separator that overlaps itself: the last piece of
   * `"a:::b".split("::")` is `":b"`.
   */
  lemma LastPieceOfScan(s: string, sep: string, parts: seq<string>)
    requires |sep| > 0 && IsScan(s, sep, 0, parts)
    ensures LastPiece(s, sep) == parts[|parts| - 1]
  {
    SplitIsScan(s, sep);
    ScanUnique(s, sep, 0, parts, Split(s, sep));
  }

  /** For `"a:::b"` the scan cuts at the first `::`, so the last piece is `":b"`, not `"b"`. */
  lemma LastPieceOverlapping()
    ensures LastPiece("a:::b", "::") == ":b"
  {
    var s := "a:::b";
    AtChars(s, 0, "::");
    AtChars(s, 1, "::");
    AtChars(s, 3, "::");
    assert s[..1] == "a" && s[3..] == ":b";
    assert IsScan(s, "::", 3, [":b"]);
    assert [":b"] == ["a", ":b"][1..];
    LastPieceOfScan(s, "::", ["a", ":b"]);
  }

  /**
   * Two suffixes of a line that both avoid `c`, one preceded by `c` and the
   * other preceded by `c` or being the whole line, are the same suffix.
   */
  lemma CharFreeSuffixesAgree(line: string, f: string, word: string, c: char)
    requires IsSuffix(f, line) && IsSuffix(word, line)
    requires forall k :: 0 <= k < |f| ==> f[k] != c
    requires forall k :: 0 <= k < |word| ==> word[k] != c
    requires |word| < |line| && line[|line| - |word| - 1] == c
    requires f == line || line[|line| - |f| - 1] == c
    ensures f == word
  {
    var n := |line|;
    assert forall j :: n - |f| <= j < n ==> line[j] == f[j - (n - |f|)];
    assert forall j :: n - |word| <= j < n ==> line[j] == word[j - (n - |word|)];
    assert |f| <= |word|;
    assert |f| >= |word|;
  }

  /** Python's `s.rstrip(chars)`: drops every trailing character that is in `chars`. */
  function RStrip(s: string, chars: set<char>): (r: string)
    ensures |r| <= |s| && r == s[..|r|]
    ensures r == [] || r[|r| - 1] !in chars
    ensures forall k :: |r| <= k < |s| ==> s[k] in chars
    decreases |s|
  {
    if s != [] && s[|s| - 1] in chars then RStrip(s[..|s| - 1], chars) else s
  }

  /** Python's `s.removesuffix(suffix)`. */
  function RemoveSuffix(s: string, suffix: string): string {
    if IsSuffix(suffix, s) then s[..|s| - |suffix|] else s
  }

  /** The line boundaries of Python's `str.splitlines()`. */
  predicate IsLineBreak(c: char) {
    c == '\n' || c == '\r' || c == '\U{0B}' || c == '\U{0C}' || c == '\U{1C}' ||
    c == '\U{1D}' || c == '\U{1E}' || c == '\U{85}' || c == '\U{2028}' || c == '\U{2029}'
  }

  predicate NoLineBreak(line: string) {
    forall k :: 0 <= k < |line| ==> !IsLineBreak(line[k])
  }

  function BreakFrom(s: string, i: nat): (r: nat)
    requires i <= |s|
    ensures i <= r <= |s|
    ensures forall k :: i <= k < r ==> !IsLineBreak(s[k])
    ensures r < |s| ==> IsLineBreak(s[r])
    decreases |s| - i
  {
    if i == |s| || IsLineBreak(s[i]) then i else BreakFrom(s, i + 1)
  }

  /**
   * Python's `s.splitlines()`: "\r\n" is one boundary, a final boundary does
   * not start an empty line, and the empty string has no lines.
   */
  function SplitLines(s: string): (lines: seq<string>)
    ensures lines == [] <==> s == []
    ensures forall i :: 0 <= i < |lines| ==> NoLineBreak(lines[i])
    ensures NoLineBreak(s) && s != [] ==> lines == [s]
    decreases |s|
  {
    if s == [] then []
    else
      var b := BreakFrom(s, 0);
      if b == |s| then [s]
      else
        var next := if s[b] == '\r' && b + 1 < |s| && s[b + 1] == '\n' then b + 2 else b + 1;
        [s[..b]] + SplitLines(s[next..])
  }

  /** One line boundary of `splitlines`: a single boundary character, or `\r\n`. */
  predicate IsBoundary(e: string) {
    (|e| == 1 && IsLineBreak(e[0])) || e == "\r\n"
  }

  /**
   * The boundary that ends each line of `s.splitlines()`, as
   * `s.splitlines(keepends=True)` keeps it; empty for a last line that runs
   * to the end of `s`.
   */
  function LineEnds(s: string): seq<string>
    decreases |s|
  {
    if |s| == 0 then []
    else
      var b := BreakFrom(s, 0);
      if b == |s| then [""]
      else
        var next := if s[b] == '\r' && b + 1 < |s| && s[b + 1] == '\n' then b + 2 else b + 1;
        [s[b..next]] + LineEnds(s[next..])
  }

  /** Each line followed by its boundary, all concatenated. */
  function Interleave(lines: seq<string>, ends: seq<string>): string
    requires |lines| == |ends|
    decreases |lines|
  {
    if |lines| == 0 then [] else lines[0] + ends[0] + Interleave(lines[1..], ends[1..])
  }

  /**
   * `lines` and `ends` cut `s` at line boundaries and nowhere else: the
   * lines, each followed by the boundary that ends it, spell `s`; every
   * line but the last ends with a boundary, the last one ends with a
   * boundary or is a non-empty rest of the text; and `\r\n` is one
   * boundary, never a `\r` that ends one line and a `\n` that ends an
   * empty next line.
   */
  predicate CutsAt(s: string, lines: seq<string>, ends: seq<string>)
    requires |lines| == |ends|
  {
    && Interleave(lines, ends) == s
    && (forall i :: 0 <= i < |ends| - 1 ==> IsBoundary(ends[i]))
    && (|ends| > 0 ==> IsBoundary(ends[|ends| - 1]) || (ends[|ends| - 1] == [] && lines[|lines| - 1] != []))
    && (forall i :: 0 <= i < |ends| - 1 ==> !(ends[i] == "\r" && lines[i + 1] == [] && ends[i + 1] == "\n"))
  }

  /**
   * `s.splitlines()` cuts `s` at its line boundaries and nowhere else.
   * Together with `SplitLines`'s own ensures (no line holds a boundary
   * character) this fixes the result.
   */
  lemma {:induction false} SplitLinesKeepEnds(s: string)
    ensures |LineEnds(s)| == |SplitLines(s)| && CutsAt(s, SplitLines(s), LineEnds(s))
    decreases |s|
  {
    if s != [] {
      var b := BreakFrom(s, 0);
      if b < |s| {
        var next := if s[b] == '\r' && b + 1 < |s| && s[b + 1] == '\n' then b + 2 else b + 1;
        var rest := s[next..];
        var e := s[b..next];
        assert IsBoundary(e);
        assert e == "\r" && |rest| > 0 ==> rest[0] != '\n';
        ThreeParts(s, b, next);
        SplitLinesStep(s, b, next);
        LineEndsStep(s, b, next);
        SplitLinesKeepEnds(rest);
        CutsAtCons(s[..b], e, rest, SplitLines(rest), LineEnds(rest));
      } else {
        assert SplitLines(s) == [s] && LineEnds(s) == [""];
        assert Interleave([s], [""]) == s + "" + Interleave([], []);
      }
    }
  }

  lemma ThreeParts(s: string, b: nat, next: nat)
    requires b <= next <= |s|
    ensures s == s[..b] + s[b..next] + s[next..]
  {
  }

  /** The lines of `s` are its first line and the lines after the first boundary. */
  lemma SplitLinesStep(s: string, b: nat, next: nat)
    requires b == BreakFrom(s, 0) && b < |s|
    requires next == if s[b] == '\r' && b + 1 < |s| && s[b + 1] == '\n' then b + 2 else b + 1
    ensures SplitLines(s) == [s[..b]] + SplitLines(s[next..])
  {
  }

  /** The boundaries of `s` are its first boundary and the boundaries after it. */
  lemma LineEndsStep(s: string, b: nat, next: nat)
    requires b == BreakFrom(s, 0) && b < |s|
    requires next == if s[b] == '\r' && b + 1 < |s| && s[b + 1] == '\n' then b + 2 else b + 1
    ensures LineEnds(s) == [s[b..next]] + LineEnds(s[next..])
  {
  }

  /** A first line and its boundary in front of a cut text give a cut text. */
  lemma CutsAtCons(line: string, e: string, rest: string, lines: seq<string>, ends: seq<string>)
    requires |lines| == |ends| && CutsAt(rest, lines, ends)
    requires IsBoundary(e)
    requires e == "\r" && |rest| > 0 ==> rest[0] != '\n'
    ensures CutsAt(line + e + rest, [line] + lines, [e] + ends)
  {
    var ls, es := [line] + lines, [e] + ends;
    assert Interleave(ls, es) == line + e + rest by {
      assert ls[1..] == lines && es[1..] == ends;
    }
    forall i | 0 <= i < |es| - 1
      ensures IsBoundary(es[i])
    {
      if i > 0 {
        assert es[i] == ends[i - 1];
      }
    }
    if |ends| > 0 {
      assert es[|es| - 1] == ends[|ends| - 1] && ls[|ls| - 1] == lines[|lines| - 1];
    }
    forall i | 0 <= i < |es| - 1
      ensures !(es[i] == "\r" && ls[i + 1] == [] && es[i + 1] == "\n")
    {
      if i == 0 {
        assert rest == lines[0] + ends[0] + Interleave(lines[1..], ends[1..]);
      } else {
        assert es[i] == ends[i - 1] && ls[i + 1] == lines[i] && es[i + 1] == ends[i];
      }
    }
  }

  /**
   * `"\n".join(s.splitlines())` gives back a text whose only line
   * boundaries are `\n`, up to the final `\n` when the text ends with one
   * (which starts no empty last line).
   */
  lemma {:induction false} JoinSplitLines(s: string)
    requires OnlyNewlines(s)
    ensures |s| == 0 ==> SplitLines(s) == []
    ensures |s| > 0 ==> Join(SplitLines(s), "\n") + (if s[|s| - 1] == '\n' then "\n" else "") == s
    decreases |s|
  {
    if |s| > 0 {
      var b := BreakFrom(s, 0);
      if b == |s| {
        JoinNoBreak(s);
      } else if b + 1 == |s| {
        JoinLastBreak(s, b);
      } else {
        OnlyNewlinesAfter(s, b + 1);
        JoinSplitLines(s[b + 1..]);
        assert s[b] == '\n';
        SplitLinesStep(s, b, b + 1);
        JoinInnerBreak(s, b);
      }
    }
  }

  /** A text without a line boundary is its own single line. */
  lemma JoinNoBreak(s: string)
    requires |s| > 0 && BreakFrom(s, 0) == |s|
    ensures Join(SplitLines(s), "\n") + (if s[|s| - 1] == '\n' then "\n" else "") == s
  {
    assert SplitLines(s) == [s] by {
      assert NoLineBreak(s);
    }
    assert !IsLineBreak(s[|s| - 1]);
  }

  /** A text whose only boundary is a final `\n` is one line and that `\n`. */
  lemma JoinLastBreak(s: string, b: nat)
    requires b == BreakFrom(s, 0) && b + 1 == |s| && OnlyNewlines(s)
    ensures Join(SplitLines(s), "\n") + (if s[|s| - 1] == '\n' then "\n" else "") == s
  {
    assert s[b] == '\n';
    SplitLinesStep(s, b, b + 1);
    assert SplitLines(s) == [s[..b]];
    assert s == s[..b] + [s[b]];
  }

  /** A first line ended by `\n` inside the text, joined to the lines of the rest, gives the text. */
  lemma JoinInnerBreak(s: string, b: nat)
    requires b + 1 < |s| && s[b] == '\n'
    requires SplitLines(s) == [s[..b]] + SplitLines(s[b + 1..])
    requires var rest := s[b + 1..];
      Join(SplitLines(rest), "\n") + (if rest[|rest| - 1] == '\n' then "\n" else "") == rest
    ensures Join(SplitLines(s), "\n") + (if s[|s| - 1] == '\n' then "\n" else "") == s
  {
    var rest := s[b + 1..];
    var tail := SplitLines(rest);
    var sfx := if s[|s| - 1] == '\n' then "\n" else "";
    var first := s[..b];
    assert Join(tail, "\n") + sfx == rest by {
      assert rest[|rest| - 1] == s[|s| - 1];
    }
    assert s == first + "\n" + rest by {
      ThreeParts(s, b, b + 1);
      assert s[b..b + 1] == "\n";
    }
    assert Join(SplitLines(s), "\n") == first + "\n" + Join(tail, "\n") by {
      JoinCons(first, tail, "\n");
    }
    Glue(s, first, rest, Join(SplitLines(s), "\n"), Join(tail, "\n"), sfx);
  }

  lemma Glue(s: string, first: string, rest: string, joined: string, joinedRest: string, sfx: string)
    requires s == first + "\n" + rest && joinedRest + sfx == rest
    requires joined == first + "\n" + joinedRest
    ensures joined + sfx == s
  {
  }

  /** Every line boundary character in `s` is `\n`. */
  predicate OnlyNewlines(s: string) {
    forall k :: 0 <= k < |s| && IsLineBreak(s[k]) ==> s[k] == '\n'
  }

  lemma OnlyNewlinesAfter(s: string, i: nat)
    requires i <= |s| && OnlyNewlines(s)
    ensures OnlyNewlines(s[i..])
  {
    forall k | 0 <= k < |s| - i && IsLineBreak(s[i..][k])
      ensures s[i..][k] == '\n'
    {
      assert s[i..][k] == s[i + k];
    }
  }

  lemma JoinCons(first: string, rest: seq<string>, sep: string)
    requires |rest| >= 1
    ensures Join([first] + rest, sep) == first + sep + Join(rest, sep)
  {
    assert ([first] + rest)[1..] == rest;
  }

  /**
   * Python's `lines[-n:]` for `n >= 1`: the last `n` elements, or all of
   * them when there are fewer. (`lines[-0:]` would be the whole list.)
   */
  function LastN<T>(lines: seq<T>, n: nat): (r: seq<T>)
    requires n > 0
    ensures |r| == if |lines| <= n then |lines| else n
    ensures r == lines[|lines| - |r|..]
  {
    if |lines| <= n then lines else lines[|lines| - n..]
  }
}
