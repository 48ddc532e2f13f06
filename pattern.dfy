/**
 * The one regular expression the harness uses to recognise a test identifier,
 * `tests/.*\.mojo::test_.*\(\)`, searched for with Python's `re.search`.
 *
 * `IsMatch` is the language of the pattern (`.` matches any character except
 * a newline); `Search` is a matcher for this pattern alone, proved to return
 * what `re.search` returns: the leftmost starting position that begins some
 * match and, because both `.*` are greedy, the longest match from there.
 */
module TestPattern {
  import opened Wrappers
  import opened Strings

  const Prefix: string := "tests/"
  const Infix: string := ".mojo::test_"
  const Suffix: string := "()"

  predicate NoNewline(s: string, i: nat, j: nat)
    requires i <= j <= |s|
  {
    forall k :: i <= k < j ==> s[k] != '\n'
  }

  /** `s[p..e]` is a match of the pattern. */
  ghost predicate IsMatch(s: string, p: nat, e: nat) {
    && p + |Prefix| <= e <= |s|
    && At(s, p, Prefix)
    && e >= |Suffix| && At(s, e - |Suffix|, Suffix)
    && NoNewline(s, p, e)
    && exists q: nat :: p + |Prefix| <= q && q + |Infix| + |Suffix| <= e && At(s, q, Infix)
  }

  /** The end of the newline-free run that starts at `i`. */
  function RunEnd(s: string, i: nat): (r: nat)
    requires i <= |s|
    ensures i <= r <= |s| && NoNewline(s, i, r)
    ensures r < |s| ==> s[r] == '\n'
    decreases |s| - i
  {
    if i == |s| || s[i] == '\n' then i else RunEnd(s, i + 1)
  }

  /** The end of the longest match that starts at `p`, if any match starts there. */
  function MatchEnd(s: string, p: nat): (r: Option<nat>)
    requires p <= |s|
    ensures r.Some? ==> p <= r.value <= |s|
  {
    if !At(s, p, Prefix) then None
    else
      var limit := RunEnd(s, p);
      match FirstAt(s, Infix, p + |Prefix|, limit)
      case None => None
      case Some(q) =>
        match LastAt(s, Suffix, q + |Infix|, limit)
        case None => None
        case Some(c) => Some(c + |Suffix|)
  }

  /** `MatchEnd` finds the longest match from `p`, and reports none only when there is none. */
  lemma MatchEndIsLongest(s: string, p: nat)
    requires p <= |s|
    ensures var r := MatchEnd(s, p);
      && (r.Some? ==> IsMatch(s, p, r.value))
      && (r.Some? ==> forall e: nat :: IsMatch(s, p, e) ==> e <= r.value)
      && (r.None? ==> forall e: nat :: !IsMatch(s, p, e))
  {
  }

  /** The leftmost match starting at or after `p`, as `(start, end)`. */
  function SearchFrom(s: string, p: nat): (r: Option<(nat, nat)>)
    requires p <= |s| + 1
    ensures r.Some? ==> p <= r.value.0 <= r.value.1 <= |s|
    decreases |s| + 1 - p
  {
    if p > |s| then None
    else
      match MatchEnd(s, p)
      case Some(e) => Some((p, e))
      case None => SearchFrom(s, p + 1)
  }

  /**
   * `SearchFrom` returns the leftmost start at or after `p` that begins a
   * match, with the longest match from there, and nothing only when no
   * match starts at or after `p`.
   */
  lemma {:induction false} SearchFromIsLeftmostLongest(s: string, p: nat)
    requires p <= |s| + 1
    ensures var r := SearchFrom(s, p);
      && (r.Some? ==> p <= r.value.0 && IsMatch(s, r.value.0, r.value.1))
      && (r.Some? ==> forall b: nat, e: nat :: p <= b < r.value.0 ==> !IsMatch(s, b, e))
      && (r.Some? ==> forall e: nat :: IsMatch(s, r.value.0, e) ==> e <= r.value.1)
      && (r.None? ==> forall b: nat, e: nat :: p <= b ==> !IsMatch(s, b, e))
    decreases |s| + 1 - p
  {
    if p <= |s| {
      MatchEndIsLongest(s, p);
      if MatchEnd(s, p).None? {
        SearchFromIsLeftmostLongest(s, p + 1);
        var r := SearchFrom(s, p + 1);
        assert SearchFrom(s, p) == r;
        forall b: nat, e: nat | p <= b && (r.None? || b < r.value.0)
          ensures !IsMatch(s, b, e)
        {
          if b > p {
            assert p + 1 <= b;
          }
        }
      }
    }
  }

  /** Python's `re.search(pattern, s)`, as the span of the match. */
  function Search(s: string): Option<(nat, nat)> {
    SearchFrom(s, 0)
  }

  /** `match.group()` of the search, or nothing when the line does not match. */
  function TestIdIn(line: string): Option<string> {
    match Search(line)
    case None => None
    case Some((p, e)) => Some(line[p..e])
  }

  /**
   * `re.search(...).group()` on a line: nothing exactly when no match occurs
   * anywhere in it; otherwise the text of the match that starts leftmost,
   * taken as long as the pattern allows, which is a substring of the line.
   */
  lemma TestIdInIsReSearch(line: string)
    ensures TestIdIn(line).None? <==> forall b: nat, e: nat :: !IsMatch(line, b, e)
    ensures TestIdIn(line).Some? ==> exists p: nat, e: nat ::
      && p <= e <= |line| && TestIdIn(line).value == line[p..e] && IsMatch(line, p, e)
      && (forall b: nat, e': nat :: b < p ==> !IsMatch(line, b, e'))
      && (forall e': nat :: IsMatch(line, p, e') ==> e' <= e)
  {
    SearchFromIsLeftmostLongest(line, 0);
    if Search(line).Some? {
      var (p, e) := Search(line).value;
      assert TestIdIn(line).value == line[p..e];
    }
  }

  /**
   * Every identifier taken from a line starts with `tests/`, contains
   * `.mojo::test_` after that prefix and ends with `()`.
   */
  lemma TestIdShape(line: string)
    requires TestIdIn(line).Some?
    ensures var id := TestIdIn(line).value;
      At(id, 0, Prefix) && IsSuffix(Suffix, id) && !Free(id, Infix) && NoNewline(id, 0, |id|)
  {
    SearchFromIsLeftmostLongest(line, 0);
    var (p, e) := Search(line).value;
    MatchShape(line, p, e);
  }

  /** A match, cut out of its line, has the shape of an identifier. */
  lemma MatchShape(s: string, p: nat, e: nat)
    requires IsMatch(s, p, e)
    ensures var id := s[p..e];
      At(id, 0, Prefix) && IsSuffix(Suffix, id) && !Free(id, Infix) && NoNewline(id, 0, |id|)
  {
    var id := s[p..e];
    assert At(id, 0, Prefix) by {
      AtSlice(s, p, e, p, Prefix);
    }
    assert IsSuffix(Suffix, id) by {
      AtSlice(s, p, e, e - |Suffix|, Suffix);
      AtChars(id, |id| - |Suffix|, Suffix);
    }
    assert !Free(id, Infix) by {
      var q: nat :| p + |Prefix| <= q && q + |Infix| + |Suffix| <= e && At(s, q, Infix);
      AtSlice(s, p, e, q, Infix);
      assert q - p <= |id| && At(id, q - p, Infix);
    }
    forall k | 0 <= k < |id|
      ensures id[k] != '\n'
    {
      assert id[k] == s[p + k];
    }
  }

  /** A line that is itself one whole match is extracted unchanged. */
  lemma WholeLineIsTestId(line: string)
    requires IsMatch(line, 0, |line|)
    ensures TestIdIn(line) == Some(line)
  {
    SearchFromIsLeftmostLongest(line, 0);
    var (p, e) := Search(line).value;
    assert line[0..|line|] == line;
  }

  /** `tests/<path>.mojo::test_<name>()`, with no newline in `<path>` or `<name>`, is a match. */
  lemma IdentifierIsMatch(path: string, name: string)
    requires NoNewline(path, 0, |path|) && NoNewline(name, 0, |name|)
    ensures var line := Prefix + path + Infix + name + Suffix; IsMatch(line, 0, |line|)
  {
    var line := Prefix + path + Infix + name + Suffix;
    var q := |Prefix| + |path|;
    var c := q + |Infix| + |name|;
    assert At(line, 0, Prefix) by {
      assert line[0..|Prefix|] == Prefix;
      AtChars(line, 0, Prefix);
    }
    assert At(line, q, Infix) by {
      assert line[q..q + |Infix|] == Infix;
      AtChars(line, q, Infix);
    }
    assert At(line, c, Suffix) by {
      assert line[c..c + |Suffix|] == Suffix;
      AtChars(line, c, Suffix);
    }
    IdentifierHasNoNewline(path, name);
  }

  lemma IdentifierHasNoNewline(path: string, name: string)
    requires NoNewline(path, 0, |path|) && NoNewline(name, 0, |name|)
    ensures var line := Prefix + path + Infix + name + Suffix; NoNewline(line, 0, |line|)
  {
    var line := Prefix + path + Infix + name + Suffix;
    var q := |Prefix| + |path|;
    var c := q + |Infix| + |name|;
    forall k | 0 <= k < |line|
      ensures line[k] != '\n'
    {
      if |Prefix| <= k < q {
        assert line[k] == path[k - |Prefix|];
      } else if q + |Infix| <= k < c {
        assert line[k] == name[k - q - |Infix|];
      }
    }
  }

  /**
   * A line that is exactly `tests/<path>.mojo::test_<name>()`, with no newline
   * in `<path>` or `<name>`, is extracted unchanged.
   */
  lemma IdentifierLineIsTestId(path: string, name: string)
    requires NoNewline(path, 0, |path|) && NoNewline(name, 0, |name|)
    ensures var line := Prefix + path + Infix + name + Suffix; TestIdIn(line) == Some(line)
  {
    IdentifierIsMatch(path, name);
    WholeLineIsTestId(Prefix + path + Infix + name + Suffix);
  }

  /** A line that never mentions `tests/` contributes no identifier. */
  lemma NoPrefixNoTestId(line: string)
    requires Free(line, Prefix)
    ensures TestIdIn(line) == None
  {
    SearchFromIsLeftmostLongest(line, 0);
  }
}
