/**
 * The display names the harness derives from a test identifier
 * `<path>/<file>.mojo::<test>()`: the test name and file name shown on the
 * progress line, and the path shown in the ranked report.
 */
module Names {
  import opened Wrappers
  import opened Strings

  const Parens: set<char> := {'(', ')'}

  /**
   * `test.split("::")[-1].rstrip("()")`: the last `::`-separated piece with
   * every trailing `(` or `)` removed.
   */
  function TestName(test: string): (name: string)
    ensures var piece := LastPiece(test, "::");
      && |name| <= |piece| && name == piece[..|name|]
      && (name == [] || name[|name| - 1] !in Parens)
      && forall k :: |name| <= k < |piece| ==> piece[k] in Parens
  {
    RStrip(LastPiece(test, "::"), Parens)
  }

  /**
   * `test.split("/")[-1].split("::")[0]`: within the text after the last `/`,
   * the part before the first `::`.
   */
  function TestFile(test: string): (file: string)
    ensures var base := LastPiece(test, "/");
      && IsSuffix(base, test) && (base == test || test[|test| - |base| - 1] == '/')
      && (forall k :: 0 <= k < |base| ==> base[k] != '/')
      && |file| <= |base| && file == base[..|file|]
      && (forall k: nat :: k < |file| ==> !At(base, k, "::"))
      && (file == base || At(base, |file|, "::"))
  {
    LastPieceAfterLastSlash(test);
    FirstPiece(LastPiece(test, "/"), "::")
  }

  /** The text after the last `/` holds no `/` and is all of `test` or follows a `/`. */
  lemma LastPieceAfterLastSlash(test: string)
    ensures var base := LastPiece(test, "/");
      && (forall k :: 0 <= k < |base| ==> base[k] != '/')
      && (base == test || test[|test| - |base| - 1] == '/')
  {
    var base := LastPiece(test, "/");
    forall k | 0 <= k < |base|
      ensures base[k] != '/'
    {
      AtChars(base, k, "/");
    }
    if base != test {
      AtChars(test, |test| - |base| - 1, "/");
    }
  }

  /**
   * A prefix of `base` that holds no `::`, and is all of `base` or is followed
   * by `::`, is the `:`-free text in front of the first `::`.
   */
  lemma PrefixBeforeSeparator(base: string, f: string, file: string)
    requires |f| <= |base| && f == base[..|f|]
    requires forall k: nat :: k < |f| ==> !At(base, k, "::")
    requires f == base || At(base, |f|, "::")
    requires |file| + 2 <= |base| && base[..|file|] == file
    requires base[|file|] == ':' && base[|file| + 1] == ':'
    requires forall k :: 0 <= k < |file| ==> file[k] != ':'
    ensures f == file
  {
    AtChars(base, |file|, "::");
    assert |f| <= |file|;
    assert forall k :: 0 <= k < |file| ==> base[k] != ':' by {
      forall k | 0 <= k < |file|
        ensures base[k] != ':'
      {
        assert base[k] == file[k];
      }
    }
    AtChars(base, |f|, "::");
    assert |f| >= |file|;
  }

  /** A text free of `::` has no two consecutive colons. */
  lemma NoDoubleColon(s: string)
    requires Free(s, "::")
    ensures forall k :: 0 <= k && k + 1 < |s| ==> !(s[k] == ':' && s[k + 1] == ':')
  {
    forall k | 0 <= k && k + 1 < |s|
      ensures !(s[k] == ':' && s[k + 1] == ':')
    {
      AtChars(s, k, "::");
    }
  }

  /**
   * A suffix of `test` with no two consecutive colons that is all of `test`
   * or follows `::` is the colon-free `w` after the last `::`, when a
   * character other than `:` precedes that `::`.
   */
  lemma SuffixAfterColons(test: string, piece: string, w: string)
    requires IsSuffix(piece, test) && IsSuffix(w, test)
    requires forall k :: 0 <= k && k + 1 < |piece| ==> !(piece[k] == ':' && piece[k + 1] == ':')
    requires piece == test || (|piece| + 2 <= |test| && test[|test| - |piece| - 2] == ':' && test[|test| - |piece| - 1] == ':')
    requires |w| + 3 <= |test|
    requires test[|test| - |w| - 3] != ':' && test[|test| - |w| - 2] == ':' && test[|test| - |w| - 1] == ':'
    requires forall k :: 0 <= k < |w| ==> w[k] != ':'
    ensures piece == w
  {
    var n := |test|;
    assert forall j :: n - |piece| <= j < n ==> test[j] == piece[j - (n - |piece|)];
    assert forall j :: n - |w| <= j < n ==> test[j] == w[j - (n - |w|)];
    assert |piece| <= |w| + 1;
    assert |piece| != |w| + 1;
    assert |piece| >= |w|;
  }

  /** `rstrip` has one result: the prefix that ends outside `cs` and is followed only by `cs`. */
  lemma RStripUnique(w: string, a: string, b: string, cs: set<char>)
    requires |a| <= |w| && a == w[..|a|] && (a == [] || a[|a| - 1] !in cs)
    requires forall k :: |a| <= k < |w| ==> w[k] in cs
    requires |b| <= |w| && b == w[..|b|] && (b == [] || b[|b| - 1] !in cs)
    requires forall k :: |b| <= k < |w| ==> w[k] in cs
    ensures a == b
  {
    var ia := if |a| > 0 then |a| - 1 else 0;
    var ib := if |b| > 0 then |b| - 1 else 0;
    assert a == [] || a[ia] == w[ia];
    assert b == [] || b[ib] == w[ib];
    assert |a| == |b|;
  }

  /**
   * For an identifier `<dir>/<file>::<name>()` whose file and test names hold
   * no `/` and no `:`, the file name shown is `<file>`, whatever `<dir>` is.
   */
  lemma TestFileOf(dir: string, file: string, name: string)
    requires Avoids(file, {'/', ':'}) && Avoids(name, {'/', ':'})
    ensures TestFile(dir + "/" + file + "::" + name + "()") == file
  {
    var tail := file + "::" + name + "()";
    LastPieceAfterSlash(dir, file, name);
    assert tail[..|file|] == file && tail[|file|] == ':' && tail[|file| + 1] == ':';
    PrefixBeforeSeparator(tail, TestFile(dir + "/" + file + "::" + name + "()"), file);
  }

  /** The text after the last `/` of an identifier is `<file>::<name>()`. */
  lemma LastPieceAfterSlash(dir: string, file: string, name: string)
    requires Avoids(file, {'/', ':'}) && Avoids(name, {'/', ':'})
    ensures LastPiece(dir + "/" + file + "::" + name + "()", "/") == file + "::" + name + "()"
  {
    var test, tail := dir + "/" + file + "::" + name + "()", file + "::" + name + "()";
    assert test == dir + "/" + tail;
    forall k | 0 <= k < |tail|
      ensures tail[k] != '/'
    {
      if k < |file| {
        assert tail[k] == file[k];
      } else if |file| + 2 <= k < |file| + 2 + |name| {
        assert tail[k] == name[k - |file| - 2];
      }
    }
    assert test[|test| - |tail|..] == tail && test[|test| - |tail| - 1] == '/';
    LastPieceAfterLastSlash(test);
    CharFreeSuffixesAgree(test, LastPiece(test, "/"), tail, '/');
  }

  /**
   * For an identifier `<dir>/<file>::<name>()` whose file and test names hold
   * no `/` and no `:`, and whose test name does not end with a parenthesis,
   * the test name shown is `<name>`.
   */
  lemma TestNameOf(dir: string, file: string, name: string)
    requires Avoids(file, {'/', ':'}) && Avoids(name, {'/', ':'})
    requires name == [] || name[|name| - 1] !in Parens
    ensures TestName(dir + "/" + file + "::" + name + "()") == name
  {
    var w := name + "()";
    LastPieceOfId(dir, file, name);
    assert w[..|name|] == name;
    assert w[|name|] == '(' && w[|name| + 1] == ')';
    RStripUnique(w, TestName(dir + "/" + file + "::" + name + "()"), name, Parens);
  }

  /** The characters around the `::` in front of the test name of an identifier. */
  lemma ColonsBeforeName(dir: string, file: string, name: string)
    requires Avoids(file, {'/', ':'}) && Avoids(name, {'/', ':'})
    ensures var test, w := dir + "/" + file + "::" + name + "()", name + "()";
      && |w| + 3 <= |test| && test[|test| - |w|..] == w
      && test[|test| - |w| - 3] != ':' && test[|test| - |w| - 2] == ':' && test[|test| - |w| - 1] == ':'
      && forall k :: 0 <= k < |w| ==> w[k] != ':'
  {
    var test, w := dir + "/" + file + "::" + name + "()", name + "()";
    var n := |test|;
    assert test == (dir + "/" + file + "::") + w;
    assert test[n - |w| - 3] != ':' by {
      if |file| > 0 {
        assert test[n - |w| - 3] == file[|file| - 1];
      }
    }
    forall k | 0 <= k < |w|
      ensures w[k] != ':'
    {
      if k < |name| {
        assert w[k] == name[k];
      }
    }
  }

  /** The text after the last `::` of an identifier is `<name>()`. */
  lemma LastPieceOfId(dir: string, file: string, name: string)
    requires Avoids(file, {'/', ':'}) && Avoids(name, {'/', ':'})
    ensures LastPiece(dir + "/" + file + "::" + name + "()", "::") == name + "()"
  {
    var test, w := dir + "/" + file + "::" + name + "()", name + "()";
    ColonsBeforeName(dir, file, name);
    var piece := LastPiece(test, "::");
    NoDoubleColon(piece);
    assert piece == test ||
      (|piece| + 2 <= |test| && test[|test| - |piece| - 2] == ':' && test[|test| - |piece| - 1] == ':')
    by {
      if piece != test {
        var p := |test| - |piece| - 2;
        AtChars(test, p, "::");
        assert test[p + 0] == "::"[0] && test[p + 1] == "::"[1];
      }
    }
    SuffixAfterColons(test, piece, w);
  }

  /**
   * `test.replace("tests/", "")`, which is `"".join(test.split("tests/"))`:
   * the pieces between occurrences of `tests/`, concatenated.
   */
  function DisplayPath(test: string): string {
    Join(Split(test, "tests/"), "")
  }

  /**
   * The report path is what remains of the identifier once each occurrence of
   * `tests/` found by a left-to-right scan is cut out: joining the same
   * pieces back with `tests/` gives the identifier, and no piece holds `tests/`.
   */
  lemma DisplayPathRemovesOccurrences(test: string)
    ensures var pieces := Split(test, "tests/");
      && DisplayPath(test) == Join(pieces, "")
      && Join(pieces, "tests/") == test
      && forall i :: 0 <= i < |pieces| ==> Free(pieces[i], "tests/")
  {
    JoinSplit(test, "tests/");
    SplitPiecesFree(test, "tests/");
  }

  /** An identifier `tests/<rest>` whose rest never mentions `tests/` is shown as `<rest>`. */
  lemma DisplayPathOfTestsPrefix(rest: string)
    requires Free(rest, "tests/")
    ensures DisplayPath("tests/" + rest) == rest
  {
    var sep := "tests/";
    var test := sep + rest;
    AtChars(test, 0, sep);
    assert test[0..|sep|] == sep;
    assert FirstAt(test, sep, 0, |test|) == Some(0);
    assert test[|sep|..|test|] == rest;
    forall k: nat | |sep| <= k && k + |sep| <= |test|
      ensures !At(test, k, sep)
    {
      if At(test, k, sep) {
        AtSlice(test, |sep|, |test|, k, sep);
      }
    }
    assert FirstAt(test, sep, |sep|, |test|).None?;
    var parts := Split(test, sep);
    assert parts == [test[0..0]] + SplitFrom(test, sep, |sep|);
    assert SplitFrom(test, sep, |sep|) == [rest];
    assert parts == ["", rest] && parts[1..] == [rest];
    assert Join(parts, "") == "" + "" + Join([rest], "");
  }
}
