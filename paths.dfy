/**
 * String helpers with Python's meaning (`str.split`, `in`, `endswith`) and the
 * fixed ignore rules of `should_ignore_file` (jit/main.py:20-27, 154-172).
 */
module Paths {

  /** Python's `s.split(sep)`: always at least one piece, empty pieces kept. */
  function Split(s: string, sep: char): (r: seq<string>)
    ensures |r| >= 1
    decreases |s|
  {
    if |s| == 0 then [""]
    else
      var init := Split(s[..|s| - 1], sep);
      var c := s[|s| - 1];
      if c == sep then init + [""]
      else init[..|init| - 1] + [init[|init| - 1] + [c]]
  }

  /** Python's `sep.join(segs)`. */
  function Join(segs: seq<string>, sep: char): string
    decreases |segs|
  {
    if |segs| == 0 then ""
    else if |segs| == 1 then segs[0]
    else Join(segs[..|segs| - 1], sep) + [sep] + segs[|segs| - 1]
  }

  /** Python's `sub in s`. */
  function Contains(s: string, sub: string): bool
    decreases |s|
  {
    |sub| <= |s| && (s[..|sub|] == sub || Contains(s[1..], sub))
  }

  /** Python's `s.startswith(pre)`. */
  predicate IsPrefix(pre: string, s: string)
  {
    |pre| <= |s| && s[..|pre|] == pre
  }

  /** Python's `s.endswith(suf)`. */
  predicate IsSuffix(suf: string, s: string)
  {
    |suf| <= |s| && s[|s| - |suf|..] == suf
  }

  /** `sub` occurs in `s` at some position. */
  ghost predicate OccursAt(s: string, sub: string, i: int)
  {
    0 <= i && i + |sub| <= |s| && s[i..i + |sub|] == sub
  }

  lemma JoinSnoc(segs: seq<string>, z: string, sep: char)
    ensures Join(segs + [z], sep) == if |segs| == 0 then z else Join(segs, sep) + [sep] + z
  {
    assert (segs + [z])[..|segs|] == segs;
  }

  /** Extending the last piece by `c` extends the joined string by `c`. */
  lemma JoinExtendLast(init: seq<string>, c: char, sep: char)
    requires |init| >= 1
    ensures Join(init[..|init| - 1] + [init[|init| - 1] + [c]], sep) == Join(init, sep) + [c]
  {
    var x, y := init[..|init| - 1], init[|init| - 1];
    assert init == x + [y];
    JoinSnoc(x, y + [c], sep);
    JoinSnoc(x, y, sep);
    if |x| > 0 {
      assert Join(x, sep) + [sep] + (y + [c]) == (Join(x, sep) + [sep] + y) + [c];
    }
  }

  /** Joining the pieces of a split gives back the string. */
  lemma {:induction false} JoinSplit(s: string, sep: char)
    ensures Join(Split(s, sep), sep) == s
    decreases |s|
  {
    if |s| > 0 {
      var s', c := s[..|s| - 1], s[|s| - 1];
      assert s == s' + [c];
      SplitSnoc(s', c, sep);
      JoinSplit(s', sep);
      if c == sep {
        JoinSnoc(Split(s', sep), "", sep);
      } else {
        JoinExtendLast(Split(s', sep), c, sep);
      }
    }
  }

  /** No piece of a split holds the separator. */
  lemma {:induction false} SplitPiecesHaveNoSep(s: string, sep: char)
    ensures forall j :: 0 <= j < |Split(s, sep)| ==> sep !in Split(s, sep)[j]
    decreases |s|
  {
    if |s| > 0 {
      SplitPiecesHaveNoSep(s[..|s| - 1], sep);
    }
  }

  /** A string without the separator is one piece. */
  lemma {:induction false} SplitNoSep(s: string, sep: char)
    requires sep !in s
    ensures Split(s, sep) == [s]
    decreases |s|
  {
    if |s| > 0 {
      assert s[..|s| - 1] + [s[|s| - 1]] == s;
      SplitNoSep(s[..|s| - 1], sep);
    }
  }

  /** One more character: a separator opens a new piece, anything else extends the last. */
  lemma SplitSnoc(s: string, c: char, sep: char)
    ensures Split(s + [c], sep) ==
      var init := Split(s, sep);
      if c == sep then init + [""] else init[..|init| - 1] + [init[|init| - 1] + [c]]
  {
    assert (s + [c])[..|s|] == s;
  }

  /** Extending the last piece of `sa + sb` extends the last piece of `sb`. */
  lemma ExtendLast(sa: seq<string>, sb: seq<string>, c: char)
    requires |sb| >= 1
    ensures var init := sa + sb;
      init[..|init| - 1] + [init[|init| - 1] + [c]] == sa + (sb[..|sb| - 1] + [sb[|sb| - 1] + [c]])
  {
    var init := sa + sb;
    assert init[..|init| - 1] == sa + sb[..|sb| - 1];
  }

  /** Splitting distributes over one separator: `(a + "/" + b).split("/") == a.split("/") + b.split("/")`. */
  lemma {:induction false} SplitConcat(a: string, b: string, sep: char)
    ensures Split(a + [sep] + b, sep) == Split(a, sep) + Split(b, sep)
    decreases |b|
  {
    if |b| == 0 {
      assert a + [sep] + b == a + [sep];
      SplitSnoc(a, sep, sep);
    } else {
      var b', c := b[..|b| - 1], b[|b| - 1];
      var ab' := a + [sep] + b';
      assert b == b' + [c];
      assert a + [sep] + b == ab' + [c];
      SplitConcat(a, b', sep);
      SplitSnoc(ab', c, sep);
      SplitSnoc(b', c, sep);
      if c != sep {
        ExtendLast(Split(a, sep), Split(b', sep), c);
      } else {
        assert (Split(a, sep) + Split(b', sep)) + [""] == Split(a, sep) + (Split(b', sep) + [""]);
      }
    }
  }

  /** `Contains` is the usual substring test. */
  lemma {:induction false} ContainsOccurs(s: string, sub: string)
    ensures Contains(s, sub) <==> exists i :: OccursAt(s, sub, i)
    decreases |s|
  {
    if |sub| <= |s| {
      if s[..|sub|] == sub {
        assert OccursAt(s, sub, 0);
      } else {
        ContainsOccurs(s[1..], sub);
        if Contains(s[1..], sub) {
          var i :| OccursAt(s[1..], sub, i);
          assert s[i + 1..i + 1 + |sub|] == s[1..][i..i + |sub|];
          assert OccursAt(s, sub, i + 1);
        }
        if i :| OccursAt(s, sub, i) {
          assert i != 0;
          assert s[1..][i - 1..i - 1 + |sub|] == s[i..i + |sub|];
          assert OccursAt(s[1..], sub, i - 1);
        }
      }
    } else {
      if i :| OccursAt(s, sub, i) {
        assert false;
      }
    }
  }

  lemma ContainsExtend(a: string, b: string, sub: string)
    requires Contains(a, sub)
    ensures Contains(a + b, sub) && Contains(b + a, sub)
  {
    ContainsOccurs(a, sub);
    var i :| OccursAt(a, sub, i);
    assert (a + b)[i..i + |sub|] == a[i..i + |sub|];
    assert (b + a)[|b| + i..|b| + i + |sub|] == a[i..i + |sub|];
    assert OccursAt(a + b, sub, i);
    assert OccursAt(b + a, sub, |b| + i);
    ContainsOccurs(a + b, sub);
    ContainsOccurs(b + a, sub);
  }

  lemma ContainsSelf(s: string)
    ensures Contains(s, s)
  {
    assert OccursAt(s, s, 0);
    ContainsOccurs(s, s);
  }

  /** Every piece of a join occurs in it. */
  lemma {:induction false} JoinContainsPiece(segs: seq<string>, sep: char, j: int)
    requires 0 <= j < |segs|
    ensures Contains(Join(segs, sep), segs[j])
    decreases |segs|
  {
    var x, z := segs[..|segs| - 1], segs[|segs| - 1];
    assert segs == x + [z];
    JoinSnoc(x, z, sep);
    if j == |segs| - 1 {
      ContainsSelf(z);
      if |x| > 0 {
        ContainsExtend(z, Join(x, sep) + [sep], z);
      }
    } else {
      JoinContainsPiece(x, sep, j);
      ContainsExtend(Join(x, sep), [sep] + z, segs[j]);
      assert Join(x, sep) + ([sep] + z) == Join(x, sep) + [sep] + z;
    }
  }

  /** Every piece of a split occurs in the string. */
  lemma SplitPieceOccurs(s: string, sep: char, seg: string)
    requires seg in Split(s, sep)
    ensures Contains(s, seg)
  {
    var j :| 0 <= j < |Split(s, sep)| && Split(s, sep)[j] == seg;
    JoinSplit(s, sep);
    JoinContainsPiece(Split(s, sep), sep, j);
  }

  // ---------------------------------------------------------------------
  // Ignore rules
  // ---------------------------------------------------------------------

  const JitDir: string := ".jit"

  /** `DEFAULT_IGNORE_PATTERNS` (jit/main.py:20-27). */
  const IgnorePatterns: seq<string> := [".jit/", ".DS_Store", "__pycache__/", "*.pyc", ".vscode/", ".git/"]

  /**
   * One pattern of the loop at jit/main.py:160-168: a trailing `/` names a
   * path segment, a leading `*` a suffix, anything else a substring.
   */
  function PatternMatches(path: string, pattern: string): bool
  {
    if |pattern| > 0 && pattern[|pattern| - 1] == '/' then pattern[..|pattern| - 1] in Split(path, '/')
    else if |pattern| > 0 && pattern[0] == '*' then IsSuffix(pattern[1..], path)
    else Contains(path, pattern)
  }

  /** The pattern loop: true as soon as one pattern matches. */
  function MatchesAny(path: string, patterns: seq<string>): bool
    decreases |patterns|
  {
    |patterns| > 0 && (PatternMatches(path, patterns[0]) || MatchesAny(path, patterns[1..]))
  }

  /** `should_ignore_file` on an already normalised path. */
  function ShouldIgnore(path: string): bool
  {
    IsPrefix(JitDir, path) || Contains(path, JitDir) || MatchesAny(path, IgnorePatterns)
  }

  /** The loop returns true exactly when some pattern of the list matches. */
  lemma {:induction false} MatchesAnyExists(path: string, patterns: seq<string>)
    ensures MatchesAny(path, patterns) <==> exists i :: 0 <= i < |patterns| && PatternMatches(path, patterns[i])
    decreases |patterns|
  {
    if |patterns| > 0 {
      MatchesAnyExists(path, patterns[1..]);
      if i :| 0 < i < |patterns| && PatternMatches(path, patterns[i]) {
        assert patterns[1..][i - 1] == patterns[i];
      }
      if i :| 0 <= i < |patterns| - 1 && PatternMatches(path, patterns[1..][i]) {
        assert patterns[i + 1] == patterns[1..][i];
      }
    }
  }

  /** What each default pattern tests, written out. */
  lemma PatternFacts(path: string)
    ensures PatternMatches(path, IgnorePatterns[0]) == (".jit" in Split(path, '/'))
    ensures PatternMatches(path, IgnorePatterns[1]) == Contains(path, ".DS_Store")
    ensures PatternMatches(path, IgnorePatterns[2]) == ("__pycache__" in Split(path, '/'))
    ensures PatternMatches(path, IgnorePatterns[3]) == IsSuffix(".pyc", path)
    ensures PatternMatches(path, IgnorePatterns[4]) == (".vscode" in Split(path, '/'))
    ensures PatternMatches(path, IgnorePatterns[5]) == (".git" in Split(path, '/'))
  {
    assert ".jit/"[..4] == ".jit";
    assert "__pycache__/"[..11] == "__pycache__";
    assert "*.pyc"[1..] == ".pyc";
    assert ".vscode/"[..7] == ".vscode";
    assert ".git/"[..4] == ".git";
  }

  /** The pattern loop over the default list, unrolled. */
  lemma MatchesDefaults(path: string)
    ensures MatchesAny(path, IgnorePatterns) == (
      || PatternMatches(path, IgnorePatterns[0])
      || PatternMatches(path, IgnorePatterns[1])
      || PatternMatches(path, IgnorePatterns[2])
      || PatternMatches(path, IgnorePatterns[3])
      || PatternMatches(path, IgnorePatterns[4])
      || PatternMatches(path, IgnorePatterns[5]))
  {
    var ps := IgnorePatterns;
    assert ps[1..][0] == ps[1] && ps[1..][1..] == ps[2..];
    assert ps[2..][0] == ps[2] && ps[2..][1..] == ps[3..];
    assert ps[3..][0] == ps[3] && ps[3..][1..] == ps[4..];
    assert ps[4..][0] == ps[4] && ps[4..][1..] == ps[5..];
    assert ps[5..][0] == ps[5] && ps[5..][1..] == [];
  }

  /** A `.jit` prefix or `.jit` segment is also a `.jit` substring. */
  lemma JitFacts(path: string)
    ensures IsPrefix(JitDir, path) ==> Contains(path, ".jit")
    ensures ".jit" in Split(path, '/') ==> Contains(path, ".jit")
  {
    if ".jit" in Split(path, '/') {
      SplitPieceOccurs(path, '/', ".jit");
    }
    if IsPrefix(JitDir, path) {
      assert OccursAt(path, JitDir, 0);
      ContainsOccurs(path, JitDir);
    }
  }

  /**
   * The ignore rules spelled out: `.jit` anywhere, `.DS_Store` anywhere, a
   * `__pycache__`, `.vscode` or `.git` segment, or a `.pyc` suffix.
   */
  lemma IgnoreRules(path: string)
    ensures ShouldIgnore(path) <==>
      || Contains(path, ".jit")
      || Contains(path, ".DS_Store")
      || "__pycache__" in Split(path, '/')
      || IsSuffix(".pyc", path)
      || ".vscode" in Split(path, '/')
      || ".git" in Split(path, '/')
  {
    PatternFacts(path);
    MatchesDefaults(path);
    JitFacts(path);
  }

  /** A `__pycache__`, `.vscode` or `.git` segment makes a path ignored. */
  lemma IgnoredSegment(path: string, dir: string)
    requires dir == "__pycache__" || dir == ".vscode" || dir == ".git"
    requires dir in Split(path, '/')
    ensures ShouldIgnore(path)
  {
    IgnoreRules(path);
  }

  /** A separator-free string is the first piece of `dir + "/" + rest`. */
  lemma SplitFirstPiece(dir: string, rest: string, sep: char)
    requires sep !in dir
    ensures dir in Split(dir + [sep] + rest, sep)
  {
    SplitNoSep(dir, sep);
    SplitConcat(dir, rest, sep);
    assert Split(dir + [sep] + rest, sep)[0] == dir;
  }

  /** A piece of `s` stays a piece when a parent directory is prefixed. */
  lemma SplitKeepsPiece(parent: string, s: string, sep: char, seg: string)
    requires seg in Split(s, sep)
    ensures seg in Split(parent + [sep] + s, sep)
  {
    SplitConcat(parent, s, sep);
    var j :| 0 <= j < |Split(s, sep)| && Split(s, sep)[j] == seg;
    assert Split(parent + [sep] + s, sep)[|Split(parent, sep)| + j] == seg;
  }

  /** Anything inside a `__pycache__`, `.vscode` or `.git` directory is ignored, at any depth. */
  lemma IgnoredDirectory(dir: string, parent: string, rest: string)
    requires dir == "__pycache__" || dir == ".vscode" || dir == ".git"
    ensures ShouldIgnore(dir + "/" + rest)
    ensures ShouldIgnore(parent + "/" + dir + "/" + rest)
  {
    var inner := dir + ['/'] + rest;
    assert dir + "/" + rest == inner;
    assert parent + "/" + dir + "/" + rest == parent + ['/'] + inner;
    SplitFirstPiece(dir, rest, '/');
    IgnoredSegment(inner, dir);
    SplitKeepsPiece(parent, inner, '/', dir);
    IgnoredSegment(parent + ['/'] + inner, dir);
  }
}
