/**
 * The JavaScript string operations the extraction engine relies on: `split` and `join`
 * on a one-character separator, `trim`, `startsWith`, `indexOf`/`includes`, `replace`
 * with a string pattern, and the global regular-expression replacement that
 * normalises editor text before it is split into tokens.
 */
module Text {
  import opened Wrappers

  /**
   * The characters JavaScript counts as WhiteSpace or LineTerminator: the set `\s`
   * matches and `String.prototype.trim` removes.
   */
  predicate IsWhitespace(c: char) {
    c == ' ' || ('\t' <= c <= '\r') || (c >= '\U{A0}' && IsWideWhitespace(c))
  }

  /** The whitespace characters outside ASCII: no-break space, the Zs separators, U+2028/9 and the BOM. */
  predicate IsWideWhitespace(c: char) {
    || c == '\U{A0}' || c == '\U{1680}' || ('\U{2000}' <= c <= '\U{200A}')
    || c == '\U{2028}' || c == '\U{2029}' || c == '\U{202F}' || c == '\U{205F}'
    || c == '\U{3000}' || c == '\U{FEFF}'
  }

  // ---------------------------------------------------------------------------------
  // split / join

  /** `s.split(sep)`: the pieces between separators, in order; never an empty list. */
  function Split(s: string, sep: char): (parts: seq<string>)
    ensures |parts| >= 1
    ensures forall k :: 0 <= k < |parts| ==> sep !in parts[k]
    decreases |s|
  {
    if s == [] then [""]
    else
      var rest := Split(s[1..], sep);
      if s[0] == sep then [""] + rest else [[s[0]] + rest[0]] + rest[1..]
  }

  /** `parts.join(sep)`; `[].join(sep)` is the empty string. */
  function Join(parts: seq<string>, sep: char): string
    decreases |parts|
  {
    if parts == [] then ""
    else if |parts| == 1 then parts[0]
    else parts[0] + [sep] + Join(parts[1..], sep)
  }

  /** Joining the pieces of a split gives back the original string. */
  lemma {:induction false} JoinSplit(s: string, sep: char)
    ensures Join(Split(s, sep), sep) == s
    decreases |s|
  {
    if s != [] {
      JoinSplit(s[1..], sep);
      var rest := Split(s[1..], sep);
      if s[0] == sep {
        assert Split(s, sep) == [""] + rest;
        assert s == [sep] + s[1..];
      } else {
        var parts := Split(s, sep);
        assert parts == [[s[0]] + rest[0]] + rest[1..];
        if |rest| == 1 {
          assert Join(parts, sep) == [s[0]] + rest[0];
        } else {
          assert parts[1..] == rest[1..];
          assert Join(rest, sep) == rest[0] + [sep] + Join(rest[1..], sep);
          assert Join(parts, sep) == [s[0]] + rest[0] + [sep] + Join(rest[1..], sep);
        }
      }
    }
  }

  /** A piece without the separator, followed by the separator, starts a new piece. */
  lemma {:induction false} SplitPieceThenSeparator(p: string, sep: char, rest: string)
    requires sep !in p
    ensures Split(p + [sep] + rest, sep) == [p] + Split(rest, sep)
    decreases |p|
  {
    if p == [] {
      assert p + [sep] + rest == [sep] + rest;
      assert ([sep] + rest)[1..] == rest;
    } else {
      SplitPieceThenSeparator(p[1..], sep, rest);
      var s := p + [sep] + rest;
      assert s[0] == p[0];
      assert s[1..] == p[1..] + [sep] + rest;
      assert [p[0]] + p[1..] == p;
    }
  }

  /** A string without the separator splits into itself. */
  lemma {:induction false} SplitWithoutSeparator(p: string, sep: char)
    requires sep !in p
    ensures Split(p, sep) == [p]
    decreases |p|
  {
    if p != [] {
      SplitWithoutSeparator(p[1..], sep);
      assert [p[0]] + p[1..] == p;
    }
  }

  /** Splitting a join of separator-free pieces gives back the pieces. */
  lemma {:induction false} SplitJoin(parts: seq<string>, sep: char)
    requires |parts| >= 1
    requires forall k :: 0 <= k < |parts| ==> sep !in parts[k]
    ensures Split(Join(parts, sep), sep) == parts
    decreases |parts|
  {
    if |parts| == 1 {
      SplitWithoutSeparator(parts[0], sep);
    } else {
      SplitJoin(parts[1..], sep);
      SplitPieceThenSeparator(parts[0], sep, Join(parts[1..], sep));
    }
  }

  /** Joining one more piece appends the separator and that piece. */
  lemma {:induction false} JoinSnoc(parts: seq<string>, last: string, sep: char)
    requires parts != []
    ensures Join(parts + [last], sep) == Join(parts, sep) + [sep] + last
    decreases |parts|
  {
    if |parts| > 1 {
      JoinSnoc(parts[1..], last, sep);
      assert (parts + [last])[1..] == parts[1..] + [last];
    }
  }

  // ---------------------------------------------------------------------------------
  // trim

  /** `trimStart`: `s` without its leading whitespace. */
  function TrimStart(s: string): string
    decreases |s|
  {
    if s != [] && IsWhitespace(s[0]) then TrimStart(s[1..]) else s
  }

  /** `trimEnd`: `s` without its trailing whitespace. */
  function TrimEnd(s: string): string
    decreases |s|
  {
    if s != [] && IsWhitespace(s[|s| - 1]) then TrimEnd(s[..|s| - 1]) else s
  }

  /** `trim`: `s` without its leading and trailing whitespace. */
  function Trim(s: string): string {
    TrimEnd(TrimStart(s))
  }

  /** trimStart removes a prefix made only of whitespace and stops at the first other character. */
  lemma {:induction false} TrimStartSpec(s: string)
    ensures var r := TrimStart(s);
      && |r| <= |s| && r == s[|s| - |r|..]
      && (forall k :: 0 <= k < |s| - |r| ==> IsWhitespace(s[k]))
      && (r == [] || !IsWhitespace(r[0]))
    decreases |s|
  {
    if s != [] && IsWhitespace(s[0]) {
      TrimStartSpec(s[1..]);
      var r := TrimStart(s);
      assert r == TrimStart(s[1..]);
      assert s[1..][|s| - 1 - |r|..] == s[|s| - |r|..];
      forall k | 0 <= k < |s| - |r| ensures IsWhitespace(s[k]) {
        if k > 0 {
          assert s[k] == s[1..][k - 1];
        }
      }
    }
  }

  /** trimEnd removes a suffix made only of whitespace and stops at the last other character. */
  lemma {:induction false} TrimEndSpec(s: string)
    ensures var r := TrimEnd(s);
      && |r| <= |s| && r == s[..|r|]
      && (forall k :: |r| <= k < |s| ==> IsWhitespace(s[k]))
      && (r == [] || !IsWhitespace(r[|r| - 1]))
    decreases |s|
  {
    if s != [] && IsWhitespace(s[|s| - 1]) {
      var t := s[..|s| - 1];
      TrimEndSpec(t);
      var r := TrimEnd(s);
      assert r == TrimEnd(t);
      assert t[..|r|] == s[..|r|];
      forall k | |r| <= k < |s| ensures IsWhitespace(s[k]) {
        if k < |s| - 1 {
          assert s[k] == t[k];
        }
      }
    }
  }

  /**
   * trim yields the slice of `s` that starts at `lo`: everything before and after it is
   * whitespace, and it starts and ends with a character that is not whitespace.
   */
  lemma TrimSpec(s: string) returns (lo: nat)
    ensures var r := Trim(s);
      && lo + |r| <= |s| && r == s[lo..lo + |r|]
      && (forall k :: 0 <= k < lo ==> IsWhitespace(s[k]))
      && (forall k :: lo + |r| <= k < |s| ==> IsWhitespace(s[k]))
      && (r == [] || (!IsWhitespace(r[0]) && !IsWhitespace(r[|r| - 1])))
  {
    TrimStartSpec(s);
    var m := TrimStart(s);
    TrimEndSpec(m);
    var r := TrimEnd(m);
    lo := |s| - |m|;
    forall k | lo + |r| <= k < |s| ensures IsWhitespace(s[k]) {
      assert s[k] == m[k - lo];
    }
    assert r == m[..|r|] == s[lo..lo + |r|];
    if r != [] {
      assert r[0] == m[0];
    }
  }

  /** A string that neither starts nor ends with whitespace is its own trim. */
  lemma TrimUnchanged(s: string)
    requires s == [] || (!IsWhitespace(s[0]) && !IsWhitespace(s[|s| - 1]))
    ensures Trim(s) == s
  {
    if s != [] {
      assert TrimStart(s) == s;
    }
  }

  // ---------------------------------------------------------------------------------
  // startsWith / indexOf / includes / replace

  /** `s.startsWith(prefix)`. */
  predicate StartsWith(s: string, prefix: string) {
    |prefix| <= |s| && s[..|prefix|] == prefix
  }

  /** `pat` occurs in `s` at index `j`. */
  predicate OccursAt(s: string, pat: string, j: int) {
    0 <= j && j + |pat| <= |s| && s[j..j + |pat|] == pat
  }

  /** The first index at or after `from` where `pat` occurs in `s`. */
  function IndexOfFrom(s: string, pat: string, from: nat): (r: Option<nat>)
    ensures r.Some? ==> from <= r.value && OccursAt(s, pat, r.value)
    ensures r.Some? ==> forall j :: from <= j < r.value ==> !OccursAt(s, pat, j)
    ensures r.None? ==> forall j :: from <= j ==> !OccursAt(s, pat, j)
    decreases |s| - from
  {
    if from + |pat| > |s| then None
    else if s[from..from + |pat|] == pat then Some(from)
    else IndexOfFrom(s, pat, from + 1)
  }

  /** `s.indexOf(pat)`, with `None` for -1. */
  function IndexOf(s: string, pat: string): Option<nat> {
    IndexOfFrom(s, pat, 0)
  }

  /** `s.includes(pat)`. */
  predicate Contains(s: string, pat: string) {
    IndexOf(s, pat).Some?
  }

  /**
   * `s.replace(pat, rep)` with a string pattern: only the first occurrence is replaced,
   * and the string is returned unchanged when `pat` does not occur.
   */
  function ReplaceFirst(s: string, pat: string, rep: string): (r: string)
    ensures (forall j :: !OccursAt(s, pat, j)) ==> r == s
    ensures forall k :: OccursAt(s, pat, k) && (forall j :: 0 <= j < k ==> !OccursAt(s, pat, j))
                        ==> r == s[..k] + rep + s[k + |pat|..]
  {
    match IndexOf(s, pat)
    case None => s
    case Some(k) => s[..k] + rep + s[k + |pat|..]
  }

  /** Replacing at a known first occurrence, stated without quantifiers for callers. */
  lemma ReplaceAtFirst(s: string, pat: string, rep: string, k: nat)
    requires OccursAt(s, pat, k) && forall j :: 0 <= j < k ==> !OccursAt(s, pat, j)
    ensures Contains(s, pat)
    ensures ReplaceFirst(s, pat, rep) == s[..k] + rep + s[k + |pat|..]
  {
  }

  // ---------------------------------------------------------------------------------
  // normalisation: text.replace(/([\r\n]|  )+(\/\/\s)?/g, ' ')

  /** Length of the longest prefix of `s` made of the units `\r`, `\n` and two spaces. */
  function BreakRun(s: string): (n: nat)
    ensures n <= |s|
    decreases |s|
  {
    if |s| > 0 && (s[0] == '\r' || s[0] == '\n') then 1 + BreakRun(s[1..])
    else if |s| > 1 && s[0] == ' ' && s[1] == ' ' then 2 + BreakRun(s[2..])
    else 0
  }

  /**
   * Length of the regular-expression match starting at the front of `s` (0 when none
   * starts there): a run of break units, then an optional `//` and one whitespace.
   */
  function MatchLength(s: string): (n: nat)
    ensures n <= |s|
  {
    var n := BreakRun(s);
    if n > 0 && n + 2 < |s| && s[n] == '/' && s[n + 1] == '/' && IsWhitespace(s[n + 2]) then n + 3
    else n
  }

  /**
   * The global replacement: every leftmost match, scanning from left to right, becomes
   * one space; every other character is kept.
   */
  function Normalize(s: string): (r: string)
    ensures |r| <= |s|
    ensures '\r' !in r && '\n' !in r
    decreases |s|
  {
    if s == [] then ""
    else
      var n := MatchLength(s);
      if n > 0 then " " + Normalize(s[n..]) else [s[0]] + Normalize(s[1..])
  }

  /** `s` has no line break and no two consecutive spaces. */
  predicate IsSingleLine(s: string) {
    '\r' !in s && '\n' !in s && forall j :: 0 <= j < |s| - 1 ==> !(s[j] == ' ' && s[j + 1] == ' ')
  }

  /** Text without line breaks or double spaces passes through normalisation unchanged. */
  lemma {:induction false} NormalizeSingleLine(s: string)
    requires IsSingleLine(s)
    ensures Normalize(s) == s
    decreases |s|
  {
    if s != [] {
      NoMatchAtSingleLineStart(s);
      SingleLineTail(s);
      NormalizeSingleLine(s[1..]);
      assert Normalize(s) == [s[0]] + Normalize(s[1..]);
      assert [s[0]] + s[1..] == s;
    }
  }

  /**
   * Two single lines around one line break become one line joined by a space, unless
   * the second starts a `//` comment.
   */
  lemma {:induction false} NormalizeJoinsLines(a: string, b: string)
    requires IsSingleLine(a) && IsSingleLine(b) && !StartsWith(b, "//")
    ensures Normalize(a + "\n" + b) == a + " " + b
    decreases |a|
  {
    if a == [] {
      assert a + "\n" + b == "\n" + b;
      NormalizeBreakThenLine(b);
    } else {
      NormalizeKeepsLineStart(a, b);
      SingleLineTail(a);
      NormalizeJoinsLines(a[1..], b);
      HeadAndTail(a, " " + b);
    }
  }

  /** Splitting the first character off a line and what follows it. */
  lemma HeadAndTail(a: string, t: string)
    requires a != [] && |t| > 0
    ensures (a + [t[0]] + t[1..])[1..] == a[1..] + [t[0]] + t[1..]
    ensures [a[0]] + (a[1..] + [t[0]] + t[1..]) == a + [t[0]] + t[1..]
  {
    assert a == [a[0]] + a[1..];
  }

  /** The first character of a single line followed by a break is kept as it is. */
  lemma NormalizeKeepsLineStart(a: string, b: string)
    requires a != [] && IsSingleLine(a)
    ensures Normalize(a + "\n" + b) == [a[0]] + Normalize(a[1..] + "\n" + b)
  {
    var s := a + "\n" + b;
    NoMatchBeforeBreak(a, b);
    HeadAndTail(a, "\n" + b);
  }

  /** A line break in front of a single line that is not a comment becomes one space. */
  lemma NormalizeBreakThenLine(b: string)
    requires IsSingleLine(b) && !StartsWith(b, "//")
    ensures Normalize("\n" + b) == " " + b
  {
    var s := "\n" + b;
    if b != [] {
      NoMatchAtSingleLineStart(b);
    }
    assert s[1..] == b;
    assert BreakRun(s) == 1 + BreakRun(b) == 1;
    assert MatchLength(s) == 1;
    NormalizeSingleLine(b);
  }

  /** No match starts at the front of a non-empty single line followed by a break. */
  lemma NoMatchBeforeBreak(a: string, b: string)
    requires a != [] && IsSingleLine(a)
    ensures MatchLength(a + "\n" + b) == 0
  {
    var s := a + "\n" + b;
    assert s[0] == a[0] && a[0] in a;
    if |a| > 1 {
      assert s[1] == a[1];
    } else {
      assert s[1] == '\n';
    }
    assert BreakRun(s) == 0;
  }

  /** No match of the normalising expression starts at the front of a single line. */
  lemma NoMatchAtSingleLineStart(s: string)
    requires s != [] && IsSingleLine(s)
    ensures MatchLength(s) == 0
  {
    assert s[0] in s;
    assert s[0] != '\r' && s[0] != '\n';
    if |s| > 1 {
      assert !(s[0] == ' ' && s[1] == ' ');
    }
    assert BreakRun(s) == 0;
  }

  /** Dropping the first character of a single line leaves a single line. */
  lemma SingleLineTail(s: string)
    requires s != [] && IsSingleLine(s)
    ensures IsSingleLine(s[1..])
  {
    var t := s[1..];
    forall j | 0 <= j < |t| - 1 ensures !(t[j] == ' ' && t[j + 1] == ' ') {
      assert t[j] == s[j + 1] && t[j + 1] == s[j + 2];
    }
    forall k | 0 <= k < |t| ensures t[k] != '\r' && t[k] != '\n' {
      assert t[k] == s[k + 1] && s[k + 1] in s;
    }
  }

  /**
   * Normalisation does not always leave single spaces: three spaces lose only one pair,
   * so two consecutive spaces, and hence an empty token, survive.
   */
  lemma NormalizeKeepsDoubleSpace()
    ensures Normalize("a   b") == "a  b"
    ensures Split(Normalize("a   b"), ' ') == ["a", "", "b"]
  {
    assert MatchLength("a   b") == 0;
    assert "a   b"[1..] == "   b";
    assert BreakRun(" b") == 0;
    assert BreakRun("   b") == 2;
    assert MatchLength("   b") == 2;
    assert "   b"[2..] == " b";
    assert MatchLength(" b") == 0;
    assert " b"[1..] == "b";
    assert MatchLength("b") == 0;
    assert Normalize("b") == "b";
    assert Normalize(" b") == " b";
    assert Normalize("   b") == "  b";
    assert Normalize("a   b") == "a  b";
    SplitDoubleSpace();
  }

  /** Two consecutive spaces give an empty piece between them. */
  lemma SplitDoubleSpace()
    ensures Split("a  b", ' ') == ["a", "", "b"]
  {
    assert "b"[1..] == "";
    assert Split("", ' ') == [""];
    assert ['b'] + "" == "b";
    assert Split("b", ' ') == [['b'] + ""] + [""][1..];
    assert " b"[1..] == "b";
    assert "  b"[1..] == " b";
    assert Split(" b", ' ') == ["", "b"];
    assert Split("  b", ' ') == ["", "", "b"];
    assert "a  b"[1..] == "  b";
    assert Split("a  b", ' ') == [['a'] + ""] + Split("  b", ' ')[1..];
    assert Split("  b", ' ')[1..] == ["", "b"];
    assert ['a'] + "" == "a";
  }
}
