/**
 * `insert_dollars`: `VAR_RE.sub(...)` over a title. In doi2bib2/utils.py
 * and bib_utils.py the pattern is `(\{)(\\var[A-Z]?[a-z]*)(\})` with the
 * template `\1$\2$\3`, so "{\varX}" becomes "{$\varX$}". In doi2bib3/utils.py
 * both are written with one backslash too many inside raw strings: the
 * pattern then matches the literal text `\{\var...\}` and each match is
 * replaced by the eight characters `\1$\2$\3`.
 */
module TitleMath {
  import opened Text
  import opened Regex

  /** `[A-Z]?[a-z]*` as a whole string. */
  predicate VarName(w: string) {
    forall i :: 0 <= i < |w| ==> IsLower(w[i]) || (i == 0 && IsUpper(w[i]))
  }

  /** An optional capital at `b` and a run of lower-case letters up to `m`
      make a name. */
  lemma VarNameOfRun(t: string, b: nat, k: nat, m: nat)
    requires b <= k <= m <= |t| && k <= b + 1
    requires k == b + 1 ==> IsUpper(t[b])
    requires forall j :: k <= j < m ==> IsLower(t[j])
    ensures VarName(t[b..m])
  {
    forall i | 0 <= i < m - b
      ensures IsLower(t[b..m][i]) || (i == 0 && IsUpper(t[b..m][i]))
    {
      assert t[b..m][i] == t[b + i];
    }
  }

  // ---------------------------------------------------------------------------
  // doi2bib2/utils.py and bib_utils.py

  /** `t[..n]` is a match of `\{\\var[A-Z]?[a-z]*\}` at the head of `t`. */
  predicate VarMatch(t: string, n: nat) {
    && 6 <= n <= |t|
    && t[0] == '{' && t[1..5] == "\\var" && t[n - 1] == '}'
    && VarName(t[5..n - 1])
  }

  /** The length of the match at the head of `t`, 0 when there is none. */
  function VarLen(t: string): (n: nat)
    ensures n > 0 ==> VarMatch(t, n)
  {
    if 6 <= |t| && t[0] == '{' && t[1..5] == "\\var" then
      var k := if IsUpper(t[5]) then 6 else 5;
      var m := k + Span(t, k, IsLower);
      if m < |t| && t[m] == '}' then
        VarNameOfRun(t, 5, k, m);
        m + 1
      else 0
    else 0
  }

  /** Every match is the one `VarLen` finds: the pattern matches at most one
      way at a position. */
  lemma VarLenComplete(t: string, n: nat)
    requires VarMatch(t, n)
    ensures VarLen(t) == n
  {
    var w := t[5..n - 1];
    forall i | 0 <= i < |w| ensures w[i] == t[i + 5] {
    }
    assert !IsLower(t[n - 1]) && !IsUpper(t[n - 1]);
    if |w| > 0 && IsUpper(w[0]) {
      forall j | 6 <= j < n - 1 ensures IsLower(t[j]) {
        assert t[j] == w[j - 5];
      }
      SpanUnique(t, 6, IsLower, n - 7);
    } else {
      forall j | 5 <= j < n - 1 ensures IsLower(t[j]) {
        assert t[j] == w[j - 5];
      }
      SpanUnique(t, 5, IsLower, n - 6);
    }
  }

  /** The template `\1$\2$\3`: the braces stay outside, dollars go inside. */
  function WrapDollars(m: string): string {
    if |m| >= 2 then [m[0]] + "$" + m[1..|m| - 1] + "$" + [m[|m| - 1]] else m
  }

  function InsertDollars(title: string): string {
    SubAll(title, VarLen, WrapDollars)
  }

  /** The template applied to a whole group. */
  lemma WrapGroup(w: string)
    ensures WrapDollars("{\\var" + w + "}") == "{$\\var" + w + "$}"
  {
    var g := "{\\var" + w + "}";
    assert g[1..|g| - 1] == "\\var" + w;
  }

  /** Where a match starts at the head, it is rewritten and the rest follows. */
  lemma InsertDollarsAtMatch(t: string, n: nat)
    requires 0 < n <= |t| && VarLen(t) == n
    ensures InsertDollars(t) == WrapDollars(t[..n]) + InsertDollars(t[n..])
  {
  }

  /** A `{\var...}` group is wrapped in dollars, and the rewriting goes on after it. */
  lemma InsertDollarsWraps(w: string, rest: string)
    requires VarName(w)
    ensures InsertDollars("{\\var" + w + "}" + rest) == "{$\\var" + w + "$}" + InsertDollars(rest)
  {
    var g := "{\\var" + w + "}";
    var t := g + rest;
    var n := |g|;
    assert t[..n] == g && t[n..] == rest;
    assert t[5..n - 1] == w;
    VarLenComplete(t, n);
    InsertDollarsAtMatch(t, n);
    WrapGroup(w);
  }

  /** A character that cannot open a match is copied. */
  lemma InsertDollarsCopies(c: char, rest: string)
    requires c != '{'
    ensures InsertDollars([c] + rest) == [c] + InsertDollars(rest)
  {
    assert ([c] + rest)[1..] == rest;
  }

  /** Text in which the pattern matches nowhere is left as it is. */
  lemma InsertDollarsNoMatch(title: string)
    requires forall k, n :: 0 <= k < |title| ==> !VarMatch(title[k..], n)
    ensures InsertDollars(title) == title
  {
    SubAllNoMatch(title, VarLen, WrapDollars);
  }

  /** The pattern matches nowhere in `u`. */
  predicate Clean(u: string) {
    forall k :: 0 <= k < |u| ==> VarLen(u[k..]) == 0
  }

  predicate NotOpenBrace(c: char) { c != '{' }

  /** A match holds no '{' after its first character. */
  lemma VarMatchBraceFree(t: string, n: nat)
    requires VarMatch(t, n)
    ensures forall i :: 1 <= i < n ==> t[i] != '{'
  {
    forall i | 1 <= i < n ensures t[i] != '{' {
      if i < 5 {
        assert t[1..5][i - 1] == t[i];
      } else if i < n - 1 {
        assert t[5..n - 1][i - 5] == t[i];
      }
    }
  }

  /** A match is seen by any text that agrees with it up to its end. */
  lemma VarMatchTransfer(x: string, y: string, n: nat)
    requires VarMatch(x, n) && n <= |y| && x[..n] == y[..n]
    ensures VarMatch(y, n)
  {
    forall i | 0 <= i < n ensures y[i] == x[i] {
      assert x[..n][i] == x[i] && y[..n][i] == y[i];
    }
    assert y[1..5] == x[1..5];
    assert y[5..n - 1] == x[5..n - 1];
  }

  /** Whether a match starts at the head of a string depends only on the text
      up to the next '{' (or the end). */
  lemma VarLenLocal(x: string, y: string, j: nat)
    requires 1 <= j <= |x| && j <= |y| && x[..j] == y[..j]
    requires j == |x| || x[j] == '{'
    requires j == |y| || y[j] == '{'
    ensures VarLen(x) == VarLen(y)
  {
    var nx := VarLen(x);
    var ny := VarLen(y);
    if nx > 0 {
      VarMatchBraceFree(x, nx);
      assert nx <= j;
      assert x[..nx] == x[..j][..nx] == y[..j][..nx] == y[..nx];
      VarMatchTransfer(x, y, nx);
      VarLenComplete(y, nx);
    } else if ny > 0 {
      VarMatchBraceFree(y, ny);
      assert ny <= j;
      assert y[..ny] == y[..j][..ny] == x[..j][..ny] == x[..ny];
      VarMatchTransfer(y, x, ny);
      VarLenComplete(x, ny);
    }
  }

  /** The rewriting keeps the first character of a non-empty text. */
  lemma InsertDollarsHead(t: string)
    requires t != []
    ensures InsertDollars(t) != [] && InsertDollars(t)[0] == t[0]
  {
    var n := VarLen(t);
    if 0 < n <= |t| {
      assert t[..n][0] == t[0];
    }
  }

  /** Text before the next '{' is copied. */
  lemma InsertDollarsUpToBrace(t: string, j: nat)
    requires j <= |t| && forall i :: 0 <= i < j ==> t[i] != '{'
    ensures InsertDollars(t) == t[..j] + InsertDollars(t[j..])
  {
    assert t == t[..j] + t[j..];
    forall k | 0 <= k < |t[..j]| ensures VarLen((t[..j] + t[j..])[k..]) == 0 {
      assert (t[..j] + t[j..])[k..][0] == t[k];
    }
    SubAllCopiedPrefix(t[..j], t[j..], VarLen, WrapDollars);
  }

  /** A wrapped group followed by clean text is clean. */
  lemma CleanAfterWrap(s: string)
    requires 0 < VarLen(s) <= |s|
    requires Clean(InsertDollars(s[VarLen(s)..]))
    ensures Clean(InsertDollars(s))
  {
    var out := InsertDollars(s);
    var n := VarLen(s);
    var d := WrapDollars(s[..n]);
    var r := InsertDollars(s[n..]);
    assert out == d + r;
    VarMatchBraceFree(s, n);
    forall k | 0 <= k < |out| ensures VarLen(out[k..]) == 0 {
      if k >= |d| {
        assert out[k..] == r[k - |d|..];
      } else if k == 0 {
        assert out[1] == '$';
      } else {
        assert out[k..][0] == out[k] == d[k];
        if 2 <= k < |d| - 2 {
          assert d[k] == s[k - 1];
        }
      }
    }
  }

  /** Where no match starts at the head, none starts at the head of the output either. */
  lemma HeadStaysUnmatched(s: string)
    requires s != [] && VarLen(s) == 0
    ensures VarLen(InsertDollars(s)) == 0
  {
    var out := InsertDollars(s);
    var t := s[1..];
    assert out == [s[0]] + InsertDollars(t);
    if s[0] == '{' {
      var j := Span(t, 0, NotOpenBrace);
      InsertDollarsUpToBrace(t, j);
      var z := InsertDollars(t[j..]);
      if t[j..] != [] {
        InsertDollarsHead(t[j..]);
      }
      var p := [s[0]] + t[..j];
      assert s == p + t[j..] by {
        assert t == t[..j] + t[j..];
        ConcatAssoc([s[0]], t[..j], t[j..]);
      }
      assert out == p + z by {
        ConcatAssoc([s[0]], t[..j], z);
      }
      assert s[..j + 1] == p == out[..j + 1];
      VarLenLocal(s, out, j + 1);
    }
  }

  /** A copied character followed by clean text leaves the text clean. */
  lemma CleanAfterCopy(s: string)
    requires s != [] && VarLen(s) == 0
    requires Clean(InsertDollars(s[1..]))
    ensures Clean(InsertDollars(s))
  {
    var out := InsertDollars(s);
    var r := InsertDollars(s[1..]);
    assert out == [s[0]] + r;
    HeadStaysUnmatched(s);
    forall k | 1 <= k < |out| ensures VarLen(out[k..]) == 0 {
      assert out[k..] == r[k - 1..];
    }
    assert out[0..] == out;
  }

  /** After the rewriting, the pattern matches nowhere. */
  lemma {:induction false} InsertDollarsClean(s: string)
    ensures Clean(InsertDollars(s))
    decreases |s|
  {
    if s != [] {
      var n := VarLen(s);
      if 0 < n <= |s| {
        InsertDollarsClean(s[n..]);
        CleanAfterWrap(s);
      } else {
        InsertDollarsClean(s[1..]);
        CleanAfterCopy(s);
      }
    }
  }

  /** `insert_dollars` of doi2bib2 is idempotent: a second pass finds nothing to wrap. */
  lemma InsertDollarsIdempotent(title: string)
    ensures InsertDollars(InsertDollars(title)) == InsertDollars(title)
  {
    var u := InsertDollars(title);
    InsertDollarsClean(title);
    SubAllNoMatch(u, VarLen, WrapDollars);
  }

  // ---------------------------------------------------------------------------
  // doi2bib3/utils.py, as written

  /** `t[..n]` is a match of `\\\{\\var[A-Z]?[a-z]*\\\}`: the characters
      backslash, '{', backslash, "var", a name, backslash, '}'. */
  predicate Var3Match(t: string, n: nat) {
    && 8 <= n <= |t|
    && t[..6] == "\\{\\var" && t[n - 2..n] == "\\}"
    && VarName(t[6..n - 2])
  }

  function Var3Len(t: string): (n: nat)
    ensures n > 0 ==> Var3Match(t, n)
  {
    if 8 <= |t| && t[..6] == "\\{\\var" then
      var k := if IsUpper(t[6]) then 7 else 6;
      var m := k + Span(t, k, IsLower);
      if m + 1 < |t| && t[m] == '\\' && t[m + 1] == '}' then
        VarNameOfRun(t, 6, k, m);
        assert t[m..m + 2] == "\\}";
        m + 2
      else 0
    else 0
  }

  /** The replacement template `\\1$\\2$\\3` of a raw string: literal text. */
  const LiteralTemplate: string := "\\1$\\2$\\3"

  function InsertDollars3(title: string): string {
    SubAll(title, Var3Len, (m: string) => LiteralTemplate)
  }

  /** Every match is the one `Var3Len` finds. */
  lemma Var3LenComplete(t: string, n: nat)
    requires Var3Match(t, n)
    ensures Var3Len(t) == n
  {
    var w := t[6..n - 2];
    forall i | 0 <= i < |w| ensures w[i] == t[i + 6] {
    }
    assert t[n - 2] == t[n - 2..n][0] == '\\';
    assert t[n - 1] == t[n - 2..n][1] == '}';
    if |w| > 0 && IsUpper(w[0]) {
      forall j | 7 <= j < n - 2 ensures IsLower(t[j]) {
        assert t[j] == w[j - 6];
      }
      SpanUnique(t, 7, IsLower, n - 9);
    } else {
      forall j | 6 <= j < n - 2 ensures IsLower(t[j]) {
        assert t[j] == w[j - 6];
      }
      SpanUnique(t, 6, IsLower, n - 8);
    }
  }

  /** Only the literal text `\{\var...\}` is rewritten, and it becomes the
      eight characters `\1$\2$\3`. */
  lemma InsertDollars3Literal(w: string, rest: string)
    requires VarName(w)
    ensures InsertDollars3("\\{\\var" + w + "\\}" + rest) == LiteralTemplate + InsertDollars3(rest)
  {
    var g := "\\{\\var" + w + "\\}";
    var t := g + rest;
    var n := |g|;
    assert t[..n] == g && t[n..] == rest;
    assert t[..6] == "\\{\\var" && t[n - 2..n] == "\\}";
    assert t[6..n - 2] == w;
    Var3LenComplete(t, n);
  }

  /** A title without a backslash directly before a '{' is left as it is. */
  lemma InsertDollars3NoEscapedBrace(title: string)
    requires forall i :: 0 <= i < |title| - 1 ==> !(title[i] == '\\' && title[i + 1] == '{')
    ensures InsertDollars3(title) == title
  {
    forall k | 0 <= k < |title|
      ensures !(0 < Var3Len(title[k..]) <= |title| - k)
    {
      var t := title[k..];
      if 8 <= |t| {
        assert t[0] == title[k] && t[1] == title[k + 1];
        assert t[..6][0] == t[0] && t[..6][1] == t[1];
      }
    }
    SubAllNoMatch(title, Var3Len, (m: string) => LiteralTemplate);
  }

  /** So, as written, doi2bib3 leaves "{\varX}" alone where the other copies wrap it. */
  lemma InsertDollars3KeepsBraceVar(w: string)
    requires VarName(w)
    ensures InsertDollars3("{\\var" + w + "}") == "{\\var" + w + "}"
    ensures InsertDollars("{\\var" + w + "}") == "{$\\var" + w + "$}"
  {
    var g := "{\\var" + w + "}";
    forall i | 0 <= i < |g| - 1 ensures !(g[i] == '\\' && g[i + 1] == '{') {
      if 5 <= i < |g| - 1 {
        assert g[i] == w[i - 5];
      }
    }
    InsertDollars3NoEscapedBrace(g);
    InsertDollarsWraps(w, "");
    assert g + "" == g;
    assert "{$\\var" + w + "$}" + "" == "{$\\var" + w + "$}";
  }
}
