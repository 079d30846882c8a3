/**
 * The pieces of Python's `str` that the resolver and the normalizer use:
 * `isspace`, `lower` (ASCII case folding), `strip`, `startswith`, `in`,
 * `replace`, and `urllib.parse.unquote` (one character per `%XX`).
 */
module Text {

  /** Python's `str.isspace` on ASCII: tab, newline, vertical tab, form feed,
      carriage return, the four separators 0x1C-0x1F, and space. */
  predicate IsSpace(c: char) {
    (9 <= c as int <= 13) || (28 <= c as int <= 32)
  }

  predicate IsDigit(c: char) { '0' <= c <= '9' }
  predicate IsUpper(c: char) { 'A' <= c <= 'Z' }
  predicate IsLower(c: char) { 'a' <= c <= 'z' }
  predicate IsLetter(c: char) { IsUpper(c) || IsLower(c) }
  /** Regex `\w`: letters, digits and underscore. */
  predicate IsWordChar(c: char) { IsLetter(c) || IsDigit(c) || c == '_' }
  predicate NotNewline(c: char) { c != '\n' }

  /** A non-empty run of digits (regex `\d+` on the whole string). */
  predicate IsDigits(s: string) {
    |s| > 0 && forall i :: 0 <= i < |s| ==> IsDigit(s[i])
  }

  function LowerChar(c: char): char {
    if IsUpper(c) then (c as int + 32) as char else c
  }

  function LowerStr(s: string): (r: string)
    ensures |r| == |s|
  {
    seq(|s|, i requires 0 <= i < |s| => LowerChar(s[i]))
  }

  predicate StartsWith(s: string, prefix: string) {
    |prefix| <= |s| && s[..|prefix|] == prefix
  }

  predicate EndsWith(s: string, suffix: string) {
    |suffix| <= |s| && s[|s| - |suffix|..] == suffix
  }

  /** `needle` occurs in `haystack` at index `i`. */
  predicate OccursAt(haystack: string, needle: string, i: int) {
    0 <= i <= |haystack| - |needle| && haystack[i..i + |needle|] == needle
  }

  /** Two needles that differ at index `k` do not both occur at `i`. */
  lemma OccursAtDiffer(haystack: string, p: string, q: string, i: int, k: nat)
    requires OccursAt(haystack, p, i) && k < |p| && k < |q| && p[k] != q[k]
    ensures !OccursAt(haystack, q, i)
  {
    assert haystack[i..i + |p|][k] == haystack[i + k];
    if i <= |haystack| - |q| {
      assert haystack[i..i + |q|][k] == haystack[i + k];
    }
  }

  /** Python's `needle in haystack` on strings. */
  predicate Contains(haystack: string, needle: string) {
    exists i :: 0 <= i <= |haystack| - |needle| && OccursAt(haystack, needle, i)
  }

  /** `s.lstrip()`. */
  function LStrip(s: string): (r: string)
    ensures |r| <= |s| && r == s[|s| - |r|..]
    ensures r == [] || !IsSpace(r[0])
    ensures forall i :: 0 <= i < |s| - |r| ==> IsSpace(s[i])
    decreases |s|
  {
    if |s| > 0 && IsSpace(s[0]) then LStrip(s[1..]) else s
  }

  /** `s.rstrip()`. */
  function RStrip(s: string): (r: string)
    ensures |r| <= |s| && r == s[..|r|]
    ensures r == [] || !IsSpace(r[|r| - 1])
    ensures forall i :: |r| <= i < |s| ==> IsSpace(s[i])
    decreases |s|
  {
    if |s| > 0 && IsSpace(s[|s| - 1]) then RStrip(s[..|s| - 1]) else s
  }

  /** `r` is `s` with whitespace cut off on the left up to index `a` and on the right. */
  predicate TrimmedAt(s: string, r: string, a: int) {
    && 0 <= a <= |s| - |r| && r == s[a..a + |r|]
    && (forall i :: 0 <= i < a ==> IsSpace(s[i]))
    && (forall i :: a + |r| <= i < |s| ==> IsSpace(s[i]))
  }

  /** Stripping the right and then the left cuts only whitespace. */
  lemma TrimmedOfParts(s: string, t: string, r: string)
    requires |t| <= |s| && t == s[..|t|]
    requires forall i :: |t| <= i < |s| ==> IsSpace(s[i])
    requires |r| <= |t| && r == t[|t| - |r|..]
    requires forall i :: 0 <= i < |t| - |r| ==> IsSpace(t[i])
    ensures TrimmedAt(s, r, |t| - |r|)
    ensures r != [] ==> r[|r| - 1] == t[|t| - 1]
  {
    var a := |t| - |r|;
    assert s[..|t|][a..] == s[a..|t|];
    forall i | 0 <= i < a ensures IsSpace(s[i]) {
      assert t[i] == s[i];
    }
  }

  /** `s.strip()`: a slice of `s` that neither starts nor ends with whitespace,
      with only whitespace cut off on either side. */
  function Strip(s: string): (r: string)
    ensures r == [] || (!IsSpace(r[0]) && !IsSpace(r[|r| - 1]))
    ensures exists a :: TrimmedAt(s, r, a)
  {
    var t := RStrip(s);
    var r := LStrip(t);
    TrimmedOfParts(s, t, r);
    r
  }

  /** `s.lstrip(c)`: drops every leading `c`. */
  function LStripChar(s: string, c: char): (r: string)
    ensures |r| <= |s| && r == s[|s| - |r|..]
    ensures r == [] || r[0] != c
    ensures forall i :: 0 <= i < |s| - |r| ==> s[i] == c
    decreases |s|
  {
    if |s| > 0 && s[0] == c then LStripChar(s[1..], c) else s
  }

  /** `s.replace(pat, rep)`: every non-overlapping occurrence of `pat`,
      scanning from the left, becomes `rep`. */
  function ReplaceAll(s: string, pat: string, rep: string): string
    requires pat != []
    decreases |s|
  {
    if |s| < |pat| then s
    else if s[..|pat|] == pat then rep + ReplaceAll(s[|pat|..], pat, rep)
    else [s[0]] + ReplaceAll(s[1..], pat, rep)
  }

  /** Character-wise substitution: every `c` becomes `w`, other characters stay in place. */
  function MapChars(s: string, c: char, w: string): string
    decreases |s|
  {
    if s == [] then [] else (if s[0] == c then w else [s[0]]) + MapChars(s[1..], c, w)
  }

  predicate IsHexDigit(c: char) {
    IsDigit(c) || ('a' <= c <= 'f') || ('A' <= c <= 'F')
  }

  function HexValue(c: char): (v: nat)
    requires IsHexDigit(c)
    ensures v < 16
  {
    if IsDigit(c) then c as int - '0' as int
    else if 'a' <= c <= 'f' then c as int - 'a' as int + 10
    else c as int - 'A' as int + 10
  }

  /** `urllib.parse.unquote`: each `%XX` with two hex digits stands for the
      character with code 0xXX; any other `%` is kept. */
  function Unquote(s: string): (r: string)
    ensures |r| <= |s|
    decreases |s|
  {
    if |s| >= 3 && s[0] == '%' && IsHexDigit(s[1]) && IsHexDigit(s[2]) then
      [(16 * HexValue(s[1]) + HexValue(s[2])) as char] + Unquote(s[3..])
    else if s == [] then []
    else [s[0]] + Unquote(s[1..])
  }

  const HexDigits: string := "0123456789ABCDEF"

  predicate IsLatin1(s: string) {
    forall i :: 0 <= i < |s| ==> s[i] as int < 256
  }

  /** The percent-encoding of every character (`urllib.parse.quote` with no safe
      characters, restricted to code points below 256): the partner of `Unquote`. */
  function PercentEncode(s: string): (r: string)
    requires IsLatin1(s)
    ensures |r| == 3 * |s|
    decreases |s|
  {
    if s == [] then []
    else ['%', HexDigits[s[0] as int / 16], HexDigits[s[0] as int % 16]] + PercentEncode(s[1..])
  }

  // ---------------------------------------------------------------------------
  // Lemmas

  /** A prefix is decided by its first character when that one differs. */
  lemma NotPrefixByHead(s: string, p: string)
    requires p != [] && (s == [] || s[0] != p[0])
    ensures !StartsWith(s, p)
  {
    if |p| <= |s| {
      assert s[..|p|][0] == s[0];
    }
  }

  lemma ConcatAssoc(a: string, b: string, c: string)
    ensures a + (b + c) == (a + b) + c
  {
  }

  /** When each output from `i` to `j` is a copied character followed by the
      next output, the output at `i` is `s[i..j]` followed by the output at `j`. */
  lemma {:induction false} CopiedRun(s: string, outs: nat -> string, i: nat, j: nat)
    requires i <= j <= |s|
    requires forall k :: i <= k < j ==> outs(k) == [s[k]] + outs(k + 1)
    ensures outs(i) == s[i..j] + outs(j)
    decreases j - i
  {
    if i < j {
      CopiedRun(s, outs, i + 1, j);
      assert s[i..j] == [s[i]] + s[i + 1..j];
    }
  }

  lemma LowerConcat(a: string, b: string)
    ensures LowerStr(a + b) == LowerStr(a) + LowerStr(b)
  {
  }

  /** Text without capitals is its own lower case. */
  lemma LowerNoCapitals(s: string)
    requires forall i :: 0 <= i < |s| ==> !IsUpper(s[i])
    ensures LowerStr(s) == s
  {
  }

  /** A text contains each of its suffixes. */
  lemma ContainsSuffix(s: string, p: string, a: string)
    requires s == a + p
    ensures Contains(s, p)
  {
    assert s[|a|..|a| + |p|] == p;
    assert OccursAt(s, p, |a|);
  }

  lemma LowerAt(s: string, i: nat)
    requires i < |s|
    ensures LowerStr(s)[i] == LowerChar(s[i])
  {
  }

  lemma LowerHead(s: string)
    requires s != []
    ensures LowerStr(s)[0] == LowerChar(s[0])
  {
  }

  /** `strip` leaves a string alone exactly when it has no surrounding whitespace. */
  lemma StripNoop(s: string)
    requires s == [] || (!IsSpace(s[0]) && !IsSpace(s[|s| - 1]))
    ensures Strip(s) == s
  {
  }

  lemma {:induction false} RStripUnique(u: string, w: string)
    requires u == [] || !IsSpace(u[|u| - 1])
    requires forall i :: 0 <= i < |w| ==> IsSpace(w[i])
    ensures RStrip(u + w) == u
    decreases |w|
  {
    if w != [] {
      assert (u + w)[..|u + w| - 1] == u + w[..|w| - 1];
      RStripUnique(u, w[..|w| - 1]);
    } else {
      assert u + w == u;
    }
  }

  lemma {:induction false} LStripUnique(w: string, u: string)
    requires u == [] || !IsSpace(u[0])
    requires forall i :: 0 <= i < |w| ==> IsSpace(w[i])
    ensures LStrip(w + u) == u
    decreases |w|
  {
    if w != [] {
      assert (w + u)[1..] == w[1..] + u;
      LStripUnique(w[1..], u);
    } else {
      assert w + u == u;
    }
  }

  /** `strip` keeps a first character that is not a blank. */
  lemma StripHead(s: string)
    requires s != [] && !IsSpace(s[0])
    ensures Strip(s) != [] && Strip(s)[0] == s[0]
  {
    var r := Strip(s);
    var a :| TrimmedAt(s, r, a);
  }

  /** Blanks on both sides of a non-blank core are what `strip` removes. */
  lemma StripAround(pre: string, core: string, post: string)
    requires core != [] && !IsSpace(core[0]) && !IsSpace(core[|core| - 1])
    requires forall i :: 0 <= i < |pre| ==> IsSpace(pre[i])
    requires forall i :: 0 <= i < |post| ==> IsSpace(post[i])
    ensures Strip(pre + core + post) == core
  {
    RStripUnique(pre + core, post);
    LStripUnique(pre, core);
  }

  /** Python's `replace` of a single character is a character-wise map. */
  lemma {:induction false} ReplaceCharIsMapChars(s: string, c: char, w: string)
    ensures ReplaceAll(s, [c], w) == MapChars(s, c, w)
    decreases |s|
  {
    if s != [] {
      ReplaceCharIsMapChars(s[1..], c, w);
    }
  }

  /** What a character-wise map leaves in the string: the other characters,
      and the replacement if `c` occurred. */
  lemma {:induction false} MapCharsMembers(s: string, c: char, w: string, d: char)
    ensures d in MapChars(s, c, w) <==> (d in s && d != c) || (c in s && d in w)
    decreases |s|
  {
    if s != [] {
      MapCharsMembers(s[1..], c, w, d);
      assert s == [s[0]] + s[1..];
    }
  }

  /** A character-wise map works piece by piece. */
  lemma {:induction false} MapCharsConcat(x: string, y: string, c: char, w: string)
    ensures MapChars(x + y, c, w) == MapChars(x, c, w) + MapChars(y, c, w)
    decreases |x|
  {
    if x != [] {
      assert (x + y)[0] == x[0];
      assert (x + y)[1..] == x[1..] + y;
      MapCharsConcat(x[1..], y, c, w);
    } else {
      assert x + y == y;
    }
  }

  /** A string without `c` is left alone. */
  lemma {:induction false} MapCharsAbsent(s: string, c: char, w: string)
    requires c !in s
    ensures MapChars(s, c, w) == s
    decreases |s|
  {
    if s != [] {
      assert c !in s[1..];
      MapCharsAbsent(s[1..], c, w);
    }
  }

  /** Deleting `c` keeps every other character with its multiplicity. */
  lemma {:induction false} MapCharsDelete(s: string, c: char)
    ensures multiset(MapChars(s, c, "")) == multiset(s)[c := 0]
    decreases |s|
  {
    if s != [] {
      MapCharsDelete(s[1..], c);
      assert s == [s[0]] + s[1..];
      assert multiset(s) == multiset{s[0]} + multiset(s[1..]);
    }
  }

  /** Where `c` occurs, its replacement occurs in the result. */
  lemma {:induction false} MapCharsShowsReplacement(s: string, c: char, w: string)
    requires c in s
    ensures Contains(MapChars(s, c, w), w)
    decreases |s|
  {
    var r := MapChars(s, c, w);
    if s[0] == c {
      assert r[..|w|] == w;
      assert OccursAt(r, w, 0);
    } else {
      MapCharsShowsReplacement(s[1..], c, w);
      var r1 := MapChars(s[1..], c, w);
      var i :| 0 <= i <= |r1| - |w| && OccursAt(r1, w, i);
      assert r == [s[0]] + r1;
      assert r[i + 1..i + 1 + |w|] == r1[i..i + |w|];
      assert OccursAt(r, w, i + 1);
    }
  }

  /** `replace` introduces no character other than those of the replacement. */
  lemma {:induction false} ReplaceAllMembers(s: string, pat: string, rep: string, d: char)
    requires pat != []
    ensures d in ReplaceAll(s, pat, rep) ==> d in s || d in rep
    decreases |s|
  {
    if |s| >= |pat| {
      if s[..|pat|] == pat {
        ReplaceAllMembers(s[|pat|..], pat, rep, d);
        assert d in s[|pat|..] ==> d in s;
      } else {
        ReplaceAllMembers(s[1..], pat, rep, d);
        assert d in s[1..] ==> d in s;
      }
    }
  }

  /** A string without `%` is its own percent-decoding. */
  lemma {:induction false} UnquoteNoPercent(s: string)
    requires '%' !in s
    ensures Unquote(s) == s
    decreases |s|
  {
    if s != [] {
      assert s[0] != '%';
      assert '%' !in s[1..];
      UnquoteNoPercent(s[1..]);
    }
  }

  /** A prefix without `%` is copied, and decoding continues after it. */
  lemma {:induction false} UnquoteAfterPlain(a: string, b: string)
    requires '%' !in a
    ensures Unquote(a + b) == a + Unquote(b)
    decreases |a|
  {
    if a != [] {
      assert (a + b)[0] == a[0];
      assert (a + b)[1..] == a[1..] + b;
      assert '%' !in a[1..];
      UnquoteAfterPlain(a[1..], b);
    } else {
      assert a + b == b;
    }
  }

  lemma HexDigitsRoundTrip(n: nat)
    requires n < 16
    ensures IsHexDigit(HexDigits[n]) && HexValue(HexDigits[n]) == n
  {
  }

  /** A percent sign and two hex digits decode to one character. */
  lemma UnquoteEscape(h1: char, h2: char, rest: string)
    requires IsHexDigit(h1) && IsHexDigit(h2)
    ensures Unquote(['%', h1, h2] + rest) == [(16 * HexValue(h1) + HexValue(h2)) as char] + Unquote(rest)
  {
    var e := ['%', h1, h2] + rest;
    assert e[3..] == rest;
  }

  /** Decoding undoes percent-encoding. */
  lemma {:induction false} UnquotePercentEncode(s: string)
    requires IsLatin1(s)
    ensures Unquote(PercentEncode(s)) == s
    decreases |s|
  {
    if s != [] {
      var n := s[0] as int;
      var h1, h2 := HexDigits[n / 16], HexDigits[n % 16];
      HexDigitsRoundTrip(n / 16);
      HexDigitsRoundTrip(n % 16);
      assert PercentEncode(s) == ['%', h1, h2] + PercentEncode(s[1..]);
      UnquoteEscape(h1, h2, PercentEncode(s[1..]));
      UnquotePercentEncode(s[1..]);
      assert (16 * (n / 16) + n % 16) as char == s[0];
      assert s == [s[0]] + s[1..];
    }
  }
}
