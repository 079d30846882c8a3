/**
 * The per-field rules of `normalize_bibtex`, as pure functions on one field
 * value. doi2bib2/utils.py and bib_utils.py behave identically; the copy in
 * doi2bib3/utils.py differs in its `pages` rule and in its `VAR_RE`, so
 * those two rules exist in both forms and `Variant` picks one.
 */
module BibRules {
  import opened Results
  import opened Text
  import opened Regex

  /** Which copy of the normalizer: doi2bib2/utils.py and bib_utils.py, or doi2bib3/utils.py. */
  datatype Variant = Doi2bib2 | Doi2bib3

  // ---------------------------------------------------------------------------
  // ID

  /** `entry['ID'].replace('_', '')`. */
  function StripUnderscores(id: string): (r: string)
    ensures '_' !in r
    ensures multiset(r) == multiset(id)['_' := 0]
  {
    MapCharsMembers(id, '_', "", '_');
    MapCharsDelete(id, '_');
    MapChars(id, '_', "")
  }

  /** Deleting underscores keeps the order of the other characters: it works
      piece by piece and leaves underscore-free text alone. */
  lemma StripUnderscoresKeepsRest(x: string, y: string)
    requires '_' !in x
    ensures StripUnderscores(x + y) == x + StripUnderscores(y)
    ensures StripUnderscores(x + "_" + y) == x + StripUnderscores(y)
  {
    MapCharsConcat(x, y, '_', "");
    MapCharsAbsent(x, '_', "");
    var u := "_" + y;
    assert u[0] == '_' && u[1..] == y;
    assert MapChars(u, '_', "") == MapChars(y, '_', "");
    assert x + "_" + y == x + u;
    MapCharsConcat(x, u, '_', "");
  }

  // ---------------------------------------------------------------------------
  // pages, doi2bib2/utils.py and bib_utils.py

  /** The `pages` rule of doi2bib2 on a present value; None means the key is
      removed. An empty value is falsy and left alone. */
  function Pages2(v: string): Option<string> {
    if v == "" then Some(v)
    else if LowerStr(v) == "n/a-n/a" then None
    else if !Contains(v, "--") then Some(MapChars(v, '-', "--"))
    else Some(v)
  }

  /** Exactly the values equal to "n/a-n/a" ignoring case lose the key; an
      empty value or one already holding "--" stays as it is; any other value
      has each '-' doubled. */
  lemma Pages2Cases(v: string)
    ensures Pages2(v).None? <==> LowerStr(v) == "n/a-n/a"
    ensures v == "" || Contains(v, "--") ==> Pages2(v) == Some(v)
    ensures v != "" && LowerStr(v) != "n/a-n/a" && !Contains(v, "--") ==>
      Pages2(v) == Some(MapChars(v, '-', "--"))
  {
    if Contains(v, "--") {
      NotApplicableHasNoDoubleHyphen(v);
    }
  }

  /** "n/a-n/a" holds no double hyphen, in any case. */
  lemma NotApplicableHasNoDoubleHyphen(u: string)
    requires Contains(u, "--")
    ensures LowerStr(u) != "n/a-n/a"
  {
    var i :| 0 <= i <= |u| - 2 && OccursAt(u, "--", i);
    assert u[i..i + 2][0] == u[i] && u[i..i + 2][1] == u[i + 1];
    assert LowerStr(u)[i] == '-' && LowerStr(u)[i + 1] == '-';
  }

  /** Applying the doi2bib2 `pages` rule again changes nothing. */
  lemma Pages2Idempotent(v: string)
    requires Pages2(v).Some?
    ensures Pages2(Pages2(v).value) == Pages2(v)
  {
    if v != "" && !Contains(v, "--") {
      var u := MapChars(v, '-', "--");
      if '-' in v {
        MapCharsShowsReplacement(v, '-', "--");
        NotApplicableHasNoDoubleHyphen(u);
        MapCharsConcat([v[0]], v[1..], '-', "--");
        assert v == [v[0]] + v[1..];
        assert u != "";
      } else {
        MapCharsAbsent(v, '-', "--");
      }
    }
  }

  /** A string with '-' only at index `i`. */
  lemma SingleHyphenAt(s: string, i: nat)
    requires i < |s| && s[i] == '-'
    requires forall j :: 0 <= j < |s| && j != i ==> s[j] != '-'
    ensures !Contains(s, "--")
  {
    forall j | 0 <= j <= |s| - 2
      ensures !OccursAt(s, "--", j)
    {
      assert s[j..j + 2][0] == s[j] && s[j..j + 2][1] == s[j + 1];
    }
  }

  /** A digit range "100-110" becomes "100--110". */
  lemma Pages2Range(a: string, b: string)
    requires IsDigits(a) && IsDigits(b)
    ensures Pages2(a + "-" + b) == Some(a + "--" + b)
  {
    var s := a + "-" + b;
    forall j | 0 <= j < |s| && j != |a| ensures s[j] != '-' {
      if j < |a| { assert s[j] == a[j]; } else { assert s[j] == b[j - |a| - 1]; }
    }
    SingleHyphenAt(s, |a|);
    assert LowerStr(s)[0] == s[0] == a[0];
    assert Pages2(s) == Some(MapChars(s, '-', "--"));
    MapCharsConcat(a + "-", b, '-', "--");
    MapCharsConcat(a, "-", '-', "--");
    MapCharsAbsent(a, '-', "--");
    MapCharsAbsent(b, '-', "--");
    assert MapChars("-", '-', "--") == "--";
  }

  /** Every hyphen is doubled, so "1-2-3" becomes "1--2--3". */
  lemma Pages2TwoHyphens(a: string, b: string, c: string)
    requires IsDigits(a) && IsDigits(b) && IsDigits(c)
    ensures Pages2(a + "-" + b + "-" + c) == Some(a + "--" + b + "--" + c)
  {
    var s := a + "-" + b + "-" + c;
    forall j | 0 <= j <= |s| - 2
      ensures !OccursAt(s, "--", j)
    {
      assert s[j..j + 2][0] == s[j] && s[j..j + 2][1] == s[j + 1];
    }
    assert LowerStr(s)[0] == s[0] == a[0];
    MapCharsConcat(a + "-" + b + "-", c, '-', "--");
    MapCharsConcat(a + "-" + b, "-", '-', "--");
    MapCharsConcat(a + "-", b, '-', "--");
    MapCharsConcat(a, "-", '-', "--");
    MapCharsAbsent(a, '-', "--");
    MapCharsAbsent(b, '-', "--");
    MapCharsAbsent(c, '-', "--");
    assert MapChars("-", '-', "--") == "--";
  }

  // ---------------------------------------------------------------------------
  // month

  /** `month` is trimmed, then one outer brace pair is taken off. */
  function Month(v: string): string {
    var t := Strip(v);
    if Braced(t) then t[1..|t| - 1] else t
  }

  /** `t.startswith('{') and t.endswith('}')`; one character cannot be both. */
  predicate Braced(t: string) {
    2 <= |t| && t[0] == '{' && t[|t| - 1] == '}'
  }

  /** Surrounding blanks go first, then one pair of braces:
      " {January} " gives "January". */
  lemma MonthUnbraces(w: string, pre: string, post: string)
    requires forall i :: 0 <= i < |pre| ==> IsSpace(pre[i])
    requires forall i :: 0 <= i < |post| ==> IsSpace(post[i])
    ensures Month(pre + "{" + w + "}" + post) == w
  {
    var core := "{" + w + "}";
    assert pre + "{" + w + "}" + post == pre + core + post;
    StripAround(pre, core, post);
    BracedInner(w);
  }

  lemma BracedInner(w: string)
    ensures Braced("{" + w + "}") && ("{" + w + "}")[1..|w| + 1] == w
  {
  }

  /** Only one pair goes: "{{Jan}}" gives "{Jan}". */
  lemma MonthOneLayer(w: string)
    ensures Month("{{" + w + "}}") == "{" + w + "}"
  {
    assert "{{" + w + "}}" == [] + "{" + ("{" + w + "}") + "}" + [];
    MonthUnbraces("{" + w + "}", [], []);
  }

  /** So the month rule is not idempotent: a second pass takes off the next pair. */
  lemma MonthNotIdempotent(w: string)
    ensures Month(Month("{{" + w + "}}")) == w != Month("{{" + w + "}}")
  {
    MonthOneLayer(w);
    assert "{" + w + "}" == [] + "{" + w + "}" + [];
    MonthUnbraces(w, [], []);
    assert |"{" + w + "}"| != |w|;
  }

  /** A month whose trimmed value is not braced is only trimmed. */
  lemma MonthUnbraced(v: string)
    requires !Braced(Strip(v))
    ensures Month(v) == Strip(v)
  {
  }

  // ---------------------------------------------------------------------------
  // url

  /** `url` is percent-decoded once. */
  function Url(v: string): (r: string)
    ensures '%' !in v ==> r == v
  {
    if '%' !in v then UnquoteNoPercent(v); Unquote(v) else Unquote(v)
  }

  /** A URL holding "%2541" decodes to "%41", and decoding that again gives
      "A": the `url` rule is not idempotent. */
  lemma UrlNotIdempotent()
    ensures Url("%2541") == "%41"
    ensures Url(Url("%2541")) == "A"
  {
    assert "%2541"[3..] == "41";
    assert "%41"[3..] == [];
  }

  // ---------------------------------------------------------------------------
  // pages, doi2bib3/utils.py

  /** The trimmed, lowercased values that stand for "no pages". */
  predicate NotApplicable(v: string) {
    LowerStr(Strip(v)) in ["n/a-n/a", "na-na", "n/a", "na"]
  }

  const EnDash: char := '\U{2013}'
  const EmDash: char := '\U{2014}'

  /** One line of `p.replace('\u2013', '--').replace('\u2014', '--')`. */
  function Dashes(p: string): string {
    MapChars(MapChars(p, EnDash, "--"), EmDash, "--")
  }

  predicate IsDashChar(c: char) { c == '-' || c == EnDash || c == EmDash }

  /** `(?<=\d)\s*-[\u2013\u2014-]?\s*(?=\d)` tried at index `i` of `p`: the
      look-behind reads the character before `i`; the end of the match when
      there is one. */
  function DigitRangeAt(p: string, i: nat): (r: Option<nat>)
    requires i <= |p|
    ensures r.Some? ==> DigitRangeMatch(p, i, r.value)
  {
    if i == 0 || !IsDigit(p[i - 1]) then None
    else
      var a := i + Span(p, i, IsSpace);
      if a == |p| || p[a] != '-' then None
      else
        var k := if a + 1 < |p| && IsDashChar(p[a + 1]) then a + 2 else a + 1;
        var b := k + Span(p, k, IsSpace);
        if b < |p| && IsDigit(p[b]) then
          assert DashAt(p, i, a, k, b);
          Some(b)
        else None
  }

  /** Every match of the pattern at `i` is the one `DigitRangeAt` reports. */
  lemma DigitRangeAtComplete(p: string, i: nat, e: nat)
    requires i <= |p| && DigitRangeMatch(p, i, e)
    ensures DigitRangeAt(p, i) == Some(e)
  {
    var a: nat, k: nat :| DashAt(p, i, a, k, e);
    SpanUnique(p, i, IsSpace, a - i);
    if k == a + 1 && IsDashChar(p[a + 1]) {
      assert false;
    }
    SpanUnique(p, k, IsSpace, e - k);
  }

  /** The parts of one match: blanks in `i..a`, the hyphen at `a`, an optional
      dash before `k`, blanks in `k..b`, and a digit after `b`. */
  predicate DashAt(p: string, i: nat, a: nat, k: nat, b: nat) {
    && 0 < i <= a < k <= b < |p|
    && IsDigit(p[i - 1])
    && (forall j :: i <= j < a ==> IsSpace(p[j]))
    && p[a] == '-'
    && (k == a + 1 || (k == a + 2 && IsDashChar(p[a + 1])))
    && (forall j :: k <= j < b ==> IsSpace(p[j]))
    && IsDigit(p[b])
  }

  /** The pattern matches `p[i..e]`. */
  ghost predicate DigitRangeMatch(p: string, i: nat, e: nat) {
    exists a: nat, k: nat :: DashAt(p, i, a, k, e)
  }

  /** `re.sub(pattern, '--', p)` from index `i` on: each leftmost match
      becomes "--", the scan resumes where it ended, and other characters are copied. */
  function SubDigitRanges(p: string, i: nat): string
    requires i <= |p|
    decreases |p| - i
  {
    if i == |p| then []
    else match DigitRangeAt(p, i)
      case Some(e) => "--" + SubDigitRanges(p, e)
      case None => [p[i]] + SubDigitRanges(p, i + 1)
  }

  /** The `pages` rule of doi2bib3 on a present value; None means the key is removed. */
  function Pages3(v: string): Option<string> {
    if v == "" then Some(v)
    else if NotApplicable(v) then None
    else
      var p := Dashes(Dashes(Dashes(Dashes(v))));
      Some(SubDigitRanges(p, 0))
  }

  /** The removal condition of doi2bib3 looks only at blanks and case. */
  lemma Pages3Cases(v: string)
    ensures Pages3(v).None? <==> v != "" && NotApplicable(v)
    ensures v == "" ==> Pages3(v) == Some(v)
  {
  }

  /** A value whose first character is neither blank nor 'n' is not an N/A marker. */
  lemma NotApplicableStart(v: string)
    requires v != [] && !IsSpace(v[0]) && LowerChar(v[0]) != 'n'
    ensures !NotApplicable(v)
  {
    var r := Strip(v);
    StripHead(v);
    var l := LowerStr(r);
    LowerHead(r);
    assert l[0] != 'n';
    assert "n/a-n/a"[0] == 'n' && "na-na"[0] == 'n' && "n/a"[0] == 'n' && "na"[0] == 'n';
  }

  /** One pass of the dash replacement leaves no en- or em-dash. */
  lemma DashesClean(p: string)
    ensures EnDash !in Dashes(p) && EmDash !in Dashes(p)
  {
    var q := MapChars(p, EnDash, "--");
    MapCharsMembers(p, EnDash, "--", EnDash);
    MapCharsMembers(q, EmDash, "--", EnDash);
    MapCharsMembers(q, EmDash, "--", EmDash);
  }

  /** Text without en- or em-dashes is not changed by the dash replacement. */
  lemma DashesNoop(p: string)
    requires EnDash !in p && EmDash !in p
    ensures Dashes(p) == p
  {
    MapCharsAbsent(p, EnDash, "--");
    MapCharsAbsent(p, EmDash, "--");
  }

  /** The four repeated lines do the work of the first. */
  lemma DashesRepeated(v: string)
    ensures Dashes(Dashes(Dashes(Dashes(v)))) == Dashes(v)
  {
    DashesClean(v);
    DashesNoop(Dashes(v));
  }

  /** The rewriting adds nothing but hyphens. */
  lemma {:induction false} SubDigitRangesMembers(p: string, i: nat, d: char)
    requires i <= |p|
    ensures d in SubDigitRanges(p, i) ==> d == '-' || d in p[i..]
    decreases |p| - i
  {
    if i < |p| {
      match DigitRangeAt(p, i)
      case Some(e) =>
        SubDigitRangesMembers(p, e, d);
        assert d in p[e..] ==> d in p[i..] by {
          assert p[e..] == p[i..][e - i..];
        }
      case None =>
        SubDigitRangesMembers(p, i + 1, d);
        assert p[i..] == [p[i]] + p[i + 1..];
    }
  }

  /** Every en-dash and em-dash of the value is gone from the new `pages`. */
  lemma Pages3NoUnicodeDashes(v: string)
    requires Pages3(v).Some?
    ensures EnDash !in Pages3(v).value && EmDash !in Pages3(v).value
  {
    if v != "" {
      DashesRepeated(v);
      DashesClean(v);
      SubDigitRangesMembers(Dashes(v), 0, EnDash);
      SubDigitRangesMembers(Dashes(v), 0, EmDash);
      assert Dashes(v)[0..] == Dashes(v);
    } else {
      assert Pages3(v).value == "";
    }
  }

  /** One position where the pattern does not match is copied. */
  lemma SubDigitRangesStep(p: string, i: nat)
    requires i < |p| && DigitRangeAt(p, i).None?
    ensures SubDigitRanges(p, i) == [p[i]] + SubDigitRanges(p, i + 1)
  {
  }

  /** Positions where the pattern does not match are copied. */
  lemma SubDigitRangesCopy(p: string, i: nat, j: nat)
    requires i <= j <= |p|
    requires forall k :: i <= k < j ==> DigitRangeAt(p, k).None?
    ensures SubDigitRanges(p, i) == p[i..j] + SubDigitRanges(p, j)
  {
    var outs := (k: nat) => if k <= |p| then SubDigitRanges(p, k) else [];
    forall k | i <= k < j ensures outs(k) == [p[k]] + outs(k + 1) {
      SubDigitRangesStep(p, k);
    }
    CopiedRun(p, outs, i, j);
  }

  /** The match of `a w1 - w2 b`, read from the hyphen's left. */
  lemma DigitRangeOf(v: string, a: string, w1: string, w2: string, rest: string)
    requires v == a + w1 + "-" + w2 + rest
    requires IsDigits(a) && rest != [] && IsDigit(rest[0])
    requires forall j :: 0 <= j < |w1| ==> IsSpace(w1[j])
    requires forall j :: 0 <= j < |w2| ==> IsSpace(w2[j])
    ensures DigitRangeAt(v, |a|) == Some(|a| + |w1| + 1 + |w2|)
  {
    var h := |a| + |w1|;
    var e := h + 1 + |w2|;
    assert v[|a| - 1] == a[|a| - 1];
    assert v[h] == '-' && v[e] == rest[0];
    forall j | |a| <= j < h ensures IsSpace(v[j]) {
      assert v[j] == w1[j - |a|];
    }
    forall j | h + 1 <= j < e ensures IsSpace(v[j]) {
      assert v[j] == w2[j - h - 1];
    }
    assert !IsDashChar(v[h + 1]) by {
      if |w2| > 0 { assert v[h + 1] == w2[0]; } else { assert v[h + 1] == rest[0]; }
    }
    DigitRangeAtOf(v, |a|, h, e);
  }

  /** The match at `i` read from its parts: blanks up to the hyphen at `h`,
      no second dash after it, blanks up to the digit at `e`. */
  lemma DigitRangeAtOf(v: string, i: nat, h: nat, e: nat)
    requires 0 < i <= h < e < |v| && IsDigit(v[i - 1])
    requires forall j :: i <= j < h ==> IsSpace(v[j])
    requires v[h] == '-' && !IsDashChar(v[h + 1])
    requires forall j :: h + 1 <= j < e ==> IsSpace(v[j])
    requires IsDigit(v[e])
    ensures DigitRangeAt(v, i) == Some(e)
  {
    SpanUnique(v, i, IsSpace, h - i);
    SpanUnique(v, h + 1, IsSpace, e - h - 1);
    assert i + Span(v, i, IsSpace) == h;
    assert h + 1 + Span(v, h + 1, IsSpace) == e;
  }

  /** With no N/A marker and no Unicode dash, the doi2bib3 rule is the hyphen rewriting alone. */
  lemma Pages3OfPlain(v: string)
    requires v != "" && !NotApplicable(v)
    requires EnDash !in v && EmDash !in v
    ensures Pages3(v) == Some(SubDigitRanges(v, 0))
  {
    DashesNoop(v);
    DashesRepeated(v);
  }

  /** No match where the look-behind fails. */
  lemma NoRangeAfterNonDigit(p: string, i: nat)
    requires i <= |p| && (i == 0 || !IsDigit(p[i - 1]))
    ensures DigitRangeAt(p, i).None?
  {
  }

  /** No match at a character that is neither blank nor a hyphen. */
  lemma NoRangeAtSolid(p: string, i: nat)
    requires i < |p| && !IsSpace(p[i]) && p[i] != '-'
    ensures DigitRangeAt(p, i).None?
  {
    if i > 0 && IsDigit(p[i - 1]) {
      assert Span(p, i, IsSpace) == 0;
    }
  }

  /** No match where no hyphen follows. */
  lemma NoRangeWithoutHyphen(p: string, i: nat)
    requires i <= |p| && forall j :: i <= j < |p| ==> p[j] != '-'
    ensures DigitRangeAt(p, i).None?
  {
  }

  /** No match where every hyphen is followed by a letter. */
  lemma NoRangeBeforeLetter(p: string, i: nat)
    requires i <= |p|
    requires forall k :: 0 <= k < |p| && p[k] == '-' ==> k + 1 < |p| && IsLetter(p[k + 1])
    ensures DigitRangeAt(p, i).None?
  {
  }

  /** After a match that ends before a hyphen-free rest, the rest is copied. */
  lemma SubDigitRangesTail(v: string, e: nat)
    requires 0 < e < |v| && !IsDigit(v[e - 1])
    requires forall j :: e <= j < |v| ==> v[j] != '-'
    ensures SubDigitRanges(v, e) == v[e..]
  {
    NoRangeAfterNonDigit(v, e);
    forall k | e < k < |v| ensures DigitRangeAt(v, k).None? {
      NoRangeWithoutHyphen(v, k);
    }
    SubDigitRangesCopy(v, e, |v|);
    assert SubDigitRanges(v, |v|) == [];
    assert v[e..|v|] == v[e..];
  }

  /** A match at `i` becomes "--" and the scan resumes at its end. */
  lemma SubDigitRangesAtMatch(p: string, i: nat, e: nat)
    requires i < |p| && DigitRangeAt(p, i) == Some(e)
    ensures SubDigitRanges(p, i) == "--" + SubDigitRanges(p, e)
  {
  }

  /** The digit range with its surroundings, in the index terms of `DigitRangeOf`. */
  lemma SubDigitRangesOfRange(v: string, a: string, w1: string, w2: string, rest: string)
    requires v == a + w1 + "-" + w2 + rest
    requires IsDigits(a) && rest != [] && IsDigit(rest[0])
    requires forall j :: 0 <= j < |w1| ==> IsSpace(w1[j])
    requires forall j :: 0 <= j < |w2| ==> IsSpace(w2[j])
    requires '-' !in rest
    ensures SubDigitRanges(v, 0) == a + "--" + rest
  {
    var u := a + w1 + "-" + w2;
    var e := |u|;
    assert e == |a| + |w1| + 1 + |w2|;
    assert v[0..|a|] == a && v[e..] == rest;
    forall j | e <= j < |v| ensures v[j] != '-' {
      assert v[j] == rest[j - e];
    }
    assert v[e - 1] == u[e - 1];
    assert !IsDigit(v[e - 1]) by {
      if |w2| > 0 { assert u[e - 1] == w2[|w2| - 1]; }
    }
    forall k | 0 <= k < |a| ensures DigitRangeAt(v, k).None? {
      assert v[k] == a[k];
      NoRangeAtSolid(v, k);
    }
    SubDigitRangesCopy(v, 0, |a|);
    DigitRangeOf(v, a, w1, w2, rest);
    SubDigitRangesAtMatch(v, |a|, e);
    SubDigitRangesTail(v, e);
    ConcatAssoc(a, "--", rest);
  }

  /** A text without '-', en-dash or em-dash holds none of them. */
  lemma DashFree(x: string)
    requires forall j :: 0 <= j < |x| ==> !IsDashChar(x[j])
    ensures '-' !in x && EnDash !in x && EmDash !in x
  {
  }

  /** A text that starts with a digit is not an N/A marker. */
  lemma DigitStart(v: string)
    requires v != [] && IsDigit(v[0])
    ensures !NotApplicable(v)
  {
    NotApplicableStart(v);
  }

  /** A digit range text holds no en- or em-dash when what follows it holds none. */
  lemma RangeTextNoDashes(a: string, w1: string, w2: string, bc: string)
    requires IsDigits(a)
    requires forall j :: 0 <= j < |w1| ==> IsSpace(w1[j])
    requires forall j :: 0 <= j < |w2| ==> IsSpace(w2[j])
    requires EnDash !in bc && EmDash !in bc
    ensures EnDash !in a + w1 + "-" + w2 + bc && EmDash !in a + w1 + "-" + w2 + bc
  {
    DashFree(a);
    DashFree(w1);
    DashFree(w2);
  }

  /** A hyphen between digits, with blanks around it, becomes "--", and what
      follows without a hyphen is copied: "1932 - 1938" gives "1932--1938"
      and "1932-1938.e3" gives "1932--1938.e3". */
  lemma Pages3Range(a: string, w1: string, w2: string, b: string, c: string)
    requires IsDigits(a) && IsDigits(b)
    requires forall j :: 0 <= j < |w1| ==> IsSpace(w1[j])
    requires forall j :: 0 <= j < |w2| ==> IsSpace(w2[j])
    requires forall j :: 0 <= j < |c| ==> !IsDashChar(c[j])
    ensures Pages3(a + w1 + "-" + w2 + b + c) == Some(a + "--" + b + c)
  {
    var bc := b + c;
    var v := a + w1 + "-" + w2 + bc;
    ConcatAssoc(a + w1 + "-" + w2, b, c);
    DashFree(b);
    DashFree(c);
    assert '-' !in bc && EnDash !in bc && EmDash !in bc;
    assert v[0] == a[0];
    DigitStart(v);
    RangeTextNoDashes(a, w1, w2, bc);
    Pages3OfPlain(v);
    SubDigitRangesOfRange(v, a, w1, w2, bc);
    ConcatAssoc(a + "--", b, c);
  }

  /** Hyphens followed by a letter are left alone: "e100-e110" and "A1-B2"
      keep their single hyphen. */
  lemma Pages3KeepsLetterHyphens(v: string)
    requires v != "" && !NotApplicable(v)
    requires EnDash !in v && EmDash !in v
    requires forall k :: 0 <= k < |v| && v[k] == '-' ==> k + 1 < |v| && IsLetter(v[k + 1])
    ensures Pages3(v) == Some(v)
  {
    Pages3OfPlain(v);
    forall i | 0 <= i < |v| ensures DigitRangeAt(v, i).None? {
      NoRangeBeforeLetter(v, i);
    }
    SubDigitRangesCopy(v, 0, |v|);
    assert SubDigitRanges(v, |v|) == [];
    assert v[0..|v|] == v;
    assert SubDigitRanges(v, 0) == v;
    assert Pages3(v) == Some(SubDigitRanges(v, 0));
  }
}
