/**
 * What the three backends (doi2bib3/backend.py, doi2bib2/backend.py,
 * doi2bib2_backend.py) share about arXiv ids: the DOI extraction of
 * `arxiv_to_doi` (three regex searches over the arXiv API response, tried in
 * a fixed order), the id clean-up that precedes validation, and the shapes
 * of the id patterns.
 */
module Arxiv {
  import opened Results
  import opened Text
  import opened Regex

  const ArxivOpen: string := "<arxiv:doi"
  const ArxivClose: string := "</arxiv:doi>"
  const DoiOpen: string := "<doi"
  const DoiClose: string := "</doi>"

  predicate NotGt(c: char) { c != '>' }
  predicate NotLt(c: char) { c != '<' }
  predicate IsQuote(c: char) { c == '"' || c == '\'' }
  predicate NotQuote(c: char) { !IsQuote(c) }

  // ---------------------------------------------------------------------------
  // `<tag\b[^>]*>([^<]+)</tag>`

  /** What a match of `<open>\b[^>]*>([^<]+)<close>` at index `i` is, with the
      group at `gs..ge`: the opening text, a word boundary after it, attribute
      text without '>', the '>', a non-empty group without '<', the closing text. */
  predicate ElementMatch(text: string, i: nat, open: string, close: string, gs: nat, ge: nat) {
    var p := i + |open|;
    && OccursAt(text, open, i)
    && p < gs <= |text|
    && !IsWordChar(text[p])
    && (forall k :: p <= k < gs - 1 ==> text[k] != '>')
    && text[gs - 1] == '>'
    && gs < ge
    && OccursAt(text, close, ge)
    && (forall k :: gs <= k < ge ==> text[k] != '<')
  }

  /** The regex engine at index `i`: `[^>]*` and `([^<]+)` are greedy, and
      giving characters back cannot help, since the next item needs '>' and
      '<' respectively. The result is the group's bounds. */
  function ElementAt(text: string, i: nat, open: string, close: string): (r: Option<(nat, nat)>)
    requires i <= |text|
    ensures r.Some? ==> ElementMatch(text, i, open, close, r.value.0, r.value.1)
  {
    var p := i + |open|;
    if !OccursAt(text, open, i) then None
    else if p < |text| && IsWordChar(text[p]) then None
    else
      var q := p + Span(text, p, NotGt);
      if q == |text| then None
      else
        var gs := q + 1;
        var ge := gs + Span(text, gs, NotLt);
        if ge == gs || !OccursAt(text, close, ge) then None
        else Some((gs, ge))
  }

  /** The engine's result once both greedy runs are known. */
  lemma ElementAtOfRuns(text: string, i: nat, open: string, close: string, gs: nat, ge: nat)
    requires OccursAt(text, open, i)
    requires i + |open| < gs <= |text| && !IsWordChar(text[i + |open|])
    requires Span(text, i + |open|, NotGt) == gs - 1 - (i + |open|)
    requires gs < ge && Span(text, gs, NotLt) == ge - gs
    requires OccursAt(text, close, ge)
    ensures ElementAt(text, i, open, close) == Some((gs, ge))
  {
  }

  /** Every match of the pattern at `i` is the one the engine reports. */
  lemma ElementAtComplete(text: string, i: nat, open: string, close: string, gs: nat, ge: nat)
    requires close != [] && close[0] == '<'
    requires ElementMatch(text, i, open, close, gs, ge)
    ensures ElementAt(text, i, open, close) == Some((gs, ge))
  {
    var p := i + |open|;
    forall j | p <= j < gs - 1 ensures NotGt(text[j]) {
    }
    SpanUnique(text, p, NotGt, gs - 1 - p);
    assert text[ge] == '<' by {
      assert text[ge..ge + |close|][0] == close[0];
    }
    forall j | gs <= j < ge ensures NotLt(text[j]) {
    }
    SpanUnique(text, gs, NotLt, ge - gs);
    ElementAtOfRuns(text, i, open, close, gs, ge);
  }

  /** `re.search` for the element pattern: the leftmost index where it matches. */
  function FindElement(text: string, open: string, close: string): (r: Option<nat>)
    ensures r.Some? ==> r.value <= |text| && ElementAt(text, r.value, open, close).Some?
    ensures r.Some? ==> forall j :: 0 <= j < r.value ==> ElementAt(text, j, open, close).None?
    ensures r.None? ==> forall j :: 0 <= j <= |text| ==> ElementAt(text, j, open, close).None?
  {
    var matches := (j: nat) => j <= |text| && ElementAt(text, j, open, close).Some?;
    var r := Leftmost(0, |text|, matches);
    assert forall j: nat :: matches(j) == (j <= |text| && ElementAt(text, j, open, close).Some?);
    r
  }

  /** `m.group(1)` of the search, if there is a match. */
  function ElementContent(text: string, open: string, close: string): Option<string> {
    match FindElement(text, open, close)
    case None => None
    case Some(i) =>
      var g := ElementAt(text, i, open, close).value;
      Some(text[g.0..g.1])
  }

  /** The match at `i` is the leftmost in the text. */
  ghost predicate FirstElement(text: string, open: string, close: string, i: nat, gs: nat, ge: nat) {
    && ElementMatch(text, i, open, close, gs, ge)
    && forall j: nat, a: nat, b: nat :: j < i ==> !ElementMatch(text, j, open, close, a, b)
  }

  /** The pattern matches nowhere in the text. */
  ghost predicate NoElement(text: string, open: string, close: string) {
    forall j: nat, a: nat, b: nat :: !ElementMatch(text, j, open, close, a, b)
  }

  /** The search's group is the group of the leftmost match. */
  lemma ElementContentIsFirst(text: string, open: string, close: string, i: nat, gs: nat, ge: nat)
    requires close != [] && close[0] == '<'
    requires FirstElement(text, open, close, i, gs, ge)
    ensures ElementContent(text, open, close) == Some(text[gs..ge])
  {
    ElementAtComplete(text, i, open, close, gs, ge);
    forall j | 0 <= j < i ensures ElementAt(text, j, open, close).None? {
    }
    var f := FindElement(text, open, close);
    assert f == Some(i);
  }

  /** The search finds nothing exactly when the pattern matches nowhere. */
  lemma ElementContentNone(text: string, open: string, close: string)
    requires close != [] && close[0] == '<'
    ensures ElementContent(text, open, close).None? <==> NoElement(text, open, close)
  {
    if ElementContent(text, open, close).None? {
      forall j: nat, a: nat, b: nat ensures !ElementMatch(text, j, open, close, a, b) {
        if ElementMatch(text, j, open, close, a, b) {
          ElementAtComplete(text, j, open, close, a, b);
        }
      }
    } else {
      var i := FindElement(text, open, close).value;
      var g := ElementAt(text, i, open, close).value;
      assert ElementMatch(text, i, open, close, g.0, g.1);
    }
  }

  // ---------------------------------------------------------------------------
  // `href=["']https?://(?:dx\.)?doi\.org/([^"']+)["']`

  /** One of the four resolver prefixes the pattern allows starts at `j` and ends at `gs`. */
  predicate ResolverAt(text: string, j: nat, gs: nat) {
    || (OccursAt(text, "https://dx.doi.org/", j) && gs == j + 19)
    || (OccursAt(text, "https://doi.org/", j) && gs == j + 16)
    || (OccursAt(text, "http://dx.doi.org/", j) && gs == j + 18)
    || (OccursAt(text, "http://doi.org/", j) && gs == j + 15)
  }

  /** A match of the href pattern at `i`, with the group at `gs..ge`. The two
      quotes need not be the same character. */
  predicate HrefMatch(text: string, i: nat, gs: nat, ge: nat) {
    && OccursAt(text, "href=", i)
    && i + 5 < |text| && IsQuote(text[i + 5])
    && ResolverAt(text, i + 6, gs)
    && gs < ge < |text|
    && (forall k :: gs <= k < ge ==> NotQuote(text[k]))
    && IsQuote(text[ge])
  }

  /** The length of the resolver prefix at `j`, 0 if there is none. */
  function ResolverLength(text: string, j: nat): nat {
    if OccursAt(text, "https://dx.doi.org/", j) then 19
    else if OccursAt(text, "https://doi.org/", j) then 16
    else if OccursAt(text, "http://dx.doi.org/", j) then 18
    else if OccursAt(text, "http://doi.org/", j) then 15
    else 0
  }

  /** At most one prefix fits at a position: they differ at index 4 ('s' or
      ':') and at the character after "d" ('x' or 'o'). */
  lemma ResolverLengthUnique(text: string, j: nat, gs: nat)
    requires ResolverAt(text, j, gs)
    ensures ResolverLength(text, j) == gs - j
  {
    var p1, p2 := "https://dx.doi.org/", "https://doi.org/";
    var p3, p4 := "http://dx.doi.org/", "http://doi.org/";
    if OccursAt(text, p1, j) {
      OccursAtDiffer(text, p1, p2, j, 9);
      OccursAtDiffer(text, p1, p3, j, 4);
      OccursAtDiffer(text, p1, p4, j, 4);
    } else if OccursAt(text, p2, j) {
      OccursAtDiffer(text, p2, p3, j, 4);
      OccursAtDiffer(text, p2, p4, j, 4);
    } else if OccursAt(text, p3, j) {
      OccursAtDiffer(text, p3, p4, j, 8);
    }
  }

  /** The regex engine at index `i`. The group `[^"']+` is greedy and must be
      followed by a quote, so it is the whole run of non-quote characters. */
  function HrefAt(text: string, i: nat): (r: Option<(nat, nat)>)
    requires i <= |text|
    ensures r.Some? ==> HrefMatch(text, i, r.value.0, r.value.1)
  {
    if !(OccursAt(text, "href=", i) && i + 5 < |text| && IsQuote(text[i + 5])) then None
    else
      var j := i + 6;
      var n := ResolverLength(text, j);
      if n == 0 then None
      else
        var gs := j + n;
        var ge := gs + Span(text, gs, NotQuote);
        if gs < ge < |text| then Some((gs, ge)) else None
  }

  /** Every match of the href pattern at `i` is the one the engine reports. */
  lemma HrefAtComplete(text: string, i: nat, gs: nat, ge: nat)
    requires HrefMatch(text, i, gs, ge)
    ensures HrefAt(text, i) == Some((gs, ge))
  {
    ResolverLengthUnique(text, i + 6, gs);
    SpanUnique(text, gs, NotQuote, ge - gs);
  }

  /** `re.search` for the href pattern. */
  function FindHref(text: string): (r: Option<nat>)
    ensures r.Some? ==> r.value <= |text| && HrefAt(text, r.value).Some?
    ensures r.Some? ==> forall j :: 0 <= j < r.value ==> HrefAt(text, j).None?
    ensures r.None? ==> forall j :: 0 <= j <= |text| ==> HrefAt(text, j).None?
  {
    var matches := (j: nat) => j <= |text| && HrefAt(text, j).Some?;
    var r := Leftmost(0, |text|, matches);
    assert forall j: nat :: matches(j) == (j <= |text| && HrefAt(text, j).Some?);
    r
  }

  function HrefContent(text: string): Option<string> {
    match FindHref(text)
    case None => None
    case Some(i) =>
      var g := HrefAt(text, i).value;
      Some(text[g.0..g.1])
  }

  ghost predicate FirstHref(text: string, i: nat, gs: nat, ge: nat) {
    && HrefMatch(text, i, gs, ge)
    && forall j: nat, a: nat, b: nat :: j < i ==> !HrefMatch(text, j, a, b)
  }

  ghost predicate NoHref(text: string) {
    forall j: nat, a: nat, b: nat :: !HrefMatch(text, j, a, b)
  }

  lemma HrefContentIsFirst(text: string, i: nat, gs: nat, ge: nat)
    requires FirstHref(text, i, gs, ge)
    ensures HrefContent(text) == Some(text[gs..ge])
  {
    HrefAtComplete(text, i, gs, ge);
    forall j | 0 <= j < i ensures HrefAt(text, j).None? {
    }
    var f := FindHref(text);
    assert f == Some(i);
  }

  lemma HrefContentNone(text: string)
    ensures HrefContent(text).None? <==> NoHref(text)
  {
    if HrefContent(text).None? {
      forall j: nat, a: nat, b: nat ensures !HrefMatch(text, j, a, b) {
        if HrefMatch(text, j, a, b) {
          HrefAtComplete(text, j, a, b);
        }
      }
    } else {
      var i := FindHref(text).value;
      var g := HrefAt(text, i).value;
      assert HrefMatch(text, i, g.0, g.1);
    }
  }

  // ---------------------------------------------------------------------------
  // The three searches in order

  /** The DOI `arxiv_to_doi` takes from the response text: the trimmed
      `<arxiv:doi>` content, else the trimmed `<doi>` content, else the
      trimmed and percent-decoded href group, else nothing. */
  function ExtractDoiFromFeed(text: string): Option<string> {
    match ElementContent(text, ArxivOpen, ArxivClose)
    case Some(g) => Some(Strip(g))
    case None =>
      match ElementContent(text, DoiOpen, DoiClose)
      case Some(g) => Some(Strip(g))
      case None =>
        match HrefContent(text)
        case Some(g) => Some(Unquote(Strip(g)))
        case None => None
  }

  /** The leftmost `<arxiv:doi>` element decides, wherever `<doi>` elements
      and links occur, before or after it. */
  lemma FeedArxivElementFirst(text: string, i: nat, gs: nat, ge: nat)
    requires FirstElement(text, ArxivOpen, ArxivClose, i, gs, ge)
    ensures ExtractDoiFromFeed(text) == Some(Strip(text[gs..ge]))
  {
    ElementContentIsFirst(text, ArxivOpen, ArxivClose, i, gs, ge);
  }

  /** Without an `<arxiv:doi>` element, the leftmost `<doi>` element decides. */
  lemma FeedDoiElementSecond(text: string, i: nat, gs: nat, ge: nat)
    requires NoElement(text, ArxivOpen, ArxivClose)
    requires FirstElement(text, DoiOpen, DoiClose, i, gs, ge)
    ensures ExtractDoiFromFeed(text) == Some(Strip(text[gs..ge]))
  {
    ElementContentNone(text, ArxivOpen, ArxivClose);
    ElementContentIsFirst(text, DoiOpen, DoiClose, i, gs, ge);
  }

  /** Without either element, the leftmost resolver link decides, decoded. */
  lemma FeedHrefThird(text: string, i: nat, gs: nat, ge: nat)
    requires NoElement(text, ArxivOpen, ArxivClose)
    requires NoElement(text, DoiOpen, DoiClose)
    requires FirstHref(text, i, gs, ge)
    ensures ExtractDoiFromFeed(text) == Some(Unquote(Strip(text[gs..ge])))
  {
    ElementContentNone(text, ArxivOpen, ArxivClose);
    ElementContentNone(text, DoiOpen, DoiClose);
    HrefContentIsFirst(text, i, gs, ge);
  }

  /** Nothing is found exactly when none of the three patterns matches anywhere. */
  lemma FeedNone(text: string)
    ensures ExtractDoiFromFeed(text).None? <==>
      NoElement(text, ArxivOpen, ArxivClose) && NoElement(text, DoiOpen, DoiClose) && NoHref(text)
  {
    ElementContentNone(text, ArxivOpen, ArxivClose);
    ElementContentNone(text, DoiOpen, DoiClose);
    HrefContentNone(text);
  }

  /** Element content is trimmed only after the match, so content made of
      blanks yields the empty string rather than no DOI. */
  lemma FeedBlankContent(text: string, i: nat, gs: nat, ge: nat)
    requires FirstElement(text, ArxivOpen, ArxivClose, i, gs, ge)
    requires forall k :: gs <= k < ge ==> IsSpace(text[k])
    ensures ExtractDoiFromFeed(text) == Some("")
  {
    FeedArxivElementFirst(text, i, gs, ge);
    var g := text[gs..ge];
    var r := Strip(g);
    var a :| TrimmedAt(g, r, a);
  }

  // ---------------------------------------------------------------------------
  // The arXiv id clean-up

  /** `arxivid.strip()`, then, after an "arXiv:" prefix in any case, the
      trimmed text after the first ':' (which is the prefix's own). */
  function CleanArxivId(s: string): (r: string)
    ensures r == [] || (!IsSpace(r[0]) && !IsSpace(r[|r| - 1]))
  {
    var t := Strip(s);
    if StartsWith(LowerStr(t), "arxiv:") then Strip(t[6..]) else t
  }

  /** The first ':' of a string with the "arxiv:" prefix is the prefix's. */
  lemma ArxivPrefixColon(t: string)
    requires StartsWith(LowerStr(t), "arxiv:")
    ensures t[5] == ':' && ':' !in t[..5]
  {
    var l := LowerStr(t);
    assert l[5] == LowerChar(t[5]);
    forall k | 0 <= k < 5 ensures t[k] != ':' {
      assert l[k] == LowerChar(t[k]);
    }
  }

  // ---------------------------------------------------------------------------
  // Id shapes. The patterns are applied to stripped text, which cannot end in
  // a newline, so their `$` is the end of the string. Every `\d+` is followed
  // by a character that is not a digit or by the end, so greedy matching
  // leaves nothing to backtrack into and the shapes below are exact.

  /** `\d+(v\d+)?` covering the whole of `r`. */
  predicate DigitsWithVersion(r: string) {
    var n := Span(r, 0, IsDigit);
    0 < n && (n == |r| || (r[n] == 'v' && IsDigits(r[n + 1..])))
  }

  /** `\d{4}\.\d+(v\d+)?`, the modern id form "YYMM.NNNNN" with an optional version. */
  predicate ModernArxivId(t: string) {
    |t| >= 5 && IsDigits(t[..4]) && t[4] == '.' && DigitsWithVersion(t[5..])
  }

  predicate IsLetterOrHyphen(c: char) { IsLetter(c) || c == '-' }

  /** The length of the subject class `[A-Za-z\-]+` at the head of `t` (0 if none). */
  function SubjectLength(t: string): nat {
    Span(t, 0, IsLetterOrHyphen)
  }

  /** `[a-z\-]+/\d{7}` under IGNORECASE: the legacy form "hep-th/9901001". */
  predicate LegacyArxivId(t: string) {
    var n := SubjectLength(t);
    0 < n && |t| == n + 8 && t[n] == '/' && IsDigits(t[n + 1..])
  }

  /** `[A-Za-z\-]+/\d{7}(v\d+)?`: the legacy form with an optional version. */
  predicate VersionedLegacyArxivId(t: string) {
    var n := SubjectLength(t);
    && 0 < n && n + 8 <= |t| && t[n] == '/' && IsDigits(t[n + 1..n + 8])
    && (|t| == n + 8 || (t[n + 8] == 'v' && IsDigits(t[n + 9..])))
  }

  /** None of the id shapes contains a ':'. */
  lemma IdShapesHaveNoColon(t: string)
    requires ModernArxivId(t) || VersionedLegacyArxivId(t)
    ensures ':' !in t
  {
    if ModernArxivId(t) {
      var r := t[5..];
      var n := Span(r, 0, IsDigit);
      forall k | 0 <= k < |t| ensures t[k] != ':' {
        if k < 4 {
          assert t[..4][k] == t[k];
        } else if 5 <= k < 5 + n {
          assert r[k - 5] == t[k];
        } else if k > 5 + n {
          assert r[n + 1..][k - 6 - n] == t[k];
        }
      }
    } else {
      var n := SubjectLength(t);
      forall k | 0 <= k < |t| ensures t[k] != ':' {
        if n < k < n + 8 {
          assert t[n + 1..n + 8][k - n - 1] == t[k];
        } else if k > n + 8 {
          assert t[n + 9..][k - n - 9] == t[k];
        }
      }
    }
  }

  /** The legacy form accepted by `_extract_arxiv_id` is also accepted by the
      validation of `arxiv_to_doi`. */
  lemma LegacyIsVersionedLegacy(t: string)
    requires LegacyArxivId(t)
    ensures VersionedLegacyArxivId(t)
  {
    var n := SubjectLength(t);
    assert t[n + 1..n + 8] == t[n + 1..];
  }
}
