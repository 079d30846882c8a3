/**
 * doi2bib3/backend.py: recognising arXiv input, resolving an arXiv id to a
 * DOI with the `10.48550/arXiv.<id>` fallback, searching Crossref for a DOI,
 * and the order in which `get_bibtex_from_doi` tries all of these. Every
 * network answer is a parameter.
 */
module Backend3 {
  import opened Results
  import opened Text
  import opened Regex
  import opened Doi
  import opened Arxiv

  // ---------------------------------------------------------------------------
  // _extract_arxiv_id

  /** `re.sub(r'\.pdf$', '', aid, flags=re.I)` on an id without newlines. */
  function DropPdfSuffix(a: string): (r: string)
    ensures EndsWith(LowerStr(a), ".pdf") ==> r == a[..|a| - 4]
    ensures !EndsWith(LowerStr(a), ".pdf") ==> r == a
  {
    if |a| >= 4 && LowerStr(a)[|a| - 4..] == ".pdf" then a[..|a| - 4] else a
  }

  /** The length of the `abs/`, `pdf/` or `html/` at the head of the path, 0 if none. */
  function ArxivViewLength(p: string): nat {
    if StartsWith(p, "abs/") || StartsWith(p, "pdf/") then 4
    else if StartsWith(p, "html/") then 5
    else 0
  }

  /** `re.match(r'^(?:abs|pdf|html)/(?P<id>.+)$', path)`: the group is the run
      of non-newline characters after the view name, and it must reach `$`. */
  function ArxivPathId(p: string): (r: Option<string>)
    ensures r.Some? ==> ArxivViewLength(p) > 0
  {
    var k := ArxivViewLength(p);
    if k == 0 then None
    else
      var n := Span(p, k, NotNewline);
      if n == 0 || !EndAnchor(p, k + n) then None
      else Some(DropPdfSuffix(p[k..k + n]))
  }

  /** The URL branch: a host containing "arxiv.org" and a path of the above form. */
  function ArxivUrlId(t: string): Option<string>
    requires IsHttpUrl(t)
  {
    var parts := UrlParse(t);
    if Contains(LowerStr(parts.0), "arxiv.org") then ArxivPathId(LStripChar(parts.1, '/'))
    else None
  }

  /** `_extract_arxiv_id`: an "arXiv:" id is returned trimmed without further
      checks; a URL that urlparse rejects gives None (the `except`); an
      arxiv.org URL gives its id; a bare id is returned when it has the modern
      or the legacy shape; anything else gives None. */
  function ExtractArxivId(s: string): Option<string> {
    if s == [] then None
    else
      var t := Strip(s);
      if StartsWith(LowerStr(t), "arxiv:") then Some(Strip(t[6..]))
      else if IsHttpUrl(t) && UrlRaises(t) then None
      else if IsHttpUrl(t) && ArxivUrlId(t).Some? then ArxivUrlId(t)
      else if ModernArxivId(t) || LegacyArxivId(t) then Some(t)
      else None
  }

  /** A text starting with a digit has neither the "arxiv:" nor a URL prefix. */
  lemma DigitHeadIsNoPrefix(t: string)
    requires t != [] && IsDigit(t[0])
    ensures !StartsWith(LowerStr(t), "arxiv:") && !IsHttpUrl(t)
  {
    assert LowerStr(t)[0] == t[0];
  }

  /** Stripping keeps a leading "10.". */
  lemma StripKeepsDoiHead(s: string)
    requires StartsWith(s, "10.")
    ensures StartsWith(Strip(s), "10.")
  {
    var r := RStrip(s);
    assert !IsSpace(s[2]);
    assert |r| >= 3;
    assert r[..3] == s[..3];
    assert !IsSpace(r[0]);
    assert LStrip(r) == r;
  }

  /** A text starting with "10." has none of the arXiv forms. */
  lemma DoiHeadIsNoArxivForm(t: string)
    requires StartsWith(t, "10.")
    ensures !StartsWith(LowerStr(t), "arxiv:") && !IsHttpUrl(t)
    ensures !ModernArxivId(t) && !LegacyArxivId(t)
  {
    assert t[0] == '1' && t[2] == '.';
    DigitHeadIsNoPrefix(t);
    assert !ModernArxivId(t) by {
      if |t| >= 5 { assert t[..4][2] == '.'; }
    }
    assert !IsLetterOrHyphen(t[0]);
    assert SubjectLength(t) == 0;
  }

  /** Empty input, and any DOI-like input starting with "10.", is not an arXiv id. */
  lemma ExtractArxivIdOfDoi(s: string)
    requires s == [] || StartsWith(s, "10.")
    ensures ExtractArxivId(s) == None
  {
    if s != [] {
      StripKeepsDoiHead(s);
      DoiHeadIsNoArxivForm(Strip(s));
    }
  }

  /** A text without ':' has neither the "arxiv:" prefix nor an http(s) scheme. */
  lemma ColonFreeNoPrefix(t: string)
    requires ':' !in t
    ensures !StartsWith(LowerStr(t), "arxiv:") && !IsHttpUrl(t)
  {
    var l := LowerStr(t);
    if |t| >= 6 {
      LowerAt(t, 4);
      LowerAt(t, 5);
      assert l[..6][5] == l[5] && l[5] != ':';
      assert l[..6][4] == l[4] && l[4] != ':';
      if |t| >= 7 {
        assert l[..7][4] == l[4];
      }
      if |t| >= 8 {
        assert l[..8][5] == l[5];
      }
    }
  }

  /** An id of the modern or the legacy form is returned trimmed. */
  lemma ExtractArxivIdBare(s: string)
    requires s != []
    requires var t := Strip(s); ModernArxivId(t) || LegacyArxivId(t)
    ensures ExtractArxivId(s) == Some(Strip(s))
  {
    var t := Strip(s);
    if LegacyArxivId(t) {
      LegacyIsVersionedLegacy(t);
    }
    IdShapesHaveNoColon(t);
    ColonFreeNoPrefix(t);
  }

  /** After an "arXiv:" prefix, in any case, the rest is returned trimmed and
      is not checked against any shape. */
  lemma ExtractArxivIdPrefix(prefix: string, rest: string)
    requires |prefix| == 6 && LowerStr(prefix) == "arxiv:"
    ensures ExtractArxivId(prefix + rest) == Some(Strip(rest))
  {
    var s := prefix + rest;
    assert !IsSpace(prefix[0]) by {
      assert LowerChar(prefix[0]) == LowerStr(prefix)[0];
    }
    assert !IsSpace(prefix[5]) by {
      assert LowerChar(prefix[5]) == LowerStr(prefix)[5];
    }
    StripAfterHead(prefix, rest);
    var u := RStrip(rest);
    assert Strip(s) == prefix + u;
    LowerConcat(prefix, u);
    assert LowerStr(Strip(s))[..6] == LowerStr(prefix);
    assert Strip(s)[6..] == u;
    StripOfRStrip(rest);
  }

  /** A text whose head has no blank at either end loses only the blanks at
      the end of what follows. */
  lemma StripAfterHead(head: string, rest: string)
    requires head != [] && !IsSpace(head[0]) && !IsSpace(head[|head| - 1])
    ensures Strip(head + rest) == head + RStrip(rest)
  {
    var u := RStrip(rest);
    var w := rest[|u|..];
    assert rest == u + w;
    var core := head + u;
    assert !IsSpace(core[|core| - 1]);
    assert head + rest == [] + core + w;
    StripAround([], core, w);
  }

  /** Stripping after `rstrip` is stripping. */
  lemma StripOfRStrip(s: string)
    ensures Strip(RStrip(s)) == Strip(s)
  {
    var u := RStrip(s);
    RStripUnique(u, []);
    assert u + [] == u;
  }

  /** An http(s) URL has a ':' and no "arxiv:" prefix. */
  lemma SchemeColon(s: string)
    requires IsHttpUrl(s)
    ensures ':' in s && !StartsWith(LowerStr(s), "arxiv:")
  {
    var l := LowerStr(s);
    LowerAt(s, 0);
    LowerAt(s, 4);
    LowerAt(s, 5);
    assert l[0] == 'h' && (l[4] == ':' || l[5] == ':') by {
      if StartsWith(l, "http://") {
        assert l[..7][0] == l[0] && l[..7][4] == l[4];
      } else {
        assert l[..8][0] == l[0] && l[..8][5] == l[5];
      }
    }
    assert s[4] == ':' || s[5] == ':';
    if |l| >= 6 {
      assert l[..6][0] == l[0];
    }
  }

  /** An http(s) URL that urlparse rejects, whose host does not contain
      "arxiv.org", or whose path is not an arXiv view, is not an arXiv id. */
  lemma ExtractArxivIdOtherUrl(s: string)
    requires s != [] && IsHttpUrl(Strip(s))
    requires UrlRaises(Strip(s)) || ArxivUrlId(Strip(s)).None?
    ensures ExtractArxivId(s) == None
  {
    var t := Strip(s);
    SchemeColon(t);
    if ModernArxivId(t) || LegacyArxivId(t) {
      if LegacyArxivId(t) {
        LegacyIsVersionedLegacy(t);
      }
      IdShapesHaveNoColon(t);
    }
  }

  /** A URL whose host does not contain "arxiv.org" gives no id. */
  lemma ArxivUrlIdOtherHost(s: string)
    requires IsHttpUrl(s) && !Contains(LowerStr(UrlParse(s).0), "arxiv.org")
    ensures ArxivUrlId(s) == None
  {
  }

  /** A URL whose path, after the host, does not start with `abs/`, `pdf/` or
      `html/` gives no id, whatever the host, as for "https://arxiv.org/list/cs". */
  lemma ArxivUrlIdNoView(scheme: string, host: string, path: string)
    requires HttpScheme(scheme)
    requires forall i :: 0 <= i < |host| ==> InNetloc(host[i])
    requires forall i :: 0 <= i < |path| ==> InPath(path[i])
    requires NoParams(path) && (path == [] || path[0] != '/')
    requires !StartsWith(path, "abs/") && !StartsWith(path, "pdf/") && !StartsWith(path, "html/")
    ensures IsHttpUrl(scheme + host + "/" + path)
    ensures ArxivUrlId(scheme + host + "/" + path) == None
  {
    UrlParseOf(scheme, host, path);
    assert ("/" + path)[1..] == path;
    if path != [] {
      assert LStripChar("/" + path, '/') == path;
    }
  }

  /** The listing page "https://arxiv.org/list/cs" is not an arXiv id. */
  lemma ArxivListPage()
    ensures ExtractArxivId("https://arxiv.org/list/cs") == None
  {
    var path := "list/cs";
    assert path[0] == 'l';
    var s := "https://" + "arxiv.org" + "/" + path;
    assert s == "https://arxiv.org/list/cs";
    LowerNoCapitals("https://");
    ArxivUrlIdNoView("https://", "arxiv.org", path);
    StripNoop(s);
    ExtractArxivIdOtherUrl(s);
  }

  /** The path form `<view><id>` gives the id without a final ".pdf". */
  lemma ArxivPathIdOf(view: string, id: string)
    requires view == "abs/" || view == "pdf/" || view == "html/"
    requires id != [] && '\n' !in id
    ensures ArxivPathId(view + id) == Some(DropPdfSuffix(id))
  {
    var path := view + id;
    var k := |view|;
    assert path[..k] == view;
    if view == "html/" {
      assert path[0] == 'h';
      assert !StartsWith(path, "abs/") && !StartsWith(path, "pdf/");
    }
    assert ArxivViewLength(path) == k;
    forall j | k <= j < |path| ensures NotNewline(path[j]) {
      assert path[j] == id[j - k];
    }
    SpanUnique(path, k, NotNewline, |id|);
    assert path[k..|path|] == id;
  }

  /** A URL whose host contains "arxiv.org", in any case, gives the id after
      `abs/`, `pdf/` or `html/`, with a final ".pdf" in any case removed. */
  lemma ArxivUrlIdOf(scheme: string, host: string, view: string, id: string)
    requires HttpScheme(scheme)
    requires forall i :: 0 <= i < |host| ==> InNetloc(host[i])
    requires Contains(LowerStr(host), "arxiv.org")
    requires view == "abs/" || view == "pdf/" || view == "html/"
    requires id != [] && '?' !in id && '#' !in id && '\n' !in id && NoParams(id)
    ensures IsHttpUrl(scheme + host + "/" + (view + id))
    ensures UrlParse(scheme + host + "/" + (view + id)) == (host, "/" + (view + id))
    ensures ArxivUrlId(scheme + host + "/" + (view + id)) == Some(DropPdfSuffix(id))
  {
    var path := view + id;
    assert path[..|view|] == view;
    forall i | 0 <= i < |path| ensures InPath(path[i]) {
      if i >= |view| { assert path[i] == id[i - |view|]; }
    }
    PrefixNoParams(view, id);
    UrlParseOf(scheme, host, path);
    LStripSlash(path, view);
    ArxivPathIdOf(view, id);
  }

  /** The `path.lstrip('/')` step of doi2bib3/backend.py:118 on `/<view>...`. */
  lemma LStripSlash(path: string, view: string)
    requires view == "abs/" || view == "pdf/" || view == "html/"
    requires StartsWith(path, view)
    ensures LStripChar("/" + path, '/') == path
  {
    assert ("/" + path)[1..] == path;
    assert path[0] == view[0];
  }

  /** A stripped URL that urlparse accepts and that is no "arXiv:" id gives
      what its arXiv view gives. */
  lemma ExtractArxivIdOfUrl(t: string)
    requires t != [] && Strip(t) == t && !StartsWith(LowerStr(t), "arxiv:")
    requires IsHttpUrl(t) && !UrlRaises(t) && ArxivUrlId(t).Some?
    ensures ExtractArxivId(t) == ArxivUrlId(t)
  {
  }

  lemma UrlNotArxivPrefix(scheme: string, rest: string)
    requires HttpScheme(scheme)
    ensures !StartsWith(LowerStr(scheme + rest), "arxiv:")
  {
    SchemeHead(scheme);
    LowerHead(scheme + rest);
  }

  /** `_extract_arxiv_id` on such a URL: the id, without a final ".pdf", for
      a host urlparse accepts. */
  lemma ExtractArxivIdUrl(scheme: string, host: string, view: string, id: string)
    requires HttpScheme(scheme)
    requires forall i :: 0 <= i < |host| ==> InNetloc(host[i])
    requires !Unbalanced(host) && Contains(LowerStr(host), "arxiv.org")
    requires view == "abs/" || view == "pdf/" || view == "html/"
    requires id != [] && !IsSpace(id[|id| - 1])
    requires '?' !in id && '#' !in id && '\n' !in id && NoParams(id)
    ensures ExtractArxivId(scheme + host + "/" + view + id) == Some(DropPdfSuffix(id))
  {
    var path := view + id;
    var t := scheme + host + "/" + path;
    assert scheme + host + "/" + view + id == t;
    assert path[|path| - 1] == id[|id| - 1];
    UrlHead(scheme, host, path);
    UrlNotArxivPrefix(scheme, host + "/" + path);
    assert scheme + (host + "/" + path) == t;
    ArxivUrlIdOf(scheme, host, view, id);
    assert UrlSplit(t).0 == host;
    ExtractArxivIdOfUrl(t);
  }

  // ---------------------------------------------------------------------------
  // arxiv_to_doi

  /** The validation of `arxiv_to_doi`:
      `^(?:\d{4}\.\d+(v\d+)?|[A-Za-z\-]+/\d{7}(v\d+)?)$`. */
  predicate ValidArxivId(id: string) {
    ModernArxivId(id) || VersionedLegacyArxivId(id)
  }

  /** `arxiv_to_doi` given the arXiv API response: ValueError for an id of the
      wrong shape, DOIError for a status other than 200, otherwise what the
      response text yields. */
  function ArxivToDoi(arxivId: string, resp: Response): (r: Result<Option<string>>)
    ensures r == Failure(InvalidArxivId) <==> !ValidArxivId(CleanArxivId(arxivId))
    ensures r.Failure? && r.error.ArxivQueryFailed? <==>
      ValidArxivId(CleanArxivId(arxivId)) && resp.status != 200
    ensures r.Success? ==> r.value == ExtractDoiFromFeed(resp.text)
    ensures r.Failure? ==> r.error == InvalidArxivId || r.error == ArxivQueryFailed(resp.status)
  {
    var id := CleanArxivId(arxivId);
    if !ValidArxivId(id) then Failure(InvalidArxivId)
    else if resp.status != 200 then Failure(ArxivQueryFailed(resp.status))
    else Success(ExtractDoiFromFeed(resp.text))
  }

  // ---------------------------------------------------------------------------
  // The fallback DOI of get_bibtex_from_doi

  /** The end of a match of `v\d+$` at index `k`, 0 for none. */
  function VersionAt(s: string, k: nat): (e: nat)
    requires k <= |s|
    ensures e > 0 ==> k + 2 <= e <= |s| && s[k] == 'v' && EndAnchor(s, e)
    ensures e > 0 ==> forall j :: k < j < e ==> IsDigit(s[j])
  {
    if k < |s| && s[k] == 'v' then
      var n := Span(s, k + 1, IsDigit);
      if n > 0 && EndAnchor(s, k + 1 + n) then k + 1 + n else 0
    else 0
  }

  /** `re.sub(r'v\d+$', '', id)`: the leftmost match is removed. After it
      only a final newline can remain, where no further match fits. */
  function StripVersion(s: string): (r: string)
    ensures |r| <= |s|
  {
    match Leftmost(0, |s|, (k: nat) => k <= |s| && VersionAt(s, k) > 0)
    case None => s
    case Some(k) => s[..k] + s[VersionAt(s, k)..]
  }

  /** An id ending in "v" and digits loses exactly that version. */
  lemma StripVersionOfVersioned(core: string, v: string)
    requires IsDigits(v)
    ensures StripVersion(core + "v" + v) == core
  {
    var s := core + "v" + v;
    var m := (k: nat) => k <= |s| && VersionAt(s, k) > 0;
    forall j | |core| < j < |s| ensures IsDigit(s[j]) {
      assert s[j] == v[j - |core| - 1];
    }
    SpanUnique(s, |core| + 1, IsDigit, |v|);
    assert VersionAt(s, |core|) == |s|;
    forall k | 0 <= k < |core| ensures !m(k) {
    }
    assert m(|core|);
    var l := Leftmost(0, |s|, m);
    assert l.Some? && l.value <= |core|;
    assert l.value == |core|;
    assert s[..|core|] == core;
  }

  /** An id that does not end in a digit has no version to strip. */
  lemma StripVersionUnversioned(s: string)
    requires s == [] || (!IsDigit(s[|s| - 1]) && s[|s| - 1] != '\n')
    ensures StripVersion(s) == s
  {
    var m := (k: nat) => k <= |s| && VersionAt(s, k) > 0;
    forall k | 0 <= k <= |s| ensures !m(k) {
    }
  }

  const ArxivDoiPrefix: string := "10.48550/arXiv."

  /** The DOI tried when the arXiv API gives none: "10.48550/arXiv." and the
      id without its version, normalized; DOIError naming the id if that fails. */
  function ArxivFallbackDoi(arxivId: string): (r: Result<string>)
    ensures r.Success? <==> NormalizeDoi(ArxivDoiPrefix + StripVersion(arxivId)).Success?
    ensures r.Success? ==> r.value == NormalizeDoi(ArxivDoiPrefix + StripVersion(arxivId)).value
    ensures r.Failure? ==> r.error == NoDoiForArxiv(arxivId)
  {
    FallbackNeverRaises(StripVersion(arxivId));
    match NormalizeDoi(ArxivDoiPrefix + StripVersion(arxivId))
    case Success(d) => Success(d)
    case Failure(e) => if e.InvalidDoi? then Failure(NoDoiForArxiv(arxivId)) else Failure(e)
  }

  /** The fallback candidate starts with "10.", so normalize_doi never parses
      it as a URL. */
  lemma FallbackNeverRaises(c: string)
    ensures !UrlStepRaises(ArxivDoiPrefix + c)
  {
    var s := ArxivDoiPrefix + c;
    assert s[..3] == "10.";
    StripKeepsDoiHead(s);
    var t := Strip(s);
    assert t[0] == '1';
    PlainHead(t);
  }

  /** For an id without blanks or '%', the fallback is exactly the prefix and
      the unversioned id: normalizing changes nothing. */
  lemma ArxivFallbackOfPlainId(id: string)
    requires forall i :: 0 <= i < |id| ==> !IsSpace(id[i])
    requires '%' !in id
    ensures ArxivFallbackDoi(id) == Success(ArxivDoiPrefix + StripVersion(id))
  {
    var c := StripVersion(id);
    assert '\n' !in id by {
      forall i | 0 <= i < |id| ensures id[i] != '\n' {
        assert !IsSpace(id[i]);
      }
    }
    StripVersionShape(id);
    assert c == id[..|c|];
    assert '%' !in c by {
      forall i | 0 <= i < |c| ensures c[i] != '%' {
        assert c[i] == id[i];
      }
    }
    assert '\n' !in c by {
      forall i | 0 <= i < |c| ensures c[i] != '\n' {
        assert c[i] == id[i];
      }
    }
    assert c == [] || !IsSpace(c[|c| - 1]) by {
      if c != [] { assert c[|c| - 1] == id[|c| - 1]; }
    }
    FallbackDoiIsPlain(c);
    NormalizeBareDoi(ArxivDoiPrefix + c);
  }

  /** Stripping the version of a text without newlines keeps a prefix of it. */
  lemma StripVersionShape(s: string)
    requires '\n' !in s
    ensures StripVersion(s) == s[..|StripVersion(s)|]
  {
    var m := (k: nat) => k <= |s| && VersionAt(s, k) > 0;
    var l := Leftmost(0, |s|, m);
    if l.Some? {
      var k := l.value;
      assert m(k);
      var e := VersionAt(s, k);
      assert e == |s|;
      assert StripVersion(s) == s[..k] + s[e..];
      assert s[e..] == [];
    }
  }

  /** The fallback candidate is a plain DOI whenever the id part has no
      '%', newline, final blank, '?' or '#'. */
  lemma FallbackDoiIsPlain(c: string)
    requires '%' !in c && '\n' !in c
    requires c == [] || !IsSpace(c[|c| - 1])
    ensures DoiShape(ArxivDoiPrefix + c)
    ensures '%' !in ArxivDoiPrefix + c
    ensures !IsSpace((ArxivDoiPrefix + c)[0]) && !IsSpace((ArxivDoiPrefix + c)[|ArxivDoiPrefix + c| - 1])
  {
    var d := ArxivDoiPrefix + c;
    assert d[|d| - 1] != '\n';
    assert Body(d) == d;
    assert d[8] == '/';
    assert d[..3] == "10.";
    forall k | 0 <= k < |d| ensures d[k] != '\n' {
      if k >= |ArxivDoiPrefix| { assert d[k] == c[k - |ArxivDoiPrefix|]; }
    }
    assert '\n' !in d;
    forall k | 0 <= k < |d| ensures d[k] != '%' {
      if k >= |ArxivDoiPrefix| { assert d[k] == c[k - |ArxivDoiPrefix|]; }
    }
  }

  /** A versioned id falls back to the DOI of the unversioned id, as for
      "2411.08091v2" and "10.48550/arXiv.2411.08091". */
  lemma ArxivFallbackOfVersioned(core: string, v: string)
    requires forall i :: 0 <= i < |core| ==> !IsSpace(core[i])
    requires '%' !in core && IsDigits(v)
    ensures ArxivFallbackDoi(core + "v" + v) == Success(ArxivDoiPrefix + core)
  {
    var id := core + "v" + v;
    forall i | 0 <= i < |id| ensures !IsSpace(id[i]) && id[i] != '%' {
      if i < |core| {
        assert id[i] == core[i];
      } else if i > |core| {
        assert id[i] == v[i - |core| - 1];
      }
    }
    StripVersionOfVersioned(core, v);
    ArxivFallbackOfPlainId(id);
  }

  // ---------------------------------------------------------------------------
  // crossref_search_for_doi

  /** One element of Crossref's `message.items`; absent keys are None. */
  datatype Item = Item(url: Option<string>, doi: Option<string>, score: Option<real>)

  /** The Crossref search response: its status and its items (empty when
      `message` or `items` is absent). */
  datatype CrossrefReply = CrossrefReply(status: int, items: seq<Item>)

  /** `x.get('score', 0)`. */
  function Score(it: Item): real {
    if it.score.Some? then it.score.value else 0.0
  }

  /** The head of `sorted(items, key=score, reverse=True)`: Python's sort is
      stable, also in reverse, so it is the first item of maximal score. */
  function FirstMaxIndex(items: seq<Item>): (i: nat)
    requires |items| > 0
    ensures i < |items|
    ensures forall j :: 0 <= j < |items| ==> Score(items[j]) <= Score(items[i])
    ensures forall j :: 0 <= j < i ==> Score(items[j]) < Score(items[i])
    decreases |items|
  {
    if |items| == 1 then 0
    else
      var k := 1 + FirstMaxIndex(items[1..]);
      assert forall j :: 1 <= j < |items| ==> items[j] == items[1..][j - 1];
      if Score(items[0]) >= Score(items[k]) then 0 else k
  }

  /** The item the host-preference loop accepts: a non-empty URL that
      contains the query's lowercased host, case-insensitively, and a DOI. */
  predicate HostMatch(it: Item, host: string) {
    var u := if it.url.Some? then it.url.value else "";
    u != [] && Contains(LowerStr(u), host) && Truthy(it.doi)
  }

  /** The loop over the items with its early return: the first accepted item. */
  function FirstHostMatch(items: seq<Item>, host: string): (r: Option<nat>)
    ensures r.Some? ==> r.value < |items| && HostMatch(items[r.value], host)
    ensures r.Some? ==> forall j :: 0 <= j < r.value ==> !HostMatch(items[j], host)
    ensures r.None? ==> forall j :: 0 <= j < |items| ==> !HostMatch(items[j], host)
    decreases |items|
  {
    if items == [] then None
    else if HostMatch(items[0], host) then Some(0)
    else
      var r := FirstHostMatch(items[1..], host);
      assert forall j :: 1 <= j < |items| ==> items[j] == items[1..][j - 1];
      if r.Some? then Some(1 + r.value) else None
  }

  /** Characters `[^\s'"<>]` of the DOI tail in a URL path. */
  predicate InDoiTail(c: char) {
    !IsSpace(c) && c != '\'' && c != '"' && c != '<' && c != '>'
  }

  /** What a match of `10\.\d{4,9}/[^\s'"<>]+` at index `k` ending at `e` is. */
  ghost predicate PathDoiMatch(s: string, k: nat, e: nat) {
    && OccursAt(s, "10.", k)
    && exists d: nat :: PathDoiSplit(s, k, d, e)
  }

  /** The match with `d` registrant digits: the digit run is maximal, since a
      digit cannot stand for the '/', and the tail is maximal, since `+` is greedy
      and nothing follows it. */
  predicate PathDoiSplit(s: string, k: nat, d: nat, e: nat) {
    && 4 <= d <= 9 && k + 3 + d < e <= |s|
    && (forall j :: k + 3 <= j < k + 3 + d ==> IsDigit(s[j]))
    && s[k + 3 + d] == '/'
    && k + 4 + d < e
    && (forall j :: k + 4 + d <= j < e ==> InDoiTail(s[j]))
    && (e == |s| || !InDoiTail(s[e]))
  }

  /** The end of the match at `k`, 0 for none. A digit run longer than nine
      is not followed by '/' within reach of `\d{4,9}`. */
  function PathDoiAt(s: string, k: nat): (e: nat)
    requires k <= |s|
    ensures e > 0 ==> PathDoiMatch(s, k, e)
  {
    if !OccursAt(s, "10.", k) then 0
    else
      var d := Span(s, k + 3, IsDigit);
      if d < 4 || d > 9 || k + 3 + d == |s| || s[k + 3 + d] != '/' then 0
      else
        var n := Span(s, k + 4 + d, InDoiTail);
        if n == 0 then 0
        else
          assert PathDoiSplit(s, k, d, k + 4 + d + n);
          k + 4 + d + n
  }

  /** Every match at `k` is the one the engine reports. */
  lemma PathDoiAtComplete(s: string, k: nat, e: nat)
    requires PathDoiMatch(s, k, e)
    ensures PathDoiAt(s, k) == e
  {
    var d: nat :| PathDoiSplit(s, k, d, e);
    assert !IsDigit(s[k + 3 + d]);
    SpanUnique(s, k + 3, IsDigit, d);
    SpanUnique(s, k + 4 + d, InDoiTail, e - k - 4 - d);
  }

  /** `re.search` of the DOI pattern in the path: its leftmost match. */
  function FindPathDoi(path: string): (r: Option<(nat, nat)>)
    ensures r.Some? ==> PathDoiMatch(path, r.value.0, r.value.1) && r.value.1 <= |path|
    ensures r.Some? ==> forall k :: 0 <= k < r.value.0 ==> PathDoiAt(path, k) == 0
    ensures r.None? ==> forall k :: 0 <= k <= |path| ==> PathDoiAt(path, k) == 0
  {
    var m := (k: nat) => k <= |path| && PathDoiAt(path, k) > 0;
    assert forall k: nat :: m(k) == (k <= |path| && PathDoiAt(path, k) > 0);
    match Leftmost(0, |path|, m)
    case None => None
    case Some(k) =>
      var e := PathDoiAt(path, k);
      Some((k, e))
  }

  /** The DOI `crossref_search_for_doi` takes from the percent-decoded path of
      a URL query: the leftmost DOI-like text, if it normalizes. */
  function PathDoi(q: string): Option<string>
    requires IsHttpUrl(q)
  {
    if UrlRaises(q) then None
    else
      var path := Unquote(UrlParse(q).1);
      match FindPathDoi(path)
      case None => None
      case Some(m) =>
        match NormalizeDoi(path[m.0..m.1])
        case Success(d) => Some(d)
        case Failure(_) => None
  }

  /** `crossref_search_for_doi`, given the DOI `_extract_doi_from_url` finds on
      the page (`pageDoi`) and the Crossref search response. */
  function CrossrefSearch(query: string, pageDoi: Option<string>, reply: CrossrefReply): Option<string> {
    var q := Strip(query);
    var isUrl := IsHttpUrl(q);
    if q == [] then None
    else if isUrl && PathDoi(q).Some? then PathDoi(q)
    else if isUrl && Truthy(pageDoi) then pageDoi
    else if reply.status != 200 || reply.items == [] then None
    else
      var hostMatch := if isUrl && !UrlRaises(q) then FirstHostMatch(reply.items, LowerStr(UrlParse(q).0)) else None;
      if hostMatch.Some? then reply.items[hostMatch.value].doi
      else reply.items[FirstMaxIndex(reply.items)].doi
  }

  /** An empty or blank query gives no DOI, whatever the responses. */
  lemma CrossrefBlankQuery(query: string, pageDoi: Option<string>, reply: CrossrefReply)
    requires forall i :: 0 <= i < |query| ==> IsSpace(query[i])
    ensures CrossrefSearch(query, pageDoi, reply) == None
  {
    var q := Strip(query);
    var a :| TrimmedAt(query, q, a);
  }

  /** The DOI-like text in the path of a URL query, when it has no '%', is
      the answer, whatever the page and Crossref answer. */
  lemma CrossrefPathDoiFirst(query: string, pageDoi: Option<string>, reply: CrossrefReply)
    requires var q := Strip(query); q != [] && IsHttpUrl(q) && !UrlRaises(q)
    requires var path := Unquote(UrlParse(Strip(query)).1);
      FindPathDoi(path).Some? && '%' !in path[FindPathDoi(path).value.0..FindPathDoi(path).value.1]
    ensures var path := Unquote(UrlParse(Strip(query)).1); var m := FindPathDoi(path).value;
      CrossrefSearch(query, pageDoi, reply) == Some(path[m.0..m.1])
  {
    var q := Strip(query);
    PathDoiOf(q);
  }

  lemma PathDoiOf(q: string)
    requires IsHttpUrl(q) && !UrlRaises(q)
    requires var path := Unquote(UrlParse(q).1);
      FindPathDoi(path).Some? && '%' !in path[FindPathDoi(path).value.0..FindPathDoi(path).value.1]
    ensures var path := Unquote(UrlParse(q).1); var m := FindPathDoi(path).value;
      PathDoi(q) == Some(path[m.0..m.1])
  {
    var path := Unquote(UrlParse(q).1);
    var m := FindPathDoi(path).value;
    PathDoiIsPlain(path, m.0, m.1);
    NormalizeBareDoi(path[m.0..m.1]);
  }

  /** A match of the path pattern is a DOI without surrounding blanks. */
  lemma PathDoiIsPlain(s: string, k: nat, e: nat)
    requires PathDoiMatch(s, k, e) && e <= |s|
    ensures var c := s[k..e];
      DoiShape(c) && !IsSpace(c[0]) && !IsSpace(c[|c| - 1])
  {
    var d: nat :| PathDoiSplit(s, k, d, e);
    var c := s[k..e];
    assert c[..3] == "10.";
    assert c[3 + d] == '/' && 3 + d < |c| - 1;
    forall j | 0 <= j < |c| ensures c[j] != '\n' {
      assert c[j] == s[k + j];
      if j >= 4 + d {
        assert InDoiTail(s[k + j]);
      }
    }
    assert c[|c| - 1] == s[e - 1] && InDoiTail(s[e - 1]);
    assert Body(c) == c;
  }

  /** Once Crossref is asked, a URL query prefers the first item whose URL
      contains the query's host and which has a DOI. */
  lemma CrossrefHostPreferred(query: string, pageDoi: Option<string>, reply: CrossrefReply, i: nat)
    requires var q := Strip(query); q != [] && IsHttpUrl(q) && !UrlRaises(q)
    requires PathDoi(Strip(query)).None? && !Truthy(pageDoi)
    requires reply.status == 200
    requires var host := LowerStr(UrlParse(Strip(query)).0);
      && i < |reply.items| && HostMatch(reply.items[i], host)
      && forall j :: 0 <= j < i ==> !HostMatch(reply.items[j], host)
    ensures CrossrefSearch(query, pageDoi, reply) == reply.items[i].doi
    ensures Truthy(CrossrefSearch(query, pageDoi, reply))
  {
    var q := Strip(query);
    var host := LowerStr(UrlParse(q).0);
    var h := FirstHostMatch(reply.items, host);
    assert h == Some(i);
  }

  /** Otherwise the answer is the DOI of the first item of maximal score, with
      a missing score counting as 0: for a query that is no URL, and for a URL
      query whose path and page give no DOI and whose host no item matches (or
      that urlparse rejects). */
  lemma CrossrefTopScore(query: string, pageDoi: Option<string>, reply: CrossrefReply, i: nat)
    requires Strip(query) != []
    requires var q := Strip(query); IsHttpUrl(q) ==>
      && PathDoi(q).None? && !Truthy(pageDoi)
      && (!UrlRaises(q) ==> forall j :: 0 <= j < |reply.items| ==> !HostMatch(reply.items[j], LowerStr(UrlParse(q).0)))
    requires reply.status == 200
    requires i < |reply.items|
    requires forall j :: 0 <= j < |reply.items| ==> Score(reply.items[j]) <= Score(reply.items[i])
    requires forall j :: 0 <= j < i ==> Score(reply.items[j]) < Score(reply.items[i])
    ensures CrossrefSearch(query, pageDoi, reply) == reply.items[i].doi
  {
    var q := Strip(query);
    var f := FirstMaxIndex(reply.items);
    assert f == i;
    if IsHttpUrl(q) && !UrlRaises(q) {
      var h := FirstHostMatch(reply.items, LowerStr(UrlParse(q).0));
      assert h.None?;
    }
  }

  /** A non-200 Crossref answer, or one without items, gives no DOI once the
      path and the page have given none. */
  lemma CrossrefNoItems(query: string, pageDoi: Option<string>, reply: CrossrefReply)
    requires IsHttpUrl(Strip(query)) ==> PathDoi(Strip(query)).None? && !Truthy(pageDoi)
    requires reply.status != 200 || reply.items == []
    ensures CrossrefSearch(query, pageDoi, reply) == None
  {
  }

  // ---------------------------------------------------------------------------
  // get_bibtex_from_doi

  /** The answers `get_bibtex_from_doi` may receive: the arXiv API, the page
      DOI and the Crossref search of `crossref_search_for_doi`, and the two
      BibTeX requests (doi.org, then Crossref's transform endpoint). */
  datatype Answers = Answers(
    arxiv: Response,
    pageDoi: Option<string>,
    crossref: CrossrefReply,
    doiOrg: Response,
    transform: Response)

  /** The DOI `get_bibtex_from_doi` settles on before fetching. */
  function ResolveDoi(input: string, ans: Answers): Result<string> {
    var arxivId := ExtractArxivId(input);
    if Truthy(arxivId) then
      match ArxivToDoi(arxivId.value, ans.arxiv)
      case Failure(e) => Failure(e)
      case Success(found) =>
        if Truthy(found) then Success(found.value) else ArxivFallbackDoi(arxivId.value)
    else
      match NormalizeDoi(input)
      case Success(d) => Success(d)
      case Failure(e) =>
        if !e.InvalidDoi? then Failure(e)
        else
          var found := CrossrefSearch(input, ans.pageDoi, ans.crossref);
          if Truthy(found) then Success(found.value) else Failure(CrossrefLookupFailed(input))
  }

  /** `get_bibtex_from_doi`: the doi.org answer if it is 200, else the
      Crossref transform answer if that is 200, else DOIError with both statuses. */
  function GetBibtexFromDoi(input: string, ans: Answers): (r: Result<string>)
    ensures ResolveDoi(input, ans).Failure? ==> r == Failure(ResolveDoi(input, ans).error)
    ensures ResolveDoi(input, ans).Success? && ans.doiOrg.status == 200 ==> r == Success(ans.doiOrg.text)
    ensures ResolveDoi(input, ans).Success? && ans.doiOrg.status != 200 && ans.transform.status == 200 ==>
      r == Success(ans.transform.text)
    ensures ResolveDoi(input, ans).Success? && ans.doiOrg.status != 200 && ans.transform.status != 200 ==>
      r == Failure(FetchFailed(ResolveDoi(input, ans).value, ans.doiOrg.status, Some(ans.transform.status)))
  {
    match ResolveDoi(input, ans)
    case Failure(e) => Failure(e)
    case Success(doi) =>
      if ans.doiOrg.status == 200 then Success(ans.doiOrg.text)
      else if ans.transform.status == 200 then Success(ans.transform.text)
      else Failure(FetchFailed(doi, ans.doiOrg.status, Some(ans.transform.status)))
  }

  /** A plain DOI is used as it is: it is not an arXiv id and normalizes to
      itself, so no arXiv or Crossref answer matters. */
  lemma ResolvePlainDoi(d: string, ans: Answers)
    requires PlainDoi(d)
    ensures ResolveDoi(d, ans) == Success(d)
  {
    PlainDoiStart(d);
    assert StartsWith(d, "10.") by {
      DoiShapeFacts(d);
    }
    ExtractArxivIdOfDoi(d);
    NormalizeBareDoi(d);
  }

  /** An arXiv id for which the API gives no DOI resolves to the fallback. */
  lemma ResolveArxivWithoutDoi(input: string, ans: Answers)
    requires Truthy(ExtractArxivId(input))
    requires ValidArxivId(CleanArxivId(ExtractArxivId(input).value))
    requires ans.arxiv.status == 200
    requires !Truthy(ExtractDoiFromFeed(ans.arxiv.text))
    ensures ResolveDoi(input, ans) == ArxivFallbackDoi(ExtractArxivId(input).value)
  {
  }

  /** Input that is neither an arXiv id nor a DOI goes to Crossref, and
      without a Crossref DOI the error names the input. */
  lemma ResolveViaCrossref(input: string, ans: Answers)
    requires !Truthy(ExtractArxivId(input)) && NormalizeDoi(input).Failure? && !UrlStepRaises(input)
    ensures Truthy(CrossrefSearch(input, ans.pageDoi, ans.crossref)) ==>
      ResolveDoi(input, ans) == Success(CrossrefSearch(input, ans.pageDoi, ans.crossref).value)
    ensures !Truthy(CrossrefSearch(input, ans.pageDoi, ans.crossref)) ==>
      ResolveDoi(input, ans) == Failure(CrossrefLookupFailed(input))
  {
  }

  /** A URL that urlparse rejects is no arXiv id, and the ValueError of
      normalize_doi is not the DOIError the fallback catches: it comes out of
      `get_bibtex_from_doi`, and Crossref is never asked. */
  lemma ResolveRejectedUrl(scheme: string, host: string, tail: string, ans: Answers)
    requires HttpScheme(scheme)
    requires forall i :: 0 <= i < |host| ==> InNetloc(host[i])
    requires Unbalanced(host)
    requires tail != [] && !IsSpace(tail[|tail| - 1])
    requires forall i :: 0 <= i < |tail| ==> InPath(tail[i])
    ensures ResolveDoi(scheme + host + "/" + tail, ans) == Failure(InvalidUrl)
  {
    var s := scheme + host + "/" + tail;
    UrlHead(scheme, host, tail);
    UrlSplitOf(scheme, host, tail);
    SchemeHead(scheme);
    assert s[0] == scheme[0];
    ExtractArxivIdOtherUrl(s);
    NormalizeDoiRaises(scheme, host, tail);
  }
}
