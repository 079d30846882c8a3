/**
 * DOI_REGEX and normalize_doi. The three backends (doi2bib3/backend.py,
 * doi2bib2/backend.py, doi2bib2_backend.py) carry the same code, modelled here once.
 */
module Doi {
  import opened Results
  import opened Text
  import opened Regex

  // ---------------------------------------------------------------------------
  // The subset of urlparse the backends use

  /** `s.lower().startswith('http://') or s.lower().startswith('https://')`. */
  predicate IsHttpUrl(s: string) {
    StartsWith(LowerStr(s), "http://") || StartsWith(LowerStr(s), "https://")
  }

  /** "http://" or "https://", in any case. */
  predicate HttpScheme(scheme: string) {
    LowerStr(scheme) == "http://" || LowerStr(scheme) == "https://"
  }

  /** The length of "http://" or "https://" at the head of an http(s) URL. */
  function SchemeLength(s: string): (k: nat)
    requires IsHttpUrl(s)
    ensures k <= |s|
  {
    if StartsWith(LowerStr(s), "http://") then 7 else 8
  }

  predicate InNetloc(c: char) { c != '/' && c != '?' && c != '#' }
  predicate InPath(c: char) { c != '?' && c != '#' }

  /** The netloc and the path of the text after "//": the netloc runs to the
      first '/', '?' or '#'; the path runs from there to the first '?' or '#'. */
  function NetlocPath(t: string): (r: (string, string))
    ensures |r.0| + |r.1| <= |t|
    ensures t[..|r.0|] == r.0 && t[|r.0|..|r.0| + |r.1|] == r.1
    ensures forall i :: 0 <= i < |r.0| ==> InNetloc(r.0[i])
    ensures forall i :: 0 <= i < |r.1| ==> InPath(r.1[i])
    ensures r.1 == [] || r.1[0] == '/'
    ensures |r.0| + |r.1| == |t| || !InPath(t[|r.0| + |r.1|])
  {
    var n := Span(t, 0, InNetloc);
    var e := n + Span(t, n, InPath);
    assert forall i :: 0 <= i < n ==> t[..n][i] == t[i];
    assert forall i :: 0 <= i < e - n ==> t[n..e][i] == t[n + i];
    (t[..n], t[n..e])
  }

  /** Slices of `s[k..]` are the slices of `s` shifted by `k`. */
  lemma SliceOfSuffix(s: string, k: nat, a: nat, b: nat)
    requires k + a + b <= |s|
    ensures s[k..][..a] == s[k..k + a]
    ensures s[k..][a..a + b] == s[k + a..k + a + b]
    ensures k + a + b < |s| ==> s[k..][a + b] == s[k + a + b]
  {
  }

  /** `urlsplit(s).netloc` and `urlsplit(s).path` for an http(s) URL. */
  function UrlSplit(s: string): (r: (string, string))
    requires IsHttpUrl(s)
    ensures var k, n := SchemeLength(s), |r.0|;
      && k + n + |r.1| <= |s|
      && s[k..k + n] == r.0 && s[k + n..k + n + |r.1|] == r.1
      && (forall i :: 0 <= i < n ==> InNetloc(r.0[i]))
      && (forall i :: 0 <= i < |r.1| ==> InPath(r.1[i]))
      && (r.1 == [] || r.1[0] == '/')
      && (k + n + |r.1| == |s| || !InPath(s[k + n + |r.1|]))
  {
    var k := SchemeLength(s);
    var t := s[k..];
    var r := NetlocPath(t);
    SliceOfSuffix(s, k, |r.0|, |r.1|);
    r
  }

  /** urlsplit raises ValueError("Invalid IPv6 URL") for a netloc that holds
      one of '[' and ']' without the other. */
  predicate Unbalanced(netloc: string) {
    ('[' in netloc) != (']' in netloc)
  }

  /** `urlparse` on an http(s) URL raises. */
  predicate UrlRaises(s: string)
    requires IsHttpUrl(s)
  {
    Unbalanced(UrlSplit(s).0)
  }

  predicate NotSemicolon(c: char) { c != ';' }

  /** Where the last segment of a path starts: the index of its last '/', 0
      when it has none. */
  function LastSlash(p: string): (l: nat)
    ensures l <= |p| && (p != [] ==> l < |p|)
    ensures '/' in p ==> p[l] == '/'
    ensures forall j :: l < j < |p| ==> p[j] != '/'
    decreases |p|
  {
    if p == [] then 0
    else if p[|p| - 1] == '/' then |p| - 1
    else
      var q := p[..|p| - 1];
      assert forall j :: 0 <= j < |q| ==> q[j] == p[j];
      assert '/' in p ==> '/' in q;
      LastSlash(q)
  }

  /** `_splitparams`, which urlparse applies to the path of an http(s) URL:
      the path ends before the first ';' of its last segment, and what follows
      becomes `params`. */
  function ParamsCut(p: string): (r: string)
    ensures |r| <= |p| && r == p[..|r|]
    ensures forall j :: LastSlash(p) <= j < |r| ==> p[j] != ';'
    ensures |r| == |p| || (LastSlash(p) <= |r| && p[|r|] == ';')
  {
    var l := LastSlash(p);
    p[..l + Span(p, l, NotSemicolon)]
  }

  /** Every ';' of `p` has a '/' after it: the last segment has no params. */
  predicate NoParams(p: string) {
    forall i :: 0 <= i < |p| && p[i] == ';' ==> '/' in p[i + 1..]
  }

  /** A path without params in its last segment is not cut. */
  lemma ParamsCutNoParams(p: string)
    requires NoParams(p)
    ensures ParamsCut(p) == p
  {
    var l := LastSlash(p);
    forall j | l <= j < |p| ensures NotSemicolon(p[j]) {
    }
    SpanUnique(p, l, NotSemicolon, |p| - l);
  }

  /** In `a + b`, a ';' of a text `a` without params has a '/' after it. */
  lemma SlashAfter(a: string, b: string, j: nat)
    requires NoParams(a) && j < |a| && a[j] == ';'
    ensures exists k :: j < k < |a| && (a + b)[k] == '/'
  {
    var m :| 0 <= m < |a[j + 1..]| && a[j + 1..][m] == '/';
    assert (a + b)[j + 1 + m] == a[j + 1 + m];
  }

  /** After `/` and a text without params, a ';' in the last segment cuts the
      path there. */
  lemma ParamsCutAt(a: string, rest: string)
    requires a != [] && a[0] == '/' && NoParams(a)
    requires '/' !in rest
    ensures ParamsCut(a + ";" + rest) == a
  {
    var p := a + ";" + rest;
    assert p == a + (";" + rest);
    var l := LastSlash(p);
    assert p[0] == '/';
    forall j | |a| <= j < |p| ensures p[j] != '/' {
      if j > |a| { assert p[j] == rest[j - |a| - 1]; }
    }
    assert l < |a|;
    forall j | l <= j < |a| ensures NotSemicolon(p[j]) {
      assert p[j] == a[j];
      if a[j] == ';' {
        SlashAfter(a, ";" + rest, j);
      }
    }
    assert p[|a|] == ';';
    SpanUnique(p, l, NotSemicolon, |a| - l);
    assert p[..|a|] == a;
  }

  /** `urlparse(s).netloc` and `urlparse(s).path` for an http(s) URL: the
      pieces urlsplit gives, with the params cut off the path. */
  function UrlParse(s: string): (r: (string, string))
    requires IsHttpUrl(s)
    ensures r.0 == UrlSplit(s).0
    ensures |r.1| <= |UrlSplit(s).1| && r.1 == UrlSplit(s).1[..|r.1|]
    ensures r.1 == [] || r.1[0] == '/'
  {
    var (netloc, path) := UrlSplit(s);
    (netloc, ParamsCut(path))
  }

  /** The netloc and path of `<host>/<path>` after the scheme, for a host
      without '/', '?', '#' and a path without '?', '#'. */
  lemma NetlocPathOf(host: string, path: string)
    requires forall i :: 0 <= i < |host| ==> InNetloc(host[i])
    requires forall i :: 0 <= i < |path| ==> InPath(path[i])
    ensures NetlocPath(host + "/" + path) == (host, "/" + path)
  {
    var t := host + "/" + path;
    var n := |host|;
    forall j | 0 <= j < n ensures InNetloc(t[j]) {
      assert t[j] == host[j];
    }
    assert t[n] == '/';
    SpanUnique(t, 0, InNetloc, n);
    forall j | n <= j < |t| ensures InPath(t[j]) {
      if j > n { assert t[j] == path[j - n - 1]; }
    }
    SpanUnique(t, n, InPath, |t| - n);
    assert t[..n] == host;
    assert t[n..|t|] == "/" + path;
  }

  /** urlsplit of `<scheme><host>/<path>`, for a scheme "http://" or "https://"
      in any case, a host without '/', '?', '#' and a path without '?', '#'. */
  lemma UrlSplitOf(scheme: string, host: string, path: string)
    requires |scheme| in {7, 8} && LowerStr(scheme) in {"http://", "https://"}
    requires forall i :: 0 <= i < |host| ==> InNetloc(host[i])
    requires forall i :: 0 <= i < |path| ==> InPath(path[i])
    ensures IsHttpUrl(scheme + host + "/" + path)
    ensures UrlSplit(scheme + host + "/" + path) == (host, "/" + path)
  {
    var t := host + "/" + path;
    var s := scheme + t;
    assert s == scheme + host + "/" + path;
    assert s[..|scheme|] == scheme && s[|scheme|..] == t;
    SchemeOf(s, scheme);
    NetlocPathOf(host, path);
  }

  /** urlparse of the same URL, when the last segment of the path has no ';'. */
  lemma UrlParseOf(scheme: string, host: string, path: string)
    requires |scheme| in {7, 8} && LowerStr(scheme) in {"http://", "https://"}
    requires forall i :: 0 <= i < |host| ==> InNetloc(host[i])
    requires forall i :: 0 <= i < |path| ==> InPath(path[i])
    requires NoParams(path)
    ensures IsHttpUrl(scheme + host + "/" + path)
    ensures UrlParse(scheme + host + "/" + path) == (host, "/" + path)
  {
    UrlSplitOf(scheme, host, path);
    PrefixNoParams("/", path);
    ParamsCutNoParams("/" + path);
  }

  /** A prefix without ';' adds no params. */
  lemma PrefixNoParams(a: string, p: string)
    requires ';' !in a && NoParams(p)
    ensures NoParams(a + p)
  {
    var q := a + p;
    forall i | 0 <= i < |q| && q[i] == ';' ensures '/' in q[i + 1..] {
      assert i >= |a|;
      assert q[i + 1..] == p[i - |a| + 1..];
      assert p[i - |a|] == ';';
    }
  }

  // ---------------------------------------------------------------------------
  // DOI_REGEX = re.compile(r"^10\..+/.+$"), used with .match

  /** The regex as the engine runs it: after "10.", the greedy `.+` can only
      cover the run of non-newline characters; `$` must hold at the end of that
      run; backtracking then finds a '/' with at least one character on both sides. */
  predicate DoiRegexMatch(s: string) {
    && StartsWith(s, "10.")
    && var e := 3 + Span(s, 3, NotNewline);
      && EndAnchor(s, e)
      && 5 <= e
      && '/' in s[4..e - 1]
  }

  /** `s` without the one final newline that `$` may skip. */
  function Body(s: string): (b: string)
    ensures b == s || (b + "\n" == s)
  {
    if |s| > 0 && s[|s| - 1] == '\n' then s[..|s| - 1] else s
  }

  /** What a DOI string looks like: "10.", at least one character, '/', at
      least one character, no newline, and optionally one final newline. */
  ghost predicate DoiShape(s: string) {
    var b := Body(s);
    && StartsWith(b, "10.")
    && '\n' !in b
    && exists j :: 4 <= j < |b| - 1 && b[j] == '/'
  }

  lemma MatchIsShape(s: string)
    requires DoiRegexMatch(s)
    ensures DoiShape(s)
  {
    var e := 3 + Span(s, 3, NotNewline);
    var b := Body(s);
    assert b == s[..e];
    assert b[..3] == s[..3] == "10.";
    forall i | 0 <= i < |b| ensures b[i] != '\n' {
      if i < 3 {
        assert b[i] == "10."[i];
      } else {
        assert NotNewline(s[i]);
      }
    }
    var m :| 0 <= m < e - 5 && s[4..e - 1][m] == '/';
    assert b[m + 4] == '/';
  }

  lemma ShapeIsMatch(s: string)
    requires DoiShape(s)
    ensures DoiRegexMatch(s)
  {
    var b := Body(s);
    var j :| 4 <= j < |b| - 1 && b[j] == '/';
    assert s[..3] == b[..3];
    forall i | 3 <= i < |b| ensures NotNewline(s[i]) {
      assert s[i] == b[i];
    }
    SpanUnique(s, 3, NotNewline, |b| - 3);
    assert s[4..|b| - 1][j - 4] == '/';
  }

  /** The regex accepts exactly the texts of the DOI shape. */
  lemma DoiRegexMatchIsShape(s: string)
    ensures DoiRegexMatch(s) <==> DoiShape(s)
  {
    if DoiRegexMatch(s) {
      MatchIsShape(s);
    }
    if DoiShape(s) {
      ShapeIsMatch(s);
    }
  }

  // ---------------------------------------------------------------------------
  // normalize_doi

  /** normalize_doi's second step: a leading "doi:", in any case, is cut off. */
  function DropDoiPrefix(s: string): string {
    if StartsWith(LowerStr(s), "doi:") then s[4..] else s
  }

  /** normalize_doi's third step: an http(s) URL is replaced by its path
      without leading '/'. */
  function DropUrl(s: string): string {
    if IsHttpUrl(s) then LStripChar(UrlParse(s).1, '/') else s
  }

  /** The third step raises: the stripped text without "doi:" is an http(s)
      URL that urlparse rejects. The ValueError is not caught there. */
  predicate UrlStepRaises(input: string) {
    var t := DropDoiPrefix(Strip(input));
    IsHttpUrl(t) && UrlRaises(t)
  }

  /** The text normalize_doi validates: stripped, without a "doi:" prefix, the
      URL path without leading '/' for http(s) URLs, then percent-decoded. */
  function DoiCandidate(input: string): string {
    Unquote(DropUrl(DropDoiPrefix(Strip(input))))
  }

  /** A text whose first character, lower-cased, is neither 'd' nor 'h' has
      no "doi:" prefix and no http(s) scheme. */
  lemma PlainHead(s: string)
    requires s == [] || (LowerChar(s[0]) != 'd' && LowerChar(s[0]) != 'h')
    ensures DropDoiPrefix(s) == s && !IsHttpUrl(s) && DropUrl(s) == s
  {
    var l := LowerStr(s);
    if s != [] {
      LowerHead(s);
    }
    assert "doi:"[0] == 'd' && "http://"[0] == 'h' && "https://"[0] == 'h';
    NotPrefixByHead(l, "doi:");
    NotPrefixByHead(l, "http://");
    NotPrefixByHead(l, "https://");
  }

  /** `DoiCandidate` as the composition of its steps, with the text after
      step three named. */
  lemma CandidateSteps(input: string, t: string)
    requires t == DropUrl(DropDoiPrefix(Strip(input)))
    ensures DoiCandidate(input) == Unquote(t)
  {
  }

  /** A text starting with neither "doi:" nor a scheme passes steps two and three unchanged. */
  lemma {:induction false} CandidateOfPlain(s: string)
    requires s == [] || (!IsSpace(s[0]) && !IsSpace(s[|s| - 1]))
    requires s != [] ==> s[0] != 'd' && s[0] != 'D' && s[0] != 'h' && s[0] != 'H'
    ensures DoiCandidate(s) == Unquote(s)
    ensures !UrlStepRaises(s)
  {
    StripNoop(s);
    PlainHead(s);
  }

  /** normalize_doi: the ValueError of urlparse when the URL step raises;
      otherwise it succeeds exactly when the candidate has the DOI shape, and
      then returns the candidate; otherwise DOIError naming the input. */
  function NormalizeDoi(input: string): (r: Result<string>)
    ensures UrlStepRaises(input) ==> r == Failure(InvalidUrl)
    ensures r.Success? <==> !UrlStepRaises(input) && DoiShape(DoiCandidate(input))
    ensures r.Success? ==> r.value == DoiCandidate(input)
    ensures r.Failure? && !UrlStepRaises(input) ==> r.error == InvalidDoi(input)
  {
    if UrlStepRaises(input) then Failure(InvalidUrl)
    else
      var s := DoiCandidate(input);
      DoiRegexMatchIsShape(s);
      if DoiRegexMatch(s) then Success(s) else Failure(InvalidDoi(input))
  }

  // ---------------------------------------------------------------------------
  // Properties

  /** What the DOI shape says about the string itself, final newline included. */
  lemma DoiShapeFacts(d: string)
    requires DoiShape(d)
    ensures StartsWith(d, "10.")
    ensures forall i :: 0 <= i < |d| - 1 ==> d[i] != '\n'
    ensures exists j :: 4 <= j < |d| - 1 && d[j] == '/'
  {
    var b := Body(d);
    assert b == d || b + "\n" == d;
    assert d[..3] == b[..3];
    var j :| 4 <= j < |b| - 1 && b[j] == '/';
    assert d[j] == '/';
    forall i | 0 <= i < |d| - 1 ensures d[i] != '\n' {
      assert d[i] == b[i];
    }
  }

  /** Every DOI normalize_doi returns starts with "10.", has a '/' with a
      character on each side, and has no newline except possibly a final one. */
  lemma NormalizedDoiShape(input: string)
    requires NormalizeDoi(input).Success?
    ensures var d := NormalizeDoi(input).value;
      && StartsWith(d, "10.")
      && (forall i :: 0 <= i < |d| - 1 ==> d[i] != '\n')
      && exists j :: 4 <= j < |d| - 1 && d[j] == '/'
  {
    DoiShapeFacts(NormalizeDoi(input).value);
  }

  /** A bare DOI that fits in a URL path (no '?', '#', '%', surrounding blanks). */
  ghost predicate PlainDoi(d: string) {
    && DoiShape(d)
    && !IsSpace(d[0]) && !IsSpace(d[|d| - 1])
    && '%' !in d && '?' !in d && '#' !in d
  }

  lemma PlainDoiStart(d: string)
    requires DoiShape(d)
    ensures |d| >= 6 && d[0] == '1'
  {
    var b := Body(d);
    assert b[0] == '1';
    var j :| 4 <= j < |b| - 1 && b[j] == '/';
  }

  /** A DOI with no surrounding whitespace and no '%' is returned unchanged. */
  lemma NormalizeBareDoi(d: string)
    requires DoiShape(d)
    requires !IsSpace(d[0]) && !IsSpace(d[|d| - 1])
    requires '%' !in d
    ensures NormalizeDoi(d) == Success(d)
  {
    PlainDoiStart(d);
    CandidateOfPlain(d);
    UnquoteNoPercent(d);
  }

  /** The "doi:" prefix is dropped, in any case. */
  lemma NormalizeDoiPrefix(d: string, prefix: string)
    requires DoiShape(d) && !IsSpace(d[|d| - 1]) && '%' !in d
    requires |prefix| == 4 && LowerStr(prefix) == "doi:"
    ensures NormalizeDoi(prefix + d) == Success(d)
  {
    PlainDoiStart(d);
    var s := prefix + d;
    assert !IsSpace(prefix[0]) by {
      LowerHead(prefix);
      assert LowerChar(prefix[0]) == 'd';
    }
    assert s[0] == prefix[0] && s[|s| - 1] == d[|d| - 1];
    StripNoop(s);
    LowerConcat(prefix, d);
    assert StartsWith(LowerStr(s), "doi:");
    assert s[4..] == d;
    PlainHead(d);
    UnquoteNoPercent(d);
    CandidateSteps(s, d);
  }

  /** A text that does not start with '1' is not a DOI. */
  lemma NotDoiShape(t: string)
    requires t != [] && t[0] != '1'
    ensures !DoiShape(t)
  {
    if |t| > 1 {
      assert Body(t)[0] == t[0];
    }
  }

  /** The text after `doi:` is not trimmed again: a blank after the prefix
      makes the input invalid. */
  lemma NormalizeDoiPrefixBlank(d: string)
    requires PlainDoi(d)
    ensures NormalizeDoi("doi: " + d) == Failure(InvalidDoi("doi: " + d))
  {
    PlainDoiStart(d);
    var s := "doi: " + d;
    assert s[|s| - 1] == d[|d| - 1];
    StripNoop(s);
    var t := s[4..];
    assert DropDoiPrefix(s) == t by {
      assert LowerStr(s)[..4] == "doi:";
    }
    assert t == " " + d;
    assert !IsHttpUrl(t) by {
      assert LowerStr(t)[0] == ' ';
    }
    UnquoteNoPercent(t);
    assert DoiCandidate(s) == t;
    NotDoiShape(t);
    assert !UrlStepRaises(s);
  }

  /** The scheme of a URL written in lower case is found as written. */
  lemma SchemeOf(s: string, scheme: string)
    requires HttpScheme(scheme)
    requires StartsWith(s, scheme)
    ensures IsHttpUrl(s) && SchemeLength(s) == |scheme|
  {
    var l := LowerStr(s);
    var w := LowerStr(scheme);
    assert s == scheme + s[|scheme|..];
    LowerConcat(scheme, s[|scheme|..]);
    assert l[..|scheme|] == w;
    if w == "https://" {
      assert l[4] == w[4] == 's';
      assert l[..8] == w;
    } else {
      assert l[..7] == w;
    }
  }

  /** The path left of `<scheme><host>/<d>`, for a host without '/', '?', '#',
      is `d` when `d` has no '?', '#' and does not start with '/'. */
  lemma DropUrlOfPath(scheme: string, host: string, d: string)
    requires HttpScheme(scheme)
    requires forall i :: 0 <= i < |host| ==> InNetloc(host[i])
    requires |d| > 0 && d[0] != '/' && '?' !in d && '#' !in d && NoParams(d)
    ensures DropUrl(scheme + host + "/" + d) == d
  {
    UrlParseOf(scheme, host, d);
    var path := "/" + d;
    assert path[1..] == d;
    assert LStripChar(path, '/') == d;
  }

  /** A scheme starts with 'h' or 'H'. */
  lemma SchemeHead(scheme: string)
    requires HttpScheme(scheme)
    ensures |scheme| >= 7 && LowerChar(scheme[0]) == 'h' && !IsSpace(scheme[0])
  {
    LowerHead(scheme);
  }

  /** A URL ending in a DOI is not trimmed and carries no "doi:" prefix. */
  lemma UrlHead(scheme: string, host: string, tail: string)
    requires HttpScheme(scheme)
    requires tail != [] && !IsSpace(tail[|tail| - 1])
    ensures var s := scheme + host + "/" + tail;
      Strip(s) == s && DropDoiPrefix(s) == s
  {
    SchemeHead(scheme);
    var s := scheme + host + "/" + tail;
    assert s[0] == scheme[0] && s[|s| - 1] == tail[|tail| - 1];
    StripNoop(s);
    LowerHead(s);
    assert "doi:"[0] == 'd';
    NotPrefixByHead(LowerStr(s), "doi:");
  }

  /** Steps three to five of normalize_doi (doi2bib3/backend.py:28-34) on a
      URL: a stripped URL without "doi:" that urlparse accepts and whose path,
      without leading '/', is a DOI without '%' normalizes to that DOI. */
  lemma NormalizeUrlInput(s: string, d: string)
    requires Strip(s) == s && DropDoiPrefix(s) == s
    requires IsHttpUrl(s) && !Unbalanced(UrlSplit(s).0)
    requires DropUrl(s) == d && DoiShape(d) && '%' !in d
    ensures NormalizeDoi(s) == Success(d)
  {
    UnquoteNoPercent(d);
    CandidateSteps(s, d);
  }

  /** `<scheme><host>/` + DOI yields the DOI, for a host without '/', '?',
      '#' that urlparse accepts, and a DOI whose last segment has no ';'. */
  lemma NormalizeDoiOfUrl(scheme: string, host: string, d: string)
    requires HttpScheme(scheme)
    requires forall i :: 0 <= i < |host| ==> InNetloc(host[i])
    requires !Unbalanced(host)
    requires PlainDoi(d) && NoParams(d)
    ensures NormalizeDoi(scheme + host + "/" + d) == Success(d)
  {
    PlainDoiStart(d);
    var s := scheme + host + "/" + d;
    UrlHead(scheme, host, d);
    UrlSplitOf(scheme, host, d);
    DropUrlOfPath(scheme, host, d);
    NormalizeUrlInput(s, d);
  }

  /** The path left of `<scheme><host>/<d>;<rest>` is `d` when the last
      segment of `d` has no ';' and `rest` has no '/': the rest is `params`. */
  lemma DropUrlOfParams(scheme: string, host: string, d: string, rest: string)
    requires HttpScheme(scheme)
    requires forall i :: 0 <= i < |host| ==> InNetloc(host[i])
    requires |d| > 0 && d[0] != '/' && '?' !in d && '#' !in d && NoParams(d)
    requires '/' !in rest && '?' !in rest && '#' !in rest
    ensures IsHttpUrl(scheme + host + "/" + (d + ";" + rest))
    ensures UrlSplit(scheme + host + "/" + (d + ";" + rest)).0 == host
    ensures DropUrl(scheme + host + "/" + (d + ";" + rest)) == d
  {
    var tail := d + ";" + rest;
    forall i | 0 <= i < |tail| ensures InPath(tail[i]) {
      if i > |d| { assert tail[i] == rest[i - |d| - 1]; }
    }
    UrlSplitOf(scheme, host, tail);
    PrefixNoParams("/", d);
    assert "/" + tail == ("/" + d) + ";" + rest;
    ParamsCutAt("/" + d, rest);
    assert ("/" + d)[1..] == d;
  }

  /** A DOI whose last segment holds a ';' is cut there when it comes in a
      URL: urlparse takes the rest for `params`. */
  lemma NormalizeDoiOfUrlParams(scheme: string, host: string, d: string, rest: string)
    requires HttpScheme(scheme)
    requires forall i :: 0 <= i < |host| ==> InNetloc(host[i])
    requires !Unbalanced(host)
    requires PlainDoi(d) && NoParams(d)
    requires rest != [] && !IsSpace(rest[|rest| - 1])
    requires '/' !in rest && '?' !in rest && '#' !in rest
    ensures NormalizeDoi(scheme + host + "/" + d + ";" + rest) == Success(d)
  {
    PlainDoiStart(d);
    var tail := d + ";" + rest;
    var s := scheme + host + "/" + tail;
    assert s == scheme + host + "/" + d + ";" + rest;
    assert tail[|tail| - 1] == rest[|rest| - 1];
    UrlHead(scheme, host, tail);
    DropUrlOfParams(scheme, host, d, rest);
    NormalizeUrlInput(scheme + host + "/" + tail, d);
  }

  /** The netloc of the URL step, when urlparse rejects it, decides: the
      ValueError comes out of normalize_doi. */
  lemma NormalizeDoiRaises(scheme: string, host: string, tail: string)
    requires HttpScheme(scheme)
    requires forall i :: 0 <= i < |host| ==> InNetloc(host[i])
    requires Unbalanced(host)
    requires tail != [] && !IsSpace(tail[|tail| - 1])
    requires forall i :: 0 <= i < |tail| ==> InPath(tail[i])
    ensures NormalizeDoi(scheme + host + "/" + tail) == Failure(InvalidUrl)
  {
    UrlHead(scheme, host, tail);
    UrlSplitOf(scheme, host, tail);
  }

  /** A resolver URL yields the DOI after it, for the four resolver bases
      the documentation shows: `http://` or `https://`, then `doi.org` or
      `dx.doi.org`, then '/'. */
  lemma NormalizeDoiUrl(d: string, scheme: string, host: string)
    requires PlainDoi(d) && NoParams(d)
    requires scheme == "https://" || scheme == "http://"
    requires host == "doi.org" || host == "dx.doi.org"
    ensures NormalizeDoi(scheme + host + "/" + d) == Success(d)
  {
    LowerNoCapitals(scheme);
    assert '[' !in host && ']' !in host;
    NormalizeDoiOfUrl(scheme, host, d);
  }

  /** A DOI shape without a newline, checked position by position. */
  lemma PlainDoiIntro(d: string, j: nat)
    requires StartsWith(d, "10.") && 4 <= j < |d| - 1 && d[j] == '/'
    requires '\n' !in d && '%' !in d && '?' !in d && '#' !in d
    requires !IsSpace(d[0]) && !IsSpace(d[|d| - 1])
    ensures PlainDoi(d)
  {
    assert Body(d) == d;
  }

  /** The DOI of the documentation's example is a plain DOI. */
  lemma ExampleDoiIsPlain()
    ensures PlainDoi("10.48550/arXiv.2411.08091")
    ensures PlainDoi("10.1/a")
  {
    var d := "10.48550/arXiv.2411.08091";
    assert StartsWith(d, "10.") && d[8] == '/';
    PlainDoiIntro(d, 8);
    var e := "10.1/a";
    assert StartsWith(e, "10.") && e[4] == '/';
    PlainDoiIntro(e, 4);
  }

  /** The four input forms the documentation shows give back a plain DOI
      without `;params`: bare, after `doi:`, after `https://doi.org/` and
      after `http://dx.doi.org/`. */
  lemma DocumentedForms(d: string)
    requires PlainDoi(d) && NoParams(d)
    ensures NormalizeDoi(d) == Success(d)
    ensures NormalizeDoi("doi:" + d) == Success(d)
    ensures NormalizeDoi("https://doi.org/" + d) == Success(d)
    ensures NormalizeDoi("http://dx.doi.org/" + d) == Success(d)
  {
    NormalizeBareDoi(d);
    PrefixForm(d);
    DoiOrgForm(d);
    DxDoiOrgForm(d);
  }

  lemma PrefixForm(d: string)
    requires PlainDoi(d)
    ensures NormalizeDoi("doi:" + d) == Success(d)
  {
    assert LowerStr("doi:") == "doi:" by {
      LowerNoCapitals("doi:");
    }
    NormalizeDoiPrefix(d, "doi:");
  }

  lemma DoiOrgForm(d: string)
    requires PlainDoi(d) && NoParams(d)
    ensures NormalizeDoi("https://doi.org/" + d) == Success(d)
  {
    SameUrl(d, "https://", "doi.org", "https://doi.org/");
    NormalizeDoiUrl(d, "https://", "doi.org");
  }

  /** A resolver base written in one piece is its scheme, host and '/'. */
  lemma SameUrl(d: string, scheme: string, host: string, base: string)
    requires base == scheme + host + "/"
    ensures scheme + host + "/" + d == base + d
  {
  }

  lemma DxDoiOrgForm(d: string)
    requires PlainDoi(d) && NoParams(d)
    ensures NormalizeDoi("http://dx.doi.org/" + d) == Success(d)
  {
    SameUrl(d, "http://", "dx.doi.org", "http://dx.doi.org/");
    NormalizeDoiUrl(d, "http://", "dx.doi.org");
  }

  /** ... and so do they for the example DOI of the documentation. */
  lemma ExampleDoiForms(d: string)
    requires d == "10.48550/arXiv.2411.08091"
    ensures NormalizeDoi(d) == Success(d)
    ensures NormalizeDoi("doi:" + d) == Success(d)
    ensures NormalizeDoi("https://doi.org/" + d) == Success(d)
    ensures NormalizeDoi("http://dx.doi.org/" + d) == Success(d)
  {
    ExampleDoiIsPlain();
    assert NoParams(d) by {
      assert forall i :: 0 <= i < |d| ==> d[i] != ';';
    }
    DocumentedForms(d);
  }

  /** A text that starts with none of '1', 'd', 'D', 'h', 'H', has no
      surrounding whitespace and no '%' is rejected, with the input in the error. */
  lemma RejectsPlain(s: string)
    requires s != [] && s[0] != '1' && s[0] != 'd' && s[0] != 'D' && s[0] != 'h' && s[0] != 'H'
    requires !IsSpace(s[0]) && !IsSpace(s[|s| - 1]) && '%' !in s
    ensures NormalizeDoi(s) == Failure(InvalidDoi(s))
  {
    CandidateOfPlain(s);
    UnquoteNoPercent(s);
    NotDoiShape(s);
  }

  /** The documentation's example of a text that is not a DOI. */
  lemma NotADoi()
    ensures NormalizeDoi("not-a-doi") == Failure(InvalidDoi("not-a-doi"))
  {
    var n := "not-a-doi";
    assert n[0] == 'n' && n[|n| - 1] == 'i' && '%' !in n;
    RejectsPlain(n);
  }

  /** A DOI without a final newline stays a DOI when a character other than
      a newline is appended. */
  lemma DoiShapeExtend(d: string, c: char)
    requires DoiShape(d) && d[|d| - 1] != '\n' && c != '\n'
    ensures DoiShape(d + [c])
  {
    var r := d + [c];
    var b := Body(d);
    assert b == d;
    var j :| 4 <= j < |b| - 1 && b[j] == '/';
    assert Body(r) == r;
    assert r[j] == '/' && r[..3] == d[..3];
    assert '\n' !in r;
  }

  lemma UnquoteA()
    ensures Unquote("%41") == "A"
  {
  }

  lemma CandidateOfPercent(d: string)
    requires PlainDoi(d)
    ensures DoiCandidate(d + "%41") == d + "A"
  {
    PlainDoiStart(d);
    var s := d + "%41";
    assert s[0] == '1' && s[|s| - 1] == '1';
    CandidateOfPlain(s);
    UnquoteAfterPlain(d, "%41");
    UnquoteA();
  }

  /** Percent-decoding happens before validation, so a DOI followed by "%41"
      comes back with "A": a DOI is returned unchanged only without '%'. */
  lemma PercentInDoiIsDecoded(d: string)
    requires PlainDoi(d)
    ensures NormalizeDoi(d + "%41") == Success(d + "A")
  {
    CandidateOfPercent(d);
    PlainDoiStart(d);
    DoiShapeExtend(d, 'A');
  }
}
