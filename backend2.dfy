/**
 * doi2bib2/backend.py and its copy doi2bib2_backend.py: the stricter
 * arXiv id check of `arxiv_to_doi`, `pmid_to_doi` (live only in
 * doi2bib2/backend.py), and `get_bibtex_from_doi`, which validates the DOI
 * before any request. `normalize_doi` and the response-text extraction are
 * the shared ones of modules Doi and Arxiv.
 */
module Backend2 {
  import opened Results
  import opened Text
  import opened Regex
  import opened Doi
  import opened Arxiv

  // ---------------------------------------------------------------------------
  // arxiv_to_doi

  /** `^\d+\.\d+(v(\d+))?$` on the cleaned (hence stripped) id. */
  predicate ValidArxivId(id: string) {
    var n := Span(id, 0, IsDigit);
    0 < n < |id| && id[n] == '.' && DigitsWithVersion(id[n + 1..])
  }

  /** `arxiv_to_doi` given the arXiv API response. */
  function ArxivToDoi(arxivId: string, resp: Response): (r: Result<Option<string>>)
    ensures r == Failure(InvalidArxivId) <==> !ValidArxivId(CleanArxivId(arxivId))
    ensures r.Failure? && r.error.ArxivQueryFailed? <==>
      ValidArxivId(CleanArxivId(arxivId)) && resp.status != 200
    ensures r.Success? ==> r.value == ExtractDoiFromFeed(resp.text)
    ensures r.Failure? ==> r.error == InvalidArxivId || r.error == ArxivQueryFailed(resp.status)
  {
    var id := CleanArxivId(arxivId);
    if !ValidArxivId(id) then Failure(InvalidArxivId)
    else if resp.status != 200 then Failure(ArxivQueryFailed(resp.status))
    else Success(ExtractDoiFromFeed(resp.text))
  }

  /** Every modern id "YYMM.NNNNN(vN)" passes this check. */
  lemma ModernIdIsValid(id: string)
    requires ModernArxivId(id)
    ensures ValidArxivId(id)
  {
    forall j | 0 <= j < 4 ensures IsDigit(id[j]) {
      assert id[..4][j] == id[j];
    }
    assert !IsDigit(id[4]);
    SpanUnique(id, 0, IsDigit, 4);
  }

  /** A legacy id such as "hep-th/9901001" does not pass: a letter comes
      where a digit is needed. */
  lemma LegacyIdIsInvalid(id: string)
    requires LegacyArxivId(id)
    ensures !ValidArxivId(id)
  {
    assert IsLetterOrHyphen(id[0]);
    assert Span(id, 0, IsDigit) == 0;
  }

  /** A subject class, '/', and seven digits make a legacy identifier. */
  lemma LegacyIntro(t: string, n: nat)
    requires 0 < n && |t| == n + 8 && t[n] == '/'
    requires forall j :: 0 <= j < n ==> IsLetterOrHyphen(t[j])
    requires forall j :: n < j < |t| ==> IsDigit(t[j])
    ensures LegacyArxivId(t)
  {
    SpanUnique(t, 0, IsLetterOrHyphen, n);
    var d := t[n + 1..];
    forall j | 0 <= j < |d| ensures IsDigit(d[j]) {
      assert d[j] == t[n + 1 + j];
    }
  }

  lemma HepThIsLegacy()
    ensures LegacyArxivId("hep-th/9901001")
  {
    var t := "hep-th/9901001";
    forall j | 0 <= j < 6 ensures IsLetterOrHyphen(t[j]) {
    }
    forall j | 6 < j < |t| ensures IsDigit(t[j]) {
    }
    LegacyIntro(t, 6);
  }

  /** So `arxiv_to_doi` of doi2bib2 raises ValueError for legacy ids, with or
      without surrounding blanks or an "arXiv:" prefix in front. */
  lemma ArxivToDoiRejectsLegacy(arxivId: string, resp: Response)
    requires LegacyArxivId(CleanArxivId(arxivId))
    ensures ArxivToDoi(arxivId, resp) == Failure(InvalidArxivId)
  {
    LegacyIdIsInvalid(CleanArxivId(arxivId));
  }

  // ---------------------------------------------------------------------------
  // pmid_to_doi

  /** `^\d+$|^PMC\d+(\.\d+)?$` on the stripped PMID; "PMC" is case-sensitive. */
  predicate ValidPmid(p: string) {
    || IsDigits(p)
    || (&& StartsWith(p, "PMC")
        && var n := Span(p, 3, IsDigit);
           0 < n && (3 + n == |p| || (p[3 + n] == '.' && IsDigits(p[4 + n..]))))
  }

  /** One element of the id converter's `records`: a JSON object. */
  type Record = map<string, string>

  /** The id converter's answer: its status and its `records`, None when absent. */
  datatype PmidReply = PmidReply(status: int, records: Option<seq<Record>>)

  /** `pmid_to_doi`: ValueError for a malformed PMID, DOIError for a status
      other than 200; no DOI when `records` is missing or empty or its first
      record is empty; otherwise the first record's "doi", if any. */
  function PmidToDoi(pmid: string, reply: PmidReply): (r: Result<Option<string>>)
    ensures r == Failure(InvalidPmid) <==> !ValidPmid(Strip(pmid))
    ensures r == Failure(PmidConversionFailed(reply.status)) <==> ValidPmid(Strip(pmid)) && reply.status != 200
    ensures r.Success? && r.value.Some? ==>
      reply.records.Some? && |reply.records.value| > 0 && "doi" in reply.records.value[0]
      && r.value.value == reply.records.value[0]["doi"]
    ensures r.Success? && r.value.None? ==>
      reply.records.None? || reply.records.value == [] || "doi" !in reply.records.value[0]
  {
    var p := Strip(pmid);
    if !ValidPmid(p) then Failure(InvalidPmid)
    else if reply.status != 200 then Failure(PmidConversionFailed(reply.status))
    else if reply.records.None? || reply.records.value == [] || reply.records.value[0] == map[] then Success(None)
    else
      var first := reply.records.value[0];
      Success(if "doi" in first then Some(first["doi"]) else None)
  }

  /** A valid PMID with a first record carrying a DOI gives that DOI. */
  lemma PmidFirstRecordDoi(pmid: string, reply: PmidReply)
    requires ValidPmid(Strip(pmid)) && reply.status == 200
    requires reply.records.Some? && |reply.records.value| > 0 && "doi" in reply.records.value[0]
    ensures PmidToDoi(pmid, reply) == Success(Some(reply.records.value[0]["doi"]))
  {
    assert reply.records.value[0] != map[];
  }

  /** Only the first record is looked at: later records cannot supply a DOI. */
  lemma PmidLaterRecordsIgnored(pmid: string, reply: PmidReply, rest: seq<Record>)
    requires reply.records.Some? && |reply.records.value| > 0
    ensures PmidToDoi(pmid, reply) ==
      PmidToDoi(pmid, PmidReply(reply.status, Some([reply.records.value[0]] + rest)))
  {
  }

  /** Digits, and "PMC" with digits and an optional ".digits" part, are the
      valid forms; a lower-case "pmc" is not. */
  lemma PmidForms(digits: string, more: string)
    requires IsDigits(digits) && IsDigits(more)
    ensures ValidPmid(digits)
    ensures ValidPmid("PMC" + digits)
    ensures ValidPmid("PMC" + digits + "." + more)
    ensures !ValidPmid("pmc" + digits)
  {
    var a := "PMC" + digits;
    forall j | 3 <= j < |a| ensures IsDigit(a[j]) {
      assert a[j] == digits[j - 3];
    }
    SpanUnique(a, 3, IsDigit, |digits|);
    assert a[..3] == "PMC";
    var b := "PMC" + digits + "." + more;
    forall j | 3 <= j < 3 + |digits| ensures IsDigit(b[j]) {
      assert b[j] == digits[j - 3];
    }
    SpanUnique(b, 3, IsDigit, |digits|);
    assert b[..3] == "PMC";
    assert b[4 + |digits|..] == more;
    var c := "pmc" + digits;
    assert !IsDigit(c[0]);
  }

  // ---------------------------------------------------------------------------
  // get_bibtex_from_doi

  /** `get_bibtex_from_doi`: the DOI is normalized first; then the doi.org
      answer is returned if it is 200, and DOIError is raised otherwise. */
  function GetBibtexFromDoi(input: string, doiOrg: Response): (r: Result<string>)
    ensures NormalizeDoi(input).Failure? ==> r == Failure(NormalizeDoi(input).error)
    ensures NormalizeDoi(input).Success? && doiOrg.status == 200 ==> r == Success(doiOrg.text)
    ensures NormalizeDoi(input).Success? && doiOrg.status != 200 ==>
      r == Failure(FetchFailed(NormalizeDoi(input).value, doiOrg.status, None))
  {
    match NormalizeDoi(input)
    case Failure(e) => Failure(e)
    case Success(doi) =>
      if doiOrg.status == 200 then Success(doiOrg.text)
      else Failure(FetchFailed(doi, doiOrg.status, None))
  }

  /** An invalid DOI is rejected before any request, with the DOIError of
      normalize_doi, or its ValueError for a URL urlparse rejects: the answer
      plays no part. */
  lemma InvalidDoiBeforeRequest(input: string, a: Response, b: Response)
    requires NormalizeDoi(input).Failure?
    ensures GetBibtexFromDoi(input, a) == GetBibtexFromDoi(input, b)
    ensures !UrlStepRaises(input) ==> GetBibtexFromDoi(input, a) == Failure(InvalidDoi(input))
    ensures UrlStepRaises(input) ==> GetBibtexFromDoi(input, a) == Failure(InvalidUrl)
  {
  }
}
