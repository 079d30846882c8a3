# doi2bib3 in Dafny: identifier resolution and BibTeX normalization

doi2bib3 turns a DOI, a DOI URL, an arXiv id or URL, or a free-form query
into BibTeX. It then cleans the BibTeX up field by field. This project models
the two text-processing parts of the program and proves what they promise.

- **Identifier resolution.** This covers:
  - `normalize_doi` and its pattern `^10\..+/.+$`;
  - the arXiv id recognition of the doi2bib3 backend;
  - the DOI extraction from an arXiv API response (three regex searches in a fixed order);
  - the `10.48550/arXiv.<id>` fallback;
  - the Crossref candidate choice;
  - the order in which `get_bibtex_from_doi` tries all of these;
  - the PMID conversion of the doi2bib2 package.

  Every network answer (status and text, JSON records, Crossref items) is a
  parameter.
- **The BibTeX normalizer.** `normalize_bibtex` rewrites each parsed entry in place:
  - `ID` loses its underscores;
  - `pages` is dropped or its dashes are normalized;
  - `url` is percent-decoded;
  - `title` gets the `\var` math rule;
  - `month` loses one pair of braces;
  - `title`, `journal` and `booktitle` get TeX escapes.

  `save_bibtex_to_file` decides whether an append starts with a newline.

The same code appears in several copies, and each copy is modelled once:
- `normalize_doi`, the id clean-up of `arxiv_to_doi` and its three searches
  are identical in doi2bib3/backend.py, doi2bib2/backend.py and
  doi2bib2_backend.py. They live in `Doi` and `Arxiv`.
- doi2bib2/utils.py and bib_utils.py behave identically. doi2bib3/utils.py
  differs in the `pages` rule and in its `\var` pattern, so the field rules
  take a `Variant` (`Doi2bib2` covers both of the first two files, `Doi2bib3` the third).
- `SPECIAL_CHARS`, `encode_special_chars` and `save_bibtex_to_file` are
  identical in all three utility files.

Modules, one per file:
- `Results` (results.dfy): Option and Result.
- `Text` (text.dfy): the methods of Python `str` the code uses, and `unquote`.
- `Regex` (regex.dfy): greedy runs, `$`, leftmost search, `re.sub`.
- `Doi` (doi.dfy), `Arxiv` (arxiv.dfy), `Backend3` (backend3.dfy),
  `Backend2` (backend2.dfy): the resolution side.
- `BibRules` (bibrules.dfy), `TitleMath` (dollars.dfy), `TexEscapes`
  (escapes.dfy), `Normalizer` (normalizer.dfy), `BibFile` (bibfile.dfy): the
  BibTeX side.

`normalize_bibtex` is a method that updates an array of entries in place.
Each entry is a `map<string, string>`. Each entry ends up equal to the pure
`NormalizeEntry` of its old value. The per-field loop body is a chain of
methods, one per rule, in the order of the source. The escape loop visits the
keys in an arbitrary order and reassigns the map. `encode_special_chars` is a
loop over the table that reassigns the value.

Where the documentation of the program and its code disagree, the model follows the code:
- The whole normalizer is not idempotent (`NormalizeNotIdempotent`): a second
  pass removes a second pair of braces from `month`. A second decoding of
  `url` decodes "%2541" further (`BibRules.UrlNotIdempotent`).
- `normalize_doi` percent-decodes before it validates, so a DOI containing
  '%' is not returned unchanged (`Doi.PercentInDoiIsDecoded`).
- In doi2bib3/utils.py the `\var` pattern and its replacement are written
  with doubled backslashes inside raw strings. As written, the pattern matches
  the literal text `\{\var…\}`, and each match becomes the literal eight
  characters `\1$\2$\3`. `{\varX}` is left alone
  (`TitleMath.InsertDollars3KeepsBraceVar`).
- When the probe of the file fails with `OSError`, the append still starts
  with a newline (bib_utils.py:125), although the comment before it says it
  proceeds without one.

## Model

| member | source | states |
|---|---|---|
| Doi.NormalizeDoi | doi2bib3/backend.py:21-34 | succeeds exactly when urlparse accepts the input (if it is an http(s) URL) and the stripped, `doi:`-less, URL-path-reduced, percent-decoded candidate has the DOI shape; returns that candidate; ValueError for a URL whose netloc has an unbalanced bracket; otherwise DOIError naming the input; the same code is in doi2bib2/backend.py and doi2bib2_backend.py |
| Doi.DoiCandidate | doi2bib3/backend.py:25-31 | the text normalize_doi validates: stripped, without `doi:`, reduced to the URL path without its leading slashes, percent-decoded; its results are stated by Doi.CandidateOfPlain, Doi.NormalizeBareDoi, Doi.NormalizeDoiOfUrl and Doi.PercentInDoiIsDecoded |
| Doi.DoiRegexMatch | doi2bib3/backend.py:21 | the engine's reading of `^10\..+/.+$`, proved equal to Doi.DoiShape by Doi.MatchIsShape and Doi.ShapeIsMatch |
| Doi.DoiShape | doi2bib3/backend.py:21 | the declarative DOI shape: "10.", a '/' with a character on each side, no newline but a final one; its consequences are in Doi.DoiShapeFacts |
| Doi.CandidateOfPlain | doi2bib3/backend.py:25-31 | a text not starting with `doi:` or `http` in any case is only stripped and percent-decoded, and never parsed as a URL |
| Doi.DoiRegexMatchIsShape | doi2bib3/backend.py:21 | the engine's reading of `^10\..+/.+$` (greedy `.+` over non-newlines, `$` also before one final newline) holds exactly for "10.", a '/' with a character on each side, no interior newline |
| Doi.NormalizedDoiShape | doi2bib3/backend.py:32-34 | every returned DOI starts with "10.", has a '/' with a character before and after it, and no newline except possibly the last character |
| Doi.NormalizeBareDoi | doi2bib2_backend.py:44-60 | a DOI without surrounding blanks and without '%' is returned unchanged |
| Doi.NormalizeDoiPrefix | doi2bib3/backend.py:26-27 | `doi:` in any case before a DOI without '%' and without a trailing blank is removed |
| Doi.NormalizeDoiPrefixBlank | doi2bib3/backend.py:25-34 | the text after `doi:` is not trimmed again, so `doi: <doi>` raises DOIError naming the input |
| Doi.NormalizeDoiUrl | doi2bib3/backend.py:28-31 | `http(s)://doi.org/` and `http(s)://dx.doi.org/` followed by a DOI without a `;params` tail give the DOI |
| Doi.ExampleDoiIsPlain | doi2bib2_backend.py:36-42 | the documented DOI "10.48550/arXiv.2411.08091" is a plain DOI |
| Doi.DocumentedForms | doi2bib2_backend.py:36-42 | a plain DOI without a `;params` tail is given back bare, after `doi:`, after `https://doi.org/` and after `http://dx.doi.org/` |
| Doi.ExampleDoiForms | doi2bib2_backend.py:36-42 | the four documented input forms of "10.48550/arXiv.2411.08091" all yield it |
| Doi.NormalizeUrlInput | doi2bib3/backend.py:28-34 | a stripped URL without `doi:` that urlparse accepts, whose path without leading '/' is a DOI without '%', normalizes to that DOI |
| Doi.NormalizeDoiOfUrl | doi2bib3/backend.py:28-31 | any http(s) URL, scheme in any case, whose netloc urlparse accepts and whose path is `/` and a DOI without a `;params` tail gives that DOI, whatever the host |
| Doi.NormalizeDoiOfUrlParams | doi2bib3/backend.py:28-33 | in a URL path `/<doi>;<rest>` with no '/' in the rest, urlparse cuts the parameters, so the DOI before the ';' is returned, as for a SICI-style DOI |
| Doi.NormalizeDoiRaises | doi2bib3/backend.py:28-30 | an http(s) URL whose netloc holds '[' without ']' or the reverse makes urlparse raise ValueError, not DOIError |
| Doi.RejectsPlain | doi2bib3/backend.py:25-34 | a trimmed text without '%' that cannot start "10.", `doi:` or `http` raises DOIError naming it |
| Doi.MatchIsShape | doi2bib2/backend.py:26-38 | a text the DOI pattern matches has the DOI shape |
| Doi.ShapeIsMatch | doi2bib2_backend.py:59-60 | a text of the DOI shape is matched by the pattern |
| Doi.NotADoi | doi2bib2/backend.py:37-39 | "not-a-doi" raises DOIError with the input in the message |
| Doi.PercentInDoiIsDecoded | doi2bib3/backend.py:31-33 | percent-decoding comes before validation: a DOI followed by "%41" is returned with "A" |
| Doi.UrlSplit | doi2bib3/backend.py:28-29 | urlsplit: the netloc is the run after the scheme up to '/', '?' or '#'; the path runs from there up to '?' or '#' and starts with '/' when non-empty |
| Doi.UrlRaises | doi2bib3/backend.py:29 | urlsplit raises ValueError exactly when the netloc holds one of '[' and ']' without the other; the consequences are stated by Doi.NormalizeDoi, Doi.NormalizeDoiRaises and Backend3.ResolveRejectedUrl |
| Doi.ParamsCut | doi2bib3/backend.py:29-30 | for http(s) urlparse ends the path at the first ';' after its last '/': the result is a prefix of the path with no ';' between the last '/' and its end, and the path goes on with ';' unless it is whole |
| Doi.ParamsCutNoParams | doi2bib3/backend.py:29-30 | a path whose every ';' has a '/' after it is kept whole |
| Doi.ParamsCutAt | doi2bib3/backend.py:29-30 | a path `<a>;<rest>` with no '/' in the rest, and `<a>` without parameters, is cut back to `<a>` |
| Doi.UrlParse | doi2bib3/backend.py:29-30 | urlparse: the netloc of urlsplit and a prefix of its path, starting with '/' when non-empty |
| Arxiv.ElementAt | doi2bib3/backend.py:172 | a reported match of `<arxiv:doi\b[^>]*>([^<]+)</arxiv:doi>` (and of the `<doi>` pattern) meets the declarative match: word boundary, attributes without '>', a non-empty group without '<', the closing tag |
| Arxiv.ElementAtComplete | doi2bib3/backend.py:172-177 | every match of an element pattern at an index is the one the engine reports |
| Arxiv.FindElement | doi2bib3/backend.py:172-177 | `re.search` gives the leftmost index with a match, and none is missed |
| Arxiv.ElementContentIsFirst | doi2bib3/backend.py:172-174 | the group the search returns is the group of the leftmost match |
| Arxiv.ElementContentNone | doi2bib3/backend.py:172-177 | the search fails exactly when the pattern matches nowhere |
| Arxiv.HrefAt | doi2bib3/backend.py:178 | a reported href match has `href=`, a quote, one of the four resolver prefixes, a non-empty run without quotes, and a quote |
| Arxiv.HrefAtComplete | doi2bib3/backend.py:178-180 | every href match at an index is the one the engine reports |
| Arxiv.ResolverLengthUnique | doi2bib3/backend.py:178 | at most one of `https?://(dx\.)?doi\.org/` fits at a position |
| Arxiv.FindHref | doi2bib3/backend.py:178-180 | the href search gives the leftmost match |
| Arxiv.HrefContentIsFirst | doi2bib3/backend.py:178-180 | the href group returned is that of the leftmost match |
| Arxiv.HrefContentNone | doi2bib3/backend.py:178-181 | the href search fails exactly when no href matches |
| Arxiv.FeedArxivElementFirst | doi2bib2_backend.py:126-130 | the leftmost `<arxiv:doi>` element decides, trimmed, wherever `<doi>` elements or links occur |
| Arxiv.FeedDoiElementSecond | doi2bib2_backend.py:131-134 | without an `<arxiv:doi>` element, the leftmost `<doi>` element decides, trimmed |
| Arxiv.FeedHrefThird | doi2bib2/backend.py:95-97 | without either element, the leftmost resolver link decides, trimmed and percent-decoded |
| Arxiv.FeedNone | doi2bib3/backend.py:172-181 | no DOI exactly when none of the three patterns matches anywhere |
| Arxiv.FeedBlankContent | doi2bib2_backend.py:128-130 | element content made of blanks gives the empty string, not None |
| Arxiv.ExtractDoiFromFeed | doi2bib3/backend.py:172-181 | the three searches in order; stated by Arxiv.FeedArxivElementFirst, FeedDoiElementSecond, FeedHrefThird, FeedNone and FeedBlankContent |
| Arxiv.ElementContent | doi2bib3/backend.py:172-177 | the group of an element search; stated by Arxiv.ElementContentIsFirst and ElementContentNone |
| Arxiv.HrefContent | doi2bib3/backend.py:178-180 | the group of the href search; stated by Arxiv.HrefContentIsFirst and HrefContentNone |
| Arxiv.ModernArxivId | doi2bib3/backend.py:130 | the shape `^\d{4}\.\d+(v\d+)?$`; stated by Backend3.ExtractArxivIdBare and Backend2.ModernIdIsValid |
| Arxiv.LegacyArxivId | doi2bib3/backend.py:134 | the shape `^[a-z\-]+/\d{7}$` under `re.I`; stated by Arxiv.LegacyIsVersionedLegacy and Backend2.HepThIsLegacy |
| Arxiv.CleanArxivId | doi2bib3/backend.py:158-160 | the cleaned id has no blank at either end |
| Arxiv.ArxivPrefixColon | doi2bib3/backend.py:159-160 | in an `arxiv:`-prefixed id the first ':' is the prefix's, so `split(':', 1)[1]` is the text after the prefix |
| Arxiv.IdShapesHaveNoColon | doi2bib3/backend.py:164 | ids of the modern or the legacy shape contain no ':' |
| Arxiv.LegacyIsVersionedLegacy | doi2bib3/backend.py:134-135 | every legacy id `_extract_arxiv_id` accepts also passes the validation of `arxiv_to_doi` |
| Backend3.ExtractArxivIdOfDoi | doi2bib3/backend.py:105-106 | empty input and any input starting with "10." give None |
| Backend3.DoiHeadIsNoArxivForm | doi2bib3/backend.py:109-135 | a text starting with "10." has no `arxiv:` prefix, is no URL and has neither id shape |
| Backend3.ExtractArxivIdBare | doi2bib3/backend.py:107-135 | an input whose stripped form is a bare modern `dddd.d+(vN)?` or legacy `letters-or-hyphens/ddddddd` id gives that stripped form |
| Backend3.ExtractArxivIdPrefix | doi2bib3/backend.py:107-110 | after `arXiv:` in any case, the rest, trimmed of blanks on both sides, is returned without validation |
| Backend3.ExtractArxivIdUrl | doi2bib3/backend.py:113-125 | an http(s) URL, scheme in any case, whose host contains "arxiv.org" in any case and is accepted by urlparse, gives the id after `abs/`, `pdf/` or `html/`, minus a final ".pdf" in any case |
| Backend3.ExtractArxivIdOtherUrl | doi2bib3/backend.py:113-137 | an input whose stripped form is an http(s) URL that urlparse rejects, or whose host and path give no id, gives None |
| Backend3.ExtractArxivIdOfUrl | doi2bib3/backend.py:113-125 | a stripped URL that urlparse accepts and that gives an id from its host and path yields that id |
| Backend3.ArxivUrlIdOtherHost | doi2bib3/backend.py:116-117 | a URL whose netloc, lower-cased, does not contain "arxiv.org" gives no id |
| Backend3.ArxivUrlIdNoView | doi2bib3/backend.py:118-120 | a URL whose path does not start with `abs/`, `pdf/` or `html/` gives no id, whatever its host |
| Backend3.ArxivListPage | doi2bib3/backend.py:112-137 | "https://arxiv.org/list/cs" is not an arXiv id |
| Backend3.ArxivUrlIdOf | doi2bib3/backend.py:115-125 | urlparse gives the host and `/<view><id>`, and the id after the view loses a final ".pdf" |
| Backend3.ExtractArxivId | doi2bib3/backend.py:94-137 | `_extract_arxiv_id`; stated by Backend3.ExtractArxivIdOfDoi, ExtractArxivIdBare, ExtractArxivIdPrefix, ExtractArxivIdUrl, ExtractArxivIdOtherUrl and ArxivListPage |
| Backend3.ArxivUrlId | doi2bib3/backend.py:115-125 | the URL branch of `_extract_arxiv_id`; stated by Backend3.ArxivUrlIdOf, ArxivUrlIdOtherHost and ArxivUrlIdNoView |
| Backend3.ArxivPathId | doi2bib3/backend.py:118-125 | the match of the `abs/`, `pdf/` or `html/` view and a non-empty id on the path; an id comes only after a view; stated by Backend3.ArxivPathIdOf |
| Backend3.DropPdfSuffix | doi2bib3/backend.py:124 | a final ".pdf" in any case is removed, and nothing else |
| Backend3.ArxivPathIdOf | doi2bib3/backend.py:118-125 | the path `<view>/<id>` gives the id without ".pdf" |
| Backend3.LStripSlash | doi2bib3/backend.py:118 | `path.lstrip('/')` of `/<view>...` leaves `<view>...` |
| Doi.UrlSplitOf | doi2bib3/backend.py:115-118 | an http(s) URL `<scheme><host>/<path>` is recognised as one, and urlsplit gives the host as netloc and `/<path>` as path |
| Doi.UrlParseOf | doi2bib3/backend.py:115-118 | when the path has no `;params` tail, urlparse gives the host as netloc and `/<path>` as path |
| Doi.NetlocPathOf | doi2bib3/backend.py:28-29 | after the scheme, a host of netloc characters and a path of path characters are cut at the first '/' |
| Backend3.ArxivToDoi | doi2bib3/backend.py:157-181 | ValueError exactly for a cleaned id that is neither modern nor (versioned) legacy; DOIError exactly for a valid id with status other than 200; otherwise the feed extraction of the response |
| Backend3.VersionAt | doi2bib3/backend.py:53 | a reported match of `v\d+$` is 'v', digits, then the end (or a final newline) |
| Backend3.StripVersionOfVersioned | doi2bib3/backend.py:53 | an id ending in "v" and digits loses exactly that suffix |
| Backend3.StripVersionUnversioned | doi2bib3/backend.py:53 | an id not ending in a digit is unchanged |
| Backend3.ArxivFallbackDoi | doi2bib3/backend.py:53-60 | the fallback is the normalized "10.48550/arXiv." plus the unversioned id; DOIError naming the id when that does not normalize |
| Backend3.FallbackNeverRaises | doi2bib3/backend.py:54-58 | the fallback candidate starts with "10.", so normalize_doi never parses it as a URL and cannot raise ValueError on it |
| Backend3.StripVersion | doi2bib3/backend.py:53 | `re.sub(r'v\d+$', '', id)`; stated by Backend3.StripVersionOfVersioned and StripVersionUnversioned |
| Backend3.ValidArxivId | doi2bib3/backend.py:164 | the validation pattern of `arxiv_to_doi`; stated by Arxiv.LegacyIsVersionedLegacy and Backend3.ArxivToDoi |
| Backend3.ArxivFallbackOfPlainId | doi2bib3/backend.py:53-58 | for an id without blanks or '%' the fallback is exactly the prefix and the unversioned id |
| Backend3.ArxivFallbackOfVersioned | doi2bib3/backend.py:50-58 | "<core>v<digits>" falls back to "10.48550/arXiv.<core>" |
| Backend3.FirstMaxIndex | doi2bib3/backend.py:245-246 | the head of the stable descending sort: an item of maximal score with every earlier item strictly lower |
| Backend3.FirstHostMatch | doi2bib3/backend.py:236-240 | the first item whose non-empty URL contains the query host, case-insensitively, and which has a DOI; None when there is none |
| Backend3.PathDoiAt | doi2bib3/backend.py:201 | a reported match of `10\.\d{4,9}/[^\s'"<>]+` meets the declarative match |
| Backend3.PathDoiAtComplete | doi2bib3/backend.py:201 | every match at an index is the one the engine reports |
| Backend3.FindPathDoi | doi2bib3/backend.py:200-203 | the leftmost match in the decoded path, and none before it |
| Backend3.PathDoiIsPlain | doi2bib3/backend.py:201-205 | a path match is a DOI without surrounding blanks |
| Backend3.CrossrefBlankQuery | doi2bib3/backend.py:185-187 | an empty or blank query gives None whatever the answers |
| Backend3.CrossrefPathDoiFirst | doi2bib3/backend.py:197-205 | a DOI-like path text without '%' in a URL query that urlparse accepts is the result, before the page and Crossref |
| Backend3.CrossrefHostPreferred | doi2bib3/backend.py:231-240 | once Crossref is asked, a URL query that urlparse accepts gets the DOI of the first item matching its host |
| Backend3.CrossrefTopScore | doi2bib3/backend.py:231-247 | otherwise the DOI of the first item of maximal score, a missing score counting as 0: for a query that is no URL, and for a URL query whose path and page give no DOI and whose host no item matches, or that urlparse rejects |
| Backend3.CrossrefNoItems | doi2bib3/backend.py:221-229 | a non-200 answer or an empty item list gives None |
| Backend3.PathDoi | doi2bib3/backend.py:197-208 | the DOI taken from the decoded URL path, None when urlparse raises or the match does not normalize; stated by Backend3.CrossrefPathDoiFirst and PathDoiIsPlain |
| Backend3.PathDoiOf | doi2bib3/backend.py:197-205 | for a URL urlparse accepts, a leftmost path match without '%' is the path DOI |
| Backend3.CrossrefSearch | doi2bib3/backend.py:184-249 | `crossref_search_for_doi`; stated by Backend3.CrossrefBlankQuery, CrossrefPathDoiFirst, CrossrefHostPreferred, CrossrefTopScore and CrossrefNoItems |
| Backend3.ResolveDoi | doi2bib3/backend.py:46-72 | the DOI `get_bibtex_from_doi` settles on; stated by Backend3.ResolvePlainDoi, ResolveArxivWithoutDoi, ResolveViaCrossref and ResolveRejectedUrl |
| Backend3.GetBibtexFromDoi | doi2bib3/backend.py:74-91 | an error while settling the DOI is passed on; else the doi.org text on 200, else the transform text on 200, else DOIError with both statuses |
| Backend3.ResolvePlainDoi | doi2bib3/backend.py:63-67 | a plain DOI is not taken for an arXiv id and is used as it is, whatever the answers |
| Backend3.ResolveArxivWithoutDoi | doi2bib3/backend.py:46-60 | an arXiv id for which the API gives no DOI resolves to the `10.48550/arXiv.` fallback |
| Backend3.ResolveViaCrossref | doi2bib3/backend.py:63-72 | input that is neither an arXiv id nor a DOI, nor a URL urlparse rejects, goes to Crossref; without a Crossref DOI the error names the input |
| Backend3.ResolveRejectedUrl | doi2bib3/backend.py:46-72 | a URL whose netloc has an unbalanced bracket is no arXiv id, and the ValueError of normalize_doi is not caught: it is the result and Crossref is never asked |
| Backend2.ArxivToDoi | doi2bib2_backend.py:108-139 | ValueError exactly when the cleaned id fails `^\d+\.\d+(v(\d+))?$`; DOIError exactly for a valid id and status other than 200; otherwise the feed extraction; the same code is in doi2bib2/backend.py |
| Backend2.ValidArxivId | doi2bib2_backend.py:118 | the check `^\d+\.\d+(v(\d+))?$`; stated by Backend2.ModernIdIsValid and LegacyIdIsInvalid |
| Backend2.ModernIdIsValid | doi2bib2_backend.py:118 | every modern id passes the check |
| Backend2.LegacyIdIsInvalid | doi2bib2_backend.py:118-119 | a legacy id such as "hep-th/9901001" fails the check |
| Backend2.LegacyIntro | doi2bib3/backend.py:134-135 | letters or hyphens, '/', and seven digits make a legacy id |
| Backend2.HepThIsLegacy | doi2bib2_backend.py:118-119 | "hep-th/9901001" has the legacy shape |
| Backend2.ArxivToDoiRejectsLegacy | doi2bib2/backend.py:77-82 | a legacy id, with or without blanks or `arXiv:`, raises ValueError |
| Backend2.PmidToDoi | doi2bib2/backend.py:60-73 | ValueError exactly for a malformed stripped PMID; DOIError exactly for a valid one and status other than 200; None for missing or empty records or an empty first record; else the first record's "doi" |
| Backend2.ValidPmid | doi2bib2/backend.py:62-63 | the check for digits, or `PMC`, digits and an optional `.digits`; stated by Backend2.PmidForms |
| Backend2.PmidFirstRecordDoi | doi2bib2/backend.py:69-73 | a first record with a "doi" gives that DOI |
| Backend2.PmidLaterRecordsIgnored | doi2bib2/backend.py:71-73 | records after the first play no part |
| Backend2.PmidForms | doi2bib2/backend.py:61-63 | digits and `PMC` digits with an optional `.digits` are valid; lower-case `pmc` is not |
| Backend2.GetBibtexFromDoi | doi2bib2_backend.py:68-85 | the DOI is normalized first and its error passed on; the doi.org text on 200, else DOIError with the status |
| Backend2.InvalidDoiBeforeRequest | doi2bib2/backend.py:46-47 | an invalid DOI raises before any request, the answer playing no part: DOIError naming the input, or ValueError for a URL urlparse rejects |
| BibRules.StripUnderscores | doi2bib2/utils.py:55-56 | the new ID has no '_' and holds every other character of the old one as often as before |
| BibRules.StripUnderscoresKeepsRest | doi2bib3/utils.py:55-56 | the other characters keep their order: underscore-free text is copied and each '_' is dropped |
| BibRules.Pages2Cases | doi2bib2/utils.py:57-63 | the key goes exactly for "n/a-n/a" in any case; an empty value or one holding "--" stays; any other value has each '-' doubled |
| BibRules.Pages2Idempotent | bib_utils.py:75-81 | applying the rule to its own result changes nothing |
| BibRules.Pages2Range | doi2bib2/utils.py:62-63 | "100-110" becomes "100--110" |
| BibRules.Pages2TwoHyphens | bib_utils.py:80-81 | "1-2-3" becomes "1--2--3" |
| BibRules.Pages2 | doi2bib2/utils.py:57-63 | the doi2bib2 `pages` rule; stated by BibRules.Pages2Cases, Pages2Idempotent, Pages2Range and Pages2TwoHyphens |
| BibRules.Pages3Cases | doi2bib3/utils.py:57-62 | the key goes exactly for a non-empty value whose trimmed, lowercased form is `n/a-n/a`, `na-na`, `n/a` or `na`; an empty value stays |
| BibRules.Pages3NoUnicodeDashes | doi2bib3/utils.py:64-71 | no en dash or em dash is left in the new value |
| BibRules.DashesRepeated | doi2bib3/utils.py:66-71 | the four rounds of dash replacement do what the first does |
| BibRules.DigitRangeAt | doi2bib3/utils.py:74 | a reported match of `(?<=\d)\s*-[–—-]?\s*(?=\d)` has a digit before it, blanks, '-', an optional dash, blanks, and a digit after it |
| BibRules.DigitRangeAtComplete | doi2bib3/utils.py:74 | every match of the pattern at an index is the one reported, so `re.sub` misses none |
| BibRules.SubDigitRangesCopy | doi2bib3/utils.py:74 | text where no match starts is copied as it is |
| BibRules.Pages3Range | doi2bib3/utils.py:72-74 | "<digits><blanks>-<blanks><digits><rest>" becomes "<digits>--<digits><rest>", as for "1932 - 1938" and "1932-1938.e3" |
| BibRules.Pages3KeepsLetterHyphens | doi2bib3/utils.py:72-77 | a value whose every hyphen is followed by a letter, as "e100-e110" and "A1-B2", is unchanged |
| BibRules.Pages3 | doi2bib3/utils.py:57-77 | the doi2bib3 `pages` rule; stated by BibRules.Pages3Cases, Pages3NoUnicodeDashes, Pages3Range and Pages3KeepsLetterHyphens |
| BibRules.Dashes | doi2bib3/utils.py:66-71 | one round of en-dash and em-dash replacement; stated by BibRules.DashesRepeated and Pages3NoUnicodeDashes |
| BibRules.SubDigitRanges | doi2bib3/utils.py:74 | `re.sub` of the digit-range pattern by "--" from a position on; stated by BibRules.SubDigitRangesCopy and Pages3Range |
| BibRules.MonthUnbraces | doi2bib2/utils.py:68-71 | a month that is blanks, a braced text and blanks becomes the text inside the braces |
| BibRules.MonthOneLayer | bib_utils.py:89-92 | only one pair goes: "{{w}}" becomes "{w}" |
| BibRules.MonthNotIdempotent | doi2bib3/utils.py:82-85 | a second pass would remove the next pair, so the rule is not idempotent |
| BibRules.MonthUnbraced | doi2bib3/utils.py:82-83 | a month that is not braced after trimming is only trimmed |
| BibRules.Month | doi2bib2/utils.py:68-71 | the `month` rule; stated by BibRules.MonthUnbraces, MonthOneLayer, MonthNotIdempotent and MonthUnbraced |
| BibRules.Url | doi2bib2/utils.py:64-65 | a url without '%' is unchanged |
| BibRules.UrlNotIdempotent | bib_utils.py:83-84 | "%2541" decodes to "%41", which would decode further to "A" |
| TitleMath.VarLen | doi2bib2/utils.py:39 | a reported match of `(\{)(\\var[A-Z]?[a-z]*)(\})` is "{\var", an optional capital, lower-case letters, "}" |
| TitleMath.VarLenComplete | doi2bib2/utils.py:39 | every match at a position is the one the engine reports |
| TitleMath.InsertDollarsWraps | bib_utils.py:45-48 | "{\varX}" becomes "{$\varX$}" and the rest is processed on |
| TitleMath.InsertDollarsCopies | doi2bib2/utils.py:42-43 | a character other than '{' is copied |
| TitleMath.InsertDollarsNoMatch | bib_utils.py:42-48 | a title without a match is unchanged, so other brace groups stay |
| TitleMath.InsertDollarsClean | doi2bib2/utils.py:42-43 | the result has no match left |
| TitleMath.InsertDollarsIdempotent | bib_utils.py:45-48 | a second application changes nothing |
| TitleMath.InsertDollars | doi2bib2/utils.py:39-43 | `insert_dollars` of doi2bib2 and bib_utils.py; stated by TitleMath.InsertDollarsWraps, InsertDollarsCopies, InsertDollarsNoMatch, InsertDollarsClean and InsertDollarsIdempotent |
| TitleMath.Var3Len | doi2bib3/utils.py:39 | a reported match of the pattern as written is the literal "\{\var", letters, the literal "\}" |
| TitleMath.Var3LenComplete | doi2bib3/utils.py:39 | every such match is the one the engine reports |
| TitleMath.InsertDollars3Literal | doi2bib3/utils.py:42-43 | each match becomes the literal eight characters `\1$\2$\3` |
| TitleMath.InsertDollars3NoEscapedBrace | doi2bib3/utils.py:39-43 | a title without "\{" is unchanged |
| TitleMath.InsertDollars3KeepsBraceVar | doi2bib3/utils.py:39-43 | "{\varX}" is left unchanged, where the other copies wrap it |
| TitleMath.InsertDollars3 | doi2bib3/utils.py:39-43 | `insert_dollars` of doi2bib3 as written; stated by TitleMath.InsertDollars3Literal, InsertDollars3NoEscapedBrace and InsertDollars3KeepsBraceVar |
| TexEscapes.SpecialCharsShape | doi2bib2/utils.py:23-36 | the twelve keys are non-empty and the replacements are ASCII; eleven keys are single characters above 127 and the first has a combining accent |
| TexEscapes.EncodeSpecialChars | doi2bib2/utils.py:46-49 | the loop over the table, reassigning the value, computes the replacement of each key in turn; the same code is in doi2bib3/utils.py and bib_utils.py |
| TexEscapes.EncodeIsEncodeWith | bib_utils.py:26-39 | the encoding is the in-order replacement over the table |
| TexEscapes.EncodeRemovesSingleKeys | bib_utils.py:51-55 | none of ô ê â ® ç ö ä ü Ö Ä Ü is left afterwards |
| TexEscapes.EncodeKeepsAscii | doi2bib3/utils.py:46-49 | ASCII text is unchanged |
| TexEscapes.ReplaceAllAbsent | doi2bib2/utils.py:48 | `replace` does nothing when a character of the pattern is absent |
| TexEscapes.Encode | doi2bib2/utils.py:46-49 | `encode_special_chars` as a function; stated by TexEscapes.EncodeIsEncodeWith, EncodeRemovesSingleKeys and EncodeKeepsAscii, and computed by TexEscapes.EncodeSpecialChars |
| Text.Strip | doi2bib3/backend.py:25 | `str.strip`: a slice of the input without whitespace at either end, with only whitespace cut off |
| Text.StripNoop | doi2bib3/backend.py:25 | a text without surrounding whitespace is unchanged |
| Text.StripAround | doi2bib3/utils.py:60 | blanks around a core without surrounding blanks are exactly what is removed |
| Text.Unquote | doi2bib3/backend.py:31 | `urllib.parse.unquote`, never longer than its input; stated by Text.UnquoteNoPercent and UnquotePercentEncode |
| Text.UnquoteNoPercent | doi2bib3/utils.py:79 | a text without '%' is decoded to itself |
| Text.UnquotePercentEncode | doi2bib2/utils.py:65 | decoding undoes the percent-encoding of every character below 256 |
| Text.ReplaceAll | doi2bib2/utils.py:48 | `str.replace`, left to right and without overlaps; stated by Text.ReplaceAllMembers and TexEscapes.ReplaceAllAbsent |
| Text.ReplaceAllMembers | doi2bib2/utils.py:56 | `replace` introduces no character other than those of the input and the replacement |
| Regex.SubAll | doi2bib2/utils.py:43 | `re.sub` for a pattern given by its match length at each position; stated by Regex.SubAllNoMatch and SubAllCopiedPrefix |
| Regex.SubAllNoMatch | doi2bib3/utils.py:74 | where the pattern matches nowhere, the input is returned |
| Regex.SubAllCopiedPrefix | bib_utils.py:45-48 | a prefix matching at none of its positions is copied, and substitution goes on after it |
| Normalizer.NormalizeEntry | doi2bib2/utils.py:54-74 | a field is dropped only when it is `pages` and the pages rule drops it; fields no rule touches keep their values |
| Normalizer.UnstagedKept | doi2bib2/utils.py:55-71 | a field other than the five the loop body tests is kept as it is by the plain rules |
| Normalizer.StageInjective | doi2bib3/utils.py:55-85 | each step of the loop body tests one field name of its own |
| Normalizer.NamedRules | bib_utils.py:72-92 | `ID`, `pages`, `url`, `title` and `month` get the underscore, pages, url, math and month rules |
| Normalizer.Advance | doi2bib2/utils.py:55-71 | one rule rewriting or removing only its own field extends the rules applied so far |
| Normalizer.AdvanceRewrite | doi2bib2/utils.py:55-71 | a step that rewrites its own field, when present, with its plain rule extends the rules applied so far |
| Normalizer.RuleId | doi2bib2/utils.py:55-56 | the ID step applies the ID rule to its field only |
| Normalizer.RulePages | doi2bib3/utils.py:57-77 | the pages step applies the pages rule (skipping an empty value), removing the field when the rule says so |
| Normalizer.RuleUrl | bib_utils.py:83-84 | the url step decodes its field only |
| Normalizer.RuleTitle | doi2bib3/utils.py:80-81 | the title step applies the math rule to its field only |
| Normalizer.RuleMonth | bib_utils.py:89-92 | the month step unbraces its field only |
| Normalizer.ApplyPlainRules | bib_utils.py:72-92 | after the five steps each field holds its plain rule's value, and a field is missing exactly when it was missing or the pages rule dropped it |
| Normalizer.EncodeFields | doi2bib2/utils.py:72-74 | visiting the keys in any order, `title`, `journal` and `booktitle` are escaped, other fields and the key set stay |
| Normalizer.NormalizeFields | doi2bib3/utils.py:55-88 | the loop body turns an entry into its `NormalizeEntry` |
| Normalizer.NormalizeBibtex | doi2bib2/utils.py:52-76 | every entry of the array is replaced by its `NormalizeEntry`; the same loop is in doi2bib3/utils.py, with the doi2bib3 rules, and in bib_utils.py |
| Normalizer.NormalizedId | bib_utils.py:72-73 | the entry key stays and has no '_' |
| Normalizer.NormalizedTitle | doi2bib2/utils.py:66-67 | the title gets the math rule, then the escapes |
| Normalizer.NormalizedVenue | bib_utils.py:94-96 | `journal` and `booktitle` get only the escapes |
| Normalizer.NormalizedUrlMonth | doi2bib3/utils.py:78-85 | `url` is decoded and `month` unbraced, without escapes |
| Normalizer.NormalizedEscapes | doi2bib3/utils.py:86-88 | no single-character table key is left in `title`, `journal` or `booktitle` |
| Normalizer.NormalizedAsciiVenue | doi2bib2/utils.py:72-74 | an ASCII `journal` or `booktitle` is left as it is |
| Normalizer.NormalizedPagesStable | doi2bib2/utils.py:57-63 | doi2bib2 normalized pages are a fixed point of the pages rule |
| Normalizer.PlainRule | doi2bib2/utils.py:55-71 | the rule of the loop body for one field, before the escapes; stated by Normalizer.UnstagedKept and NamedRules |
| Normalizer.FieldRule | doi2bib2/utils.py:55-74 | a field's plain rule followed by the escapes for `title`, `journal` and `booktitle`; stated by Normalizer.NormalizeEntry and NormalizedTitle |
| Normalizer.NormalizeNotIdempotent | bib_utils.py:89-92 | normalizing twice differs from normalizing once, for a month in two pairs of braces |
| BibFile.Separator | bib_utils.py:113-125 | one newline exactly when the file is non-empty and its last character is not a newline, or when the probe fails; nothing otherwise |
| BibFile.SaveBibtex | doi2bib2/utils.py:79-99 | overwrite leaves exactly the text; append leaves the old contents, the separator, the text; the same code is in doi2bib3/utils.py and bib_utils.py |
| BibFile.AppendToEmpty | bib_utils.py:114-116 | a missing or empty file gets no separator |
| BibFile.AppendShape | doi2bib2/utils.py:85-99 | the old contents stay in front, the text is at the end, and at most one character lies between them |
| BibFile.AppendStartsLine | bib_utils.py:116-122 | after an append to a non-empty file the text starts a new line, and no newline is added after a final newline |
| BibFile.AppendAfterFailedProbe | bib_utils.py:123-125 | a failed probe still adds the newline |

## Left out

- Network access: every `requests.get`, together with its URL, headers and
  timeout, is replaced by its answer as a parameter (status and text, JSON
  records, Crossref items). The URLs the code builds are not modelled.
- `bibtexparser.loads` and `dumps`: entries are given already parsed, as maps.
  So the order of the fields inside an entry is not modelled, and neither is
  the formatting of the output.
- `_extract_doi_from_url` (doi2bib3/backend.py:252-323): it scrapes a fetched
  page, so its result is the `pageDoi` parameter of `Backend3.CrossrefSearch`.
- File I/O: `open`, `seek`, `write` and `os.path` are replaced by `BibFile.FileState`.
  A failing write is not modelled. The file is a string, so the last byte
  being b"\n" is read as the last character being '\n', which holds for UTF-8.
- The command line (`cli_main`, `cli_doi2bib3`, main.py) and the rest of
  doi2bib2/utils.py after line 99: argument parsing and printing.
- The PMID code commented out in doi2bib3/backend.py:140-154 and
  doi2bib2_backend.py:88-105, which does not run.
- Full Unicode: `strip` uses the ASCII blanks, `lower` folds A-Z only, `\d`
  is 0-9, `\s` is the ASCII blanks, and `\b` and `\w` are ASCII, where
  Python's `str` patterns are Unicode-aware. Under `re.I`, `[a-z]` in the
  legacy arXiv pattern also matches the Kelvin sign U+212A and the long s
  U+017F in Python; the model accepts only ASCII letters there. `unquote`
  turns each `%XX` into one character, with no UTF-8 decoding of byte
  sequences.
- `urlparse`: the netloc runs after the scheme up to '/', '?' or '#', the
  path up to '?' or '#', and the `;params` of the last path segment are cut
  off. Its ValueError for a netloc with an unbalanced '[' or ']' is modelled:
  `_extract_arxiv_id` and `crossref_search_for_doi` catch it, and
  normalize_doi passes it on as `InvalidUrl`. Not modelled: the removal of
  tabs and newlines, the check of the text inside '[' and ']' as an IPv6
  address that newer Pythons add, and the NFKC check of a non-ASCII netloc.
  Those can raise ValueError for inputs the model accepts.
- Backend3.FirstMaxIndex: scores are `real` values, and a missing score counts
  as 0. JSON `null`, and scores that Python cannot compare, are not modelled.
- Normalizer.EncodeFields: the keys are visited in an arbitrary order, not in
  the dict's insertion order. Every order gives the same result.
