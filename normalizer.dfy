/**
 * `normalize_bibtex` on the entries that `bibtexparser.loads` produced: each
 * entry is a field map that the loop rewrites in place, rule by rule in the
 * order of the source (ID, pages, url, title, month, then the TeX escapes of
 * title, journal and booktitle). Because each rule reads and writes only its
 * own field, the result is also given field by field by `NormalizeEntry`.
 */
module Normalizer {
  import opened Results
  import opened Text
  import opened BibRules
  import opened TitleMath
  import opened TexEscapes

  /** One parsed BibTeX entry: field name to value; the key and the type are
      the fields "ID" and "ENTRYTYPE". */
  type Entry = map<string, string>

  function PagesRule(v: Variant, p: string): Option<string> {
    match v
    case Doi2bib2 => Pages2(p)
    case Doi2bib3 => Pages3(p)
  }

  function TitleRule(v: Variant, t: string): string {
    match v
    case Doi2bib2 => InsertDollars(t)
    case Doi2bib3 => InsertDollars3(t)
  }

  /** The fields that receive TeX escapes. */
  predicate Encoded(key: string) {
    key == "title" || key == "journal" || key == "booktitle"
  }

  /** The fields some rule rewrites. */
  predicate Rewritten(key: string) {
    key == "ID" || key == "pages" || key == "url" || key == "month" || Encoded(key)
  }

  /** The new value of field `key` from the rules before the TeX escapes;
      None when the field is dropped. */
  function PlainRule(v: Variant, key: string, value: string): Option<string> {
    if key == "ID" then Some(StripUnderscores(value))
    else if key == "pages" then PagesRule(v, value)
    else if key == "url" then Some(Url(value))
    else if key == "title" then Some(TitleRule(v, value))
    else if key == "month" then Some(Month(value))
    else Some(value)
  }

  /** The new value of field `key` once every rule has run: the escapes come last. */
  function FieldRule(v: Variant, key: string, value: string): Option<string> {
    match PlainRule(v, key, value)
    case None => None
    case Some(u) => Some(if Encoded(key) then Encode(u) else u)
  }

  /** The normalized entry, field by field. */
  function NormalizeEntry(v: Variant, e: Entry): (r: Entry)
    ensures forall k :: k in r <==> k in e && (k != "pages" || PagesRule(v, e[k]).Some?)
    ensures forall k :: k in e && !Rewritten(k) ==> k in r && r[k] == e[k]
  {
    map k | k in e && FieldRule(v, k, e[k]).Some? :: FieldRule(v, k, e[k]).value
  }

  /** The field names the rules test are distinct: they differ in their
      first character. */
  lemma FieldNamesDistinct()
    ensures "month" != "ID" && "month" != "pages" && "month" != "url" && "month" != "title"
    ensures "title" != "ID" && "title" != "pages" && "title" != "url"
    ensures "url" != "ID" && "url" != "pages" && "pages" != "ID"
    ensures "journal" != "ID" && "journal" != "pages" && "journal" != "url"
    ensures "journal" != "title" && "journal" != "month"
    ensures "booktitle" != "ID" && "booktitle" != "pages" && "booktitle" != "url"
    ensures "booktitle" != "title" && "booktitle" != "month"
  {
    assert "month"[0] == 'm' && "pages"[0] == 'p' && "title"[0] == 't';
    assert "url"[0] == 'u' && "ID"[0] == 'I';
    assert "journal"[0] == 'j' && "booktitle"[0] == 'b';
  }

  /** The position of a field's rule in the loop body; 0 for fields no
      plain rule touches. */
  function Stage(key: string): (n: nat)
    ensures n <= 5
  {
    if key == "ID" then 1
    else if key == "pages" then 2
    else if key == "url" then 3
    else if key == "title" then 4
    else if key == "month" then 5
    else 0
  }

  /** The stages of the five fields, in the order of the loop body. */
  lemma Stages()
    ensures Stage("ID") == 1 && Stage("pages") == 2 && Stage("url") == 3
    ensures Stage("title") == 4 && Stage("month") == 5
  {
    FieldNamesDistinct();
  }

  /** The plain rule each of the five fields gets. */
  lemma NamedRules(v: Variant, x: string)
    ensures PlainRule(v, "ID", x) == Some(StripUnderscores(x))
    ensures PlainRule(v, "pages", x) == PagesRule(v, x)
    ensures PlainRule(v, "url", x) == Some(Url(x))
    ensures PlainRule(v, "title", x) == Some(TitleRule(v, x))
    ensures PlainRule(v, "month", x) == Some(Month(x))
  {
    FieldNamesDistinct();
  }

  /** An empty `pages` value is falsy: the rule keeps it. */
  lemma EmptyPagesKept(v: Variant)
    ensures PagesRule(v, "") == Some("")
  {
  }

  lemma UpdateSame(m: Entry, k: string)
    requires k in m
    ensures m[k := m[k]] == m
  {
  }

  /** Each stage belongs to one field. */
  lemma StageInjective(k1: string, k2: string)
    requires 0 < Stage(k1) == Stage(k2)
    ensures k1 == k2
  {
  }

  /** A field without a stage is kept as it is by the plain rules. */
  lemma UnstagedKept(v: Variant, key: string, value: string)
    requires Stage(key) == 0
    ensures PlainRule(v, key, value) == Some(value)
  {
  }

  /** The plain rules as a function value, for the bookkeeping below. */
  function PlainRules(v: Variant): (string, string) -> Option<string> {
    (k, x) => PlainRule(v, k, x)
  }

  /** `e` is `entry` once the rules of the first `n` stages have run, `rule`
      giving the new value of a field. */
  ghost predicate Through(rule: (string, string) -> Option<string>, entry: Entry, e: Entry, n: nat) {
    (forall k :: k in e <==> k in entry && (0 < Stage(k) <= n ==> rule(k, entry[k]).Some?)) &&
    (forall k :: k in e ==> e[k] == if 0 < Stage(k) <= n then rule(k, entry[k]).value else entry[k])
  }

  /** One rule of the loop body: field `key` gets its new value, the rest stays. */
  lemma Advance(rule: (string, string) -> Option<string>, entry: Entry, e: Entry, n: nat, key: string, e': Entry)
    requires Through(rule, entry, e, n) && Stage(key) == n + 1
    requires key in e ==> rule(key, e[key]).Some? ==> e' == e[key := rule(key, e[key]).value]
    requires key in e ==> rule(key, e[key]).None? ==> e' == e - {key}
    requires key !in e ==> e' == e
    ensures Through(rule, entry, e', n + 1)
  {
    forall k | Stage(k) == n + 1
      ensures k == key
    {
      StageInjective(k, key);
    }
  }

  /** A stage that rewrites its field, when present, with the plain rule's
      value extends the rules applied so far. */
  lemma AdvanceRewrite(v: Variant, entry: Entry, e0: Entry, n: nat, key: string, e: Entry)
    requires Through(PlainRules(v), entry, e0, n) && Stage(key) == n + 1
    requires key in e0 ==> PlainRule(v, key, e0[key]).Some?
    requires key in e0 ==> e == e0[key := PlainRule(v, key, e0[key]).value]
    requires key !in e0 ==> e == e0
    ensures Through(PlainRules(v), entry, e, n + 1)
  {
    ghost var rule := PlainRules(v);
    if key in e0 {
      assert rule(key, e0[key]) == PlainRule(v, key, e0[key]);
    }
    Advance(rule, entry, e0, n, key, e);
  }

  /** `if "ID" in entry`: underscores are removed from the entry key. */
  method RuleId(ghost v: Variant, ghost entry: Entry, e0: Entry) returns (e: Entry)
    requires Through(PlainRules(v), entry, e0, 0)
    ensures Through(PlainRules(v), entry, e, 1)
  {
    e := e0;
    if "ID" in e {
      e := e["ID" := StripUnderscores(e["ID"])];
    }
    AdvanceId(v, entry, e0, e);
  }

  lemma AdvanceId(v: Variant, entry: Entry, e0: Entry, e: Entry)
    requires Through(PlainRules(v), entry, e0, 0)
    requires "ID" in e0 ==> e == e0["ID" := StripUnderscores(e0["ID"])]
    requires "ID" !in e0 ==> e == e0
    ensures Through(PlainRules(v), entry, e, 1)
  {
    if "ID" in e0 {
      NamedRules(v, e0["ID"]);
    }
    Stages();
    AdvanceRewrite(v, entry, e0, 0, "ID", e);
  }

  /** The `pages` stage in terms of the rule: a falsy value is kept, any
      other is rewritten or removed as `PagesRule` says. */
  lemma AdvancePages(v: Variant, entry: Entry, e0: Entry, e: Entry)
    requires Through(PlainRules(v), entry, e0, 1)
    requires "pages" in e0 && e0["pages"] != "" && PagesRule(v, e0["pages"]).Some? ==>
      e == e0["pages" := PagesRule(v, e0["pages"]).value]
    requires "pages" in e0 && e0["pages"] != "" && PagesRule(v, e0["pages"]).None? ==>
      e == e0 - {"pages"}
    requires "pages" !in e0 || e0["pages"] == "" ==> e == e0
    ensures Through(PlainRules(v), entry, e, 2)
  {
    ghost var rule := PlainRules(v);
    if "pages" in e0 {
      NamedRules(v, e0["pages"]);
      if e0["pages"] == "" {
        EmptyPagesKept(v);
        UpdateSame(e0, "pages");
      }
    }
    Stages();
    Advance(rule, entry, e0, 1, "pages", e);
  }

  /** `if "pages" in entry and entry["pages"]`: the pages rule, which may drop the field. */
  method RulePages(v: Variant, ghost entry: Entry, e0: Entry) returns (e: Entry)
    requires Through(PlainRules(v), entry, e0, 1)
    ensures Through(PlainRules(v), entry, e, 2)
  {
    e := e0;
    if "pages" in e && e["pages"] != "" {
      var pages := e["pages"];
      match PagesRule(v, pages)
      case None =>
        e := e - {"pages"};
      case Some(p) =>
        e := e["pages" := p];
    }
    AdvancePages(v, entry, e0, e);
  }

  /** `if "url" in entry`: the url is percent-decoded. */
  method RuleUrl(ghost v: Variant, ghost entry: Entry, e0: Entry) returns (e: Entry)
    requires Through(PlainRules(v), entry, e0, 2)
    ensures Through(PlainRules(v), entry, e, 3)
  {
    e := e0;
    if "url" in e {
      e := e["url" := Url(e["url"])];
    }
    AdvanceUrl(v, entry, e0, e);
  }

  lemma AdvanceUrl(v: Variant, entry: Entry, e0: Entry, e: Entry)
    requires Through(PlainRules(v), entry, e0, 2)
    requires "url" in e0 ==> e == e0["url" := Url(e0["url"])]
    requires "url" !in e0 ==> e == e0
    ensures Through(PlainRules(v), entry, e, 3)
  {
    if "url" in e0 {
      NamedRules(v, e0["url"]);
    }
    Stages();
    AdvanceRewrite(v, entry, e0, 2, "url", e);
  }

  /** `if "title" in entry`: the math substitution of the title. */
  method RuleTitle(v: Variant, ghost entry: Entry, e0: Entry) returns (e: Entry)
    requires Through(PlainRules(v), entry, e0, 3)
    ensures Through(PlainRules(v), entry, e, 4)
  {
    e := e0;
    if "title" in e {
      e := e["title" := TitleRule(v, e["title"])];
    }
    AdvanceTitle(v, entry, e0, e);
  }

  lemma AdvanceTitle(v: Variant, entry: Entry, e0: Entry, e: Entry)
    requires Through(PlainRules(v), entry, e0, 3)
    requires "title" in e0 ==> e == e0["title" := TitleRule(v, e0["title"])]
    requires "title" !in e0 ==> e == e0
    ensures Through(PlainRules(v), entry, e, 4)
  {
    if "title" in e0 {
      NamedRules(v, e0["title"]);
    }
    Stages();
    AdvanceRewrite(v, entry, e0, 3, "title", e);
  }

  /** `if "month" in entry`: one pair of braces around the month is removed. */
  method RuleMonth(ghost v: Variant, ghost entry: Entry, e0: Entry) returns (e: Entry)
    requires Through(PlainRules(v), entry, e0, 4)
    ensures Through(PlainRules(v), entry, e, 5)
  {
    e := e0;
    if "month" in e {
      e := e["month" := Month(e["month"])];
    }
    AdvanceMonth(v, entry, e0, e);
  }

  lemma AdvanceMonth(v: Variant, entry: Entry, e0: Entry, e: Entry)
    requires Through(PlainRules(v), entry, e0, 4)
    requires "month" in e0 ==> e == e0["month" := Month(e0["month"])]
    requires "month" !in e0 ==> e == e0
    ensures Through(PlainRules(v), entry, e, 5)
  {
    if "month" in e0 {
      NamedRules(v, e0["month"]);
    }
    Stages();
    AdvanceRewrite(v, entry, e0, 4, "month", e);
  }

  /** The rules of the loop body up to `month`, in the order of the source. */
  method ApplyPlainRules(v: Variant, entry: Entry) returns (e: Entry)
    ensures forall k :: k in e <==> k in entry && PlainRule(v, k, entry[k]).Some?
    ensures forall k :: k in e ==> e[k] == PlainRule(v, k, entry[k]).value
  {
    e := RuleId(v, entry, entry);
    e := RulePages(v, entry, e);
    e := RuleUrl(v, entry, e);
    e := RuleTitle(v, entry, e);
    e := RuleMonth(v, entry, e);
    forall k | k in entry
      ensures PlainRules(v)(k, entry[k]) == PlainRule(v, k, entry[k])
      ensures Stage(k) == 0 ==> PlainRule(v, k, entry[k]) == Some(entry[k])
    {
      if Stage(k) == 0 {
        UnstagedKept(v, k, entry[k]);
      }
    }
  }

  /** `for key in list(entry.keys()): if key in [...]`: the keys are visited
      in some order and the three named fields are escaped. */
  method EncodeFields(before: Entry) returns (e: Entry)
    ensures e.Keys == before.Keys
    ensures forall k :: k in e ==> e[k] == (if Encoded(k) then Encode(before[k]) else before[k])
  {
    e := before;
    var keys := e.Keys;
    while keys != {}
      invariant keys <= before.Keys && e.Keys == before.Keys
      invariant forall k :: k in e ==>
        e[k] == (if Encoded(k) && k !in keys then Encode(before[k]) else before[k])
      decreases |keys|
    {
      var key :| key in keys;
      if Encoded(key) {
        var encoded := EncodeSpecialChars(e[key]);
        e := e[key := encoded];
      }
      keys := keys - {key};
    }
  }

  /** The loop body of `normalize_bibtex` on one entry. */
  method NormalizeFields(v: Variant, entry: Entry) returns (e: Entry)
    ensures e == NormalizeEntry(v, entry)
  {
    var plain := ApplyPlainRules(v, entry);
    e := EncodeFields(plain);
    var r := NormalizeEntry(v, entry);
    forall k | k in entry
      ensures k in e <==> k in r
      ensures k in e ==> e[k] == r[k]
    {
      FieldOf(v, entry, k);
    }
    assert e.Keys == r.Keys;
  }

  /** `normalize_bibtex`: every entry is normalized where it stands. */
  method NormalizeBibtex(v: Variant, db: array<Entry>)
    modifies db
    ensures forall i :: 0 <= i < db.Length ==> db[i] == NormalizeEntry(v, old(db[i]))
  {
    ghost var before := db[..];
    for i := 0 to db.Length
      invariant forall j :: 0 <= j < i ==> db[j] == NormalizeEntry(v, before[j])
      invariant forall j :: i <= j < db.Length ==> db[j] == before[j]
    {
      var e := NormalizeFields(v, db[i]);
      db[i] := e;
    }
  }

  // ---------------------------------------------------------------------------
  // What the normalized entry holds

  /** A field of the normalized entry is what `FieldRule` gives. */
  lemma FieldOf(v: Variant, e: Entry, k: string)
    requires k in e
    ensures k in NormalizeEntry(v, e) <==> FieldRule(v, k, e[k]).Some?
    ensures k in NormalizeEntry(v, e) ==> NormalizeEntry(v, e)[k] == FieldRule(v, k, e[k]).value
  {
  }

  /** The entry key keeps its place and has no underscore left. */
  lemma NormalizedId(v: Variant, e: Entry)
    requires "ID" in e
    ensures "ID" in NormalizeEntry(v, e)
    ensures NormalizeEntry(v, e)["ID"] == StripUnderscores(e["ID"])
    ensures '_' !in NormalizeEntry(v, e)["ID"]
  {
    FieldOf(v, e, "ID");
  }

  /** The title is rewritten first by the math rule, then by the escapes. */
  lemma NormalizedTitle(v: Variant, e: Entry)
    requires "title" in e
    ensures "title" in NormalizeEntry(v, e)
    ensures NormalizeEntry(v, e)["title"] == Encode(TitleRule(v, e["title"]))
  {
    FieldNamesDistinct();
    FieldOf(v, e, "title");
  }

  /** `journal` and `booktitle` are only escaped. */
  lemma NormalizedVenue(v: Variant, e: Entry, k: string)
    requires k == "journal" || k == "booktitle"
    requires k in e
    ensures k in NormalizeEntry(v, e) && NormalizeEntry(v, e)[k] == Encode(e[k])
  {
    FieldNamesDistinct();
    FieldOf(v, e, k);
    assert PlainRule(v, k, e[k]) == Some(e[k]);
  }

  /** `url` is decoded and `month` unbraced, with no escapes. */
  lemma NormalizedUrlMonth(v: Variant, e: Entry)
    ensures "url" in e ==> "url" in NormalizeEntry(v, e) && NormalizeEntry(v, e)["url"] == Url(e["url"])
    ensures "month" in e ==> "month" in NormalizeEntry(v, e) && NormalizeEntry(v, e)["month"] == Month(e["month"])
  {
    FieldNamesDistinct();
    if "url" in e {
      FieldOf(v, e, "url");
    }
    if "month" in e {
      FieldOf(v, e, "month");
    }
  }

  /** In `title`, `journal` and `booktitle` of the normalized entry none of the
      single-character table keys is left. */
  lemma NormalizedEscapes(v: Variant, e: Entry)
    ensures forall k, i ::
      (k in NormalizeEntry(v, e) && Encoded(k) && 0 <= i < |SpecialChars| && |SpecialChars[i].0| == 1) ==>
      SpecialChars[i].0[0] !in NormalizeEntry(v, e)[k]
  {
    var r := NormalizeEntry(v, e);
    forall k | k in r && Encoded(k)
      ensures forall i :: 0 <= i < |SpecialChars| && |SpecialChars[i].0| == 1 ==>
        SpecialChars[i].0[0] !in r[k]
    {
      FieldOf(v, e, k);
      EncodeRemovesSingleKeys(PlainRule(v, k, e[k]).value);
    }
  }

  /** A `journal` or `booktitle` in ASCII is not changed at all. */
  lemma NormalizedAsciiVenue(v: Variant, e: Entry, k: string)
    requires k == "journal" || k == "booktitle"
    requires k in e && IsAscii(e[k])
    ensures k in NormalizeEntry(v, e) && NormalizeEntry(v, e)[k] == e[k]
  {
    NormalizedVenue(v, e, k);
    EncodeKeepsAscii(e[k]);
  }

  /** With the doi2bib2 rule, the `pages` field of a normalized entry is left
      as it is by the rule and stays. */
  lemma NormalizedPagesStable(e: Entry)
    requires "pages" in NormalizeEntry(Doi2bib2, e)
    ensures Pages2(NormalizeEntry(Doi2bib2, e)["pages"]) == Some(NormalizeEntry(Doi2bib2, e)["pages"])
  {
    FieldNamesDistinct();
    FieldOf(Doi2bib2, e, "pages");
    Pages2Idempotent(e["pages"]);
  }

  /** Normalizing twice is not normalizing once: a second pass removes the
      next pair of braces of the month. */
  lemma NormalizeNotIdempotent(v: Variant, w: string)
    ensures NormalizeEntry(v, NormalizeEntry(v, map["month" := "{{" + w + "}}"])) !=
      NormalizeEntry(v, map["month" := "{{" + w + "}}"])
  {
    var e := map["month" := "{{" + w + "}}"];
    var r := NormalizeEntry(v, e);
    NormalizedUrlMonth(v, e);
    NormalizedUrlMonth(v, r);
    MonthNotIdempotent(w);
    assert NormalizeEntry(v, r)["month"] != r["month"];
  }
}
