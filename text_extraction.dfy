/** Plain-text extraction from HTML: the charset decision, the extraction
    control flow with its jusText fall-backs, and link absolutisation.
    Parsing, decoding, jusText and URL handling are library calls and are
    taken as parameters. */
module TextExtraction {
  import opened Common
  import opened PyStr
  import opened Utils
  import opened Config
  import opened BaseAlgorithms

  /** One paragraph of jusText's output. */
  datatype Paragraph = Paragraph(text: string, classification: string)

  /** What `_get_metadata` reads off the parsed page: the guessed language,
      the normalised text of the first title and of every headline. */
  datatype Metadata = Metadata(language: Option<string>, title: Option<string>, headlines: seq<string>)

  /** The outcome of decoding and parsing the page. A page carries its
      metadata and its hrefs, each None when extracting it raised. */
  datatype Parsed =
    | Page(metadata: Option<Metadata>, hrefs: Option<seq<string>>)
    | EmptyDocument
    | ParserError

  /** The library calls the extractor makes. */
  datatype Libraries = Libraries(
    /** `Record.get_content_bytes` */
    contentBytes: Record -> seq<byte>,
    /** `known_encoding` */
    knownEncoding: string -> bool,
    /** the `charset` parameter of `parse_header(content_type)` */
    headerCharset: string -> Option<string>,
    /** the first group of a case-insensitive `re.search` of a pattern over
        the raw bytes, decoded */
    searchCharset: (string, seq<byte>) -> Option<string>,
    /** `guess_charset(html)` (None) or `guess_charset(html, charsets)` */
    guessCharset: (seq<byte>, Option<set<string>>) -> string,
    /** decoding, XML-declaration removal and `lxml.html.fromstring` */
    parse: (seq<byte>, string) -> Parsed,
    /** `justext.justext(html, stoplist, encoding, **setting)` */
    justext: (seq<byte>, string, string, JustextSetting) -> seq<Paragraph>,
    /** `urllib.parse.urljoin` */
    urlJoin: (string, string) -> string,
    /** scheme and network location of `urllib.parse.urlparse`; None when
        it raises ValueError */
    urlParse: string -> Option<(string, string)>)

  /** The patterns searched for a declared charset: an HTML meta tag, then
      an XML declaration. */
  const CHARSET_PATTERNS: seq<string> := [
    "<meta\\s+[^>]*?charset\\s*=[\\s\"']*([^\\s\"'/>]+)",
    "^\\s*<\\?xml\\s+[^>]*?encoding\\s*=[\\s\"']*([^\\s\"'/>]+)"]

  /** The languages jusText has stoplists for, with jusText's stoplist
      names. */
  const JUSTEXT_STOPLISTS: map<string, string> :=
    map["cs" := "Czech", "sk" := "Slovak", "en" := "English", "de" := "German",
        "pl" := "Polish", "ru" := "Russian", "fr" := "French"]

  // ---------------------------------------------------------------------
  // Charset decision

  /** `bytes.strip()` removes ASCII whitespace only. */
  predicate IsAsciiSpaceByte(b: byte)
  {
    b == 32 || 9 <= b <= 13
  }

  /** `not html.strip()` */
  predicate IsBlank(html: seq<byte>)
  {
    forall i :: 0 <= i < |html| ==> IsAsciiSpaceByte(html[i])
  }

  /** `(data[HTTPHEADERS] or {}).get('Content-Type', '')` as it reaches
      `parse_header`; None when the lookup or the parse raises. */
  function ContentType(record: Record): (ct: Option<string>)
    ensures !Truthy(Get(record, HTTPHEADERS)) ==> ct == Some("")
  {
    match Or(Get(record, HTTPHEADERS), Dict(map[]))
    case Dict(headers) =>
      if "Content-Type" !in headers then Some("")
      else if headers["Content-Type"].Str? then Some(headers["Content-Type"].s)
      else None
    case _ => None
  }

  /** A declared charset enters the candidates, lowercased, only when the
      codec registry knows it. */
  function Declared(c: Option<string>, known: string -> bool): (s: set<string>)
    ensures c.None? || !known(c.value) ==> s == {}
    ensures c.Some? && known(c.value) ==> s == {Lower(c.value)}
  {
    if c.Some? && known(c.value) then {Lower(c.value)} else {}
  }

  /** The candidates the first `n` patterns contribute. */
  function PatternCharsets(lib: Libraries, html: seq<byte>, n: nat): set<string>
    requires n <= |CHARSET_PATTERNS|
  {
    if n == 0 then {}
    else PatternCharsets(lib, html, n - 1) + Declared(lib.searchCharset(CHARSET_PATTERNS[n - 1], html), lib.knownEncoding)
  }

  /** The charset candidates of a page without a usable byte order mark. */
  function Candidates(lib: Libraries, html: seq<byte>, ct: string): set<string>
  {
    Declared(lib.headerCharset(ct), lib.knownEncoding) + PatternCharsets(lib, html, |CHARSET_PATTERNS|)
  }

  /** `charsets.pop()` on a one-element set. */
  function TheOnly(s: set<string>): (x: string)
    requires |s| == 1
    ensures s == {x}
  {
    var x :| x in s;
    assert |s - {x}| == 0;
    x
  }

  /** `_get_charset`: the charset and how it was decided; None when reading
      the Content-Type header raises. */
  function CharsetOf(lib: Libraries, record: Record, html: seq<byte>): Option<(string, string)>
  {
    var bom := GetCharsetFromBom(html);
    if bom.Some? && lib.knownEncoding(bom.value) then Some((bom.value, "BOM-based"))
    else
      match ContentType(record)
      case None => None
      case Some(ct) =>
        var cs := Candidates(lib, html, ct);
        if |cs| == 0 then Some((lib.guessCharset(html, None), "guessed"))
        else if |cs| == 1 then Some((TheOnly(cs), "declared"))
        else Some((lib.guessCharset(html, Some(cs)), "resolved"))
  }

  /** A known byte order mark decides alone: headers and meta tags are not
      consulted. */
  lemma BomDecidesAlone(lib: Libraries, r1: Record, r2: Record, html: seq<byte>)
    requires GetCharsetFromBom(html).Some? && lib.knownEncoding(GetCharsetFromBom(html).value)
    ensures CharsetOf(lib, r1, html) == CharsetOf(lib, r2, html)
      == Some((GetCharsetFromBom(html).value, "BOM-based"))
  {
  }

  /** Every candidate is in lower case, so case variants of one declared
      charset collapse into a single candidate. */
  lemma {:induction false} CandidatesAreLower(lib: Libraries, html: seq<byte>, ct: string, n: nat)
    requires n <= |CHARSET_PATTERNS|
    ensures forall c :: (c in Declared(lib.headerCharset(ct), lib.knownEncoding) + PatternCharsets(lib, html, n)
      ==> Lower(c) == c)
  {
    var h := lib.headerCharset(ct);
    if h.Some? {
      LowerIdempotent(h.value);
    }
    if n > 0 {
      CandidatesAreLower(lib, html, ct, n - 1);
      var m := lib.searchCharset(CHARSET_PATTERNS[n - 1], html);
      if m.Some? {
        LowerIdempotent(m.value);
      }
    }
  }

  /** Without a usable byte order mark the decision follows the number of
      distinct lowercased known declarations. */
  lemma CharsetByCandidates(lib: Libraries, record: Record, html: seq<byte>, ct: string)
    requires GetCharsetFromBom(html).None? || !lib.knownEncoding(GetCharsetFromBom(html).value)
    requires ContentType(record) == Some(ct)
    ensures var cs := Candidates(lib, html, ct);
      && (cs == {} ==> CharsetOf(lib, record, html) == Some((lib.guessCharset(html, None), "guessed")))
      && (forall c :: cs == {c} ==> CharsetOf(lib, record, html) == Some((c, "declared")))
      && (|cs| > 1 ==> CharsetOf(lib, record, html) == Some((lib.guessCharset(html, Some(cs)), "resolved")))
  {
    var cs := Candidates(lib, html, ct);
    forall c | cs == {c}
      ensures CharsetOf(lib, record, html) == Some((c, "declared"))
    {
      assert |cs| == 1;
      assert TheOnly(cs) in cs;
    }
  }

  // ---------------------------------------------------------------------
  // Paragraphs and plain text

  /** `_justext`'s filter: the paragraphs classed "good", in order. */
  function GoodParagraphs(ps: seq<Paragraph>): (good: seq<Paragraph>)
    ensures |good| <= |ps|
    ensures forall i :: 0 <= i < |good| ==> good[i].classification == "good" && good[i] in ps
    ensures forall i :: 0 <= i < |ps| && ps[i].classification == "good" ==> ps[i] in good
  {
    if ps == [] then []
    else (if ps[0].classification == "good" then [ps[0]] else []) + GoodParagraphs(ps[1..])
  }

  function Justext(lib: Libraries, html: seq<byte>, stoplist: string, charset: string, setting: JustextSetting): seq<Paragraph>
  {
    GoodParagraphs(lib.justext(html, stoplist, charset, setting))
  }

  /** `setting = JUSTEXT_BASE_SETTING.copy(); setting.update(upd)` */
  function ApplyUpdate(setting: JustextSetting, upd: SettingUpdate): (s: JustextSetting)
    ensures upd.SetMaxLinkDensity? ==> s == setting.(maxLinkDensity := upd.density)
    ensures upd.SetMaxGoodDistance? ==> s == setting.(maxGoodDistance := upd.distance)
  {
    match upd
    case SetMaxLinkDensity(d) => setting.(maxLinkDensity := d)
    case SetMaxGoodDistance(d) => setting.(maxGoodDistance := d)
  }

  /** The fall-back settings tried in order on the base setting. */
  function Fallback(lib: Libraries, html: seq<byte>, stoplist: string, charset: string, updates: seq<SettingUpdate>): seq<Paragraph>
  {
    if updates == [] then []
    else
      var ps := Justext(lib, html, stoplist, charset, ApplyUpdate(JUSTEXT_BASE_SETTING, updates[0]));
      if ps != [] then ps else Fallback(lib, html, stoplist, charset, updates[1..])
  }

  /** The fall-backs stop at the first setting that finds good paragraphs;
      they find none only when every setting finds none. */
  lemma {:induction false} FallbackFirstNonEmpty(lib: Libraries, html: seq<byte>, stoplist: string, charset: string, updates: seq<SettingUpdate>)
    ensures var ps := Fallback(lib, html, stoplist, charset, updates);
      && (ps == [] <==> forall i :: 0 <= i < |updates| ==> Justext(lib, html, stoplist, charset, ApplyUpdate(JUSTEXT_BASE_SETTING, updates[i])) == [])
      && (ps != [] ==> exists i :: (0 <= i < |updates|
        && ps == Justext(lib, html, stoplist, charset, ApplyUpdate(JUSTEXT_BASE_SETTING, updates[i]))
        && forall j :: 0 <= j < i ==> Justext(lib, html, stoplist, charset, ApplyUpdate(JUSTEXT_BASE_SETTING, updates[j])) == []))
  {
    if updates != [] {
      var first := Justext(lib, html, stoplist, charset, ApplyUpdate(JUSTEXT_BASE_SETTING, updates[0]));
      if first == [] {
        var tail := updates[1..];
        FallbackFirstNonEmpty(lib, html, stoplist, charset, tail);
        assert forall j :: 1 <= j < |updates| ==> updates[j] == tail[j - 1];
        var rest := Fallback(lib, html, stoplist, charset, tail);
        if rest != [] {
          var i :| (0 <= i < |tail|
            && rest == Justext(lib, html, stoplist, charset, ApplyUpdate(JUSTEXT_BASE_SETTING, tail[i]))
            && forall j :: 0 <= j < i ==> Justext(lib, html, stoplist, charset, ApplyUpdate(JUSTEXT_BASE_SETTING, tail[j])) == []);
          assert tail[i] == updates[i + 1];
        }
      }
    }
  }

  /** The good paragraphs of the base setting, else of the first fall-back
      that finds any. */
  function Paragraphs(lib: Libraries, html: seq<byte>, stoplist: string, charset: string): seq<Paragraph>
  {
    var ps := Justext(lib, html, stoplist, charset, JUSTEXT_BASE_SETTING);
    if ps != [] then ps else Fallback(lib, html, stoplist, charset, JUSTEXT_FALLBACK_SETTING)
  }

  function Texts(ps: seq<Paragraph>): (ts: seq<string>)
    ensures |ts| == |ps| && forall i :: 0 <= i < |ps| ==> ts[i] == ps[i].text
  {
    seq(|ps|, i requires 0 <= i < |ps| => ps[i].text)
  }

  /** `'\n'.join(p['text'] for p in paragraphs).strip()` */
  function PlainText(ps: seq<Paragraph>): string
  {
    Strip(Join(Texts(ps), "\n"))
  }

  /** The stored plain text never starts or ends with whitespace. */
  lemma PlainTextTrimmed(ps: seq<Paragraph>)
    ensures var t := PlainText(ps); t == [] || (!IsSpace(t[0]) && !IsSpace(t[|t| - 1]))
  {
    var j := Join(Texts(ps), "\n");
    var t := Strip(j);
    if t != [] {
      assert t[0] == LStrip(j)[0];
    }
  }

  // ---------------------------------------------------------------------
  // Links and metadata

  /** `_valid_abs_url`: both a scheme and a network location. */
  predicate ValidAbsUrl(lib: Libraries, url: string)
  {
    lib.urlParse(url).Some? && lib.urlParse(url).value.0 != [] && lib.urlParse(url).value.1 != []
  }

  /** `_get_abs_links` on the hrefs of the page: empty ones dropped, the
      rest resolved against the base URL when there is one, and only
      absolute URLs kept, in document order. */
  function AbsLinks(lib: Libraries, hrefs: seq<string>, base: string): (links: seq<string>)
    ensures forall i :: 0 <= i < |links| ==> ValidAbsUrl(lib, links[i])
    ensures forall i :: 0 <= i < |links| ==> exists j :: (0 <= j < |hrefs| && hrefs[j] != []
      && links[i] == (if base != [] then lib.urlJoin(base, hrefs[j]) else hrefs[j]))
    ensures forall j :: (0 <= j < |hrefs| && hrefs[j] != []
      && ValidAbsUrl(lib, if base != [] then lib.urlJoin(base, hrefs[j]) else hrefs[j])
      ==> (if base != [] then lib.urlJoin(base, hrefs[j]) else hrefs[j]) in links)
  {
    if hrefs == [] then []
    else
      var rest := AbsLinks(lib, hrefs[1..], base);
      assert forall j :: 1 <= j < |hrefs| ==> hrefs[j] == hrefs[1..][j - 1];
      var l := if base != [] then lib.urlJoin(base, hrefs[0]) else hrefs[0];
      (if hrefs[0] != [] && ValidAbsUrl(lib, l) then [l] else []) + rest
  }

  /** `data[LINKS] = self._get_abs_links(tree, data[URL])`, skipped when
      collecting the hrefs or resolving against a non-string URL raises. */
  function WithLinks(lib: Libraries, data: Record, hrefs: Option<seq<string>>): (r: Record)
    ensures r.isRevisit == data.isRevisit
    ensures forall k :: k != LINKS ==> Get(r, k) == Get(data, k) && (k in r.data <==> k in data.data)
  {
    var base := Get(data, URL);
    if hrefs.None? || (Truthy(base) && !base.Str?) then data
    else
      var links := AbsLinks(lib, hrefs.value, if base.Str? then base.s else "");
      Set(data, LINKS, List(seq(|links|, i requires 0 <= i < |links| => Str(links[i]))))
  }

  /** `_get_metadata`: the language when one is guessed, the first title
      when there is one, and the non-empty headlines. */
  function MetadataFields(m: Metadata): (fields: map<string, Value>)
    ensures fields.Keys <= {LANGUAGE, TITLE, HEADLINES} && HEADLINES in fields
  {
    var withLang := if m.language.Some? && m.language.value != [] then map[LANGUAGE := Str(m.language.value)] else map[];
    var withTitle := if m.title.Some? then withLang[TITLE := Str(m.title.value)] else withLang;
    withTitle[HEADLINES := List(NonEmptyStrs(m.headlines))]
  }

  function NonEmptyStrs(ss: seq<string>): (vs: seq<Value>)
    ensures forall i :: 0 <= i < |vs| ==> vs[i].Str? && vs[i].s != [] && vs[i].s in ss
  {
    if ss == [] then []
    else (if ss[0] != [] then [Str(ss[0])] else []) + NonEmptyStrs(ss[1..])
  }

  // ---------------------------------------------------------------------
  // The extractor

  /** `HTMLTextExtractor._process` as a function of the record; the
      partially updated record on a raise. */
  function ProcessSpec(lib: Libraries, data: Record): (o: Outcome)
    ensures IsBlank(lib.contentBytes(data)) ==> o == Returned(data)
    ensures |lib.contentBytes(data)| > MAX_ALLOWED_HTML_CONTENT_SIZE ==> o == Returned(data)
  {
    var html := lib.contentBytes(data);
    if IsBlank(html) || |html| > MAX_ALLOWED_HTML_CONTENT_SIZE then Returned(data)
    else
      match CharsetOf(lib, data, html)
      case None => Raised(data)
      case Some((charset, _)) =>
        match lib.parse(html, charset)
        case EmptyDocument => Returned(data)
        case ParserError => Raised(data)
        case Page(meta, hrefs) => PageSpec(lib, data, html, charset, meta, hrefs)
  }

  /** `process` once the page is parsed: the metadata fields, the links,
      and the plain text in the language found (Czech when none). */
  function PageSpec(lib: Libraries, data: Record, html: seq<byte>, charset: string,
                    meta: Option<Metadata>, hrefs: Option<seq<string>>): Outcome
  {
    var d1 := if meta.Some? then data.(data := data.data + MetadataFields(meta.value)) else data;
    var d2 := WithLinks(lib, d1, hrefs);
    var lang := Or(Get(d2, LANGUAGE), Str("cs"));
    if lang.List? || lang.Dict? then Raised(d2)
    else if !lang.Str? || lang.s !in JUSTEXT_STOPLISTS then Returned(d2)
    else
      var ps := Paragraphs(lib, html, JUSTEXT_STOPLISTS[lang.s], charset);
      Returned(Set(d2, PLAINTEXT, Str(PlainText(ps))))
  }

  /** The record that comes out of `process`, whatever the outcome. */
  function ResultRecord(o: Outcome): Record
  {
    match o
    case Returned(r) => r
    case Raised(r) => r
  }

  /** Extraction writes only the metadata fields, the links and the plain
      text: every other field and the revisit flag stay as they were. */
  lemma ProcessWritesOnlyItsFields(lib: Libraries, data: Record, k: string)
    requires k !in {LANGUAGE, TITLE, HEADLINES, LINKS, PLAINTEXT}
    ensures var r := ResultRecord(ProcessSpec(lib, data));
      r.isRevisit == data.isRevisit && Get(r, k) == Get(data, k) && (k in r.data <==> k in data.data)
  {
    var html := lib.contentBytes(data);
    if !(IsBlank(html) || |html| > MAX_ALLOWED_HTML_CONTENT_SIZE) && CharsetOf(lib, data, html).Some? {
      var charset := CharsetOf(lib, data, html).value.0;
      var page := lib.parse(html, charset);
      if page.Page? {
        PageWritesOnlyItsFields(lib, data, html, charset, page.metadata, page.hrefs, k);
      }
    }
  }

  /** The parsed-page part of `process` writes only the metadata fields,
      the links and the plain text. */
  lemma PageWritesOnlyItsFields(lib: Libraries, data: Record, html: seq<byte>, charset: string,
                                meta: Option<Metadata>, hrefs: Option<seq<string>>, k: string)
    requires k !in {LANGUAGE, TITLE, HEADLINES, LINKS, PLAINTEXT}
    ensures var r := ResultRecord(PageSpec(lib, data, html, charset, meta, hrefs));
      r.isRevisit == data.isRevisit && Get(r, k) == Get(data, k) && (k in r.data <==> k in data.data)
  {
    if meta.Some? {
      assert k !in MetadataFields(meta.value);
    }
  }

  /** Plain text is stored only for a language jusText supports (Czech
      when none is known), and it is the trimmed join of the good
      paragraphs jusText finds in the record's content with that
      language's stoplist and the charset the page was decoded with. */
  lemma PlainTextOnlyForSupportedLanguage(lib: Libraries, data: Record)
    requires ProcessSpec(lib, data).Returned?
    requires Get(ProcessSpec(lib, data).record, PLAINTEXT) != Get(data, PLAINTEXT)
    ensures var r, html := ProcessSpec(lib, data).record, lib.contentBytes(data);
      var lang := Or(Get(r, LANGUAGE), Str("cs"));
      && lang.Str? && lang.s in JUSTEXT_STOPLISTS && CharsetOf(lib, data, html).Some?
      && Get(r, PLAINTEXT) ==
           Str(PlainText(Paragraphs(lib, html, JUSTEXT_STOPLISTS[lang.s], CharsetOf(lib, data, html).value.0)))
  {
    var html := lib.contentBytes(data);
    var charset := CharsetOf(lib, data, html).value.0;
    var meta := lib.parse(html, charset).metadata;
    if meta.Some? {
      assert PLAINTEXT !in MetadataFields(meta.value);
    }
  }

  /** `HTMLTextExtractor`: the library calls it was set up with. */
  class HTMLTextExtractor {
    const logger: string
    const lib: Libraries

    constructor(lib: Libraries)
      ensures this.lib == lib && logger == "HTMLTextExtractor"
    {
      logger := "HTMLTextExtractor";
      this.lib := lib;
    }

    /** `_get_charset`, collecting the declared charsets into a set. */
    method GetCharset(data: Record, html: seq<byte>) returns (r: Option<(string, string)>)
      ensures r == CharsetOf(lib, data, html)
    {
      var bom := GetCharsetFromBom(html);
      if bom.Some? && lib.knownEncoding(bom.value) {
        return Some((bom.value, "BOM-based"));
      }
      var ct := ContentType(data);
      if ct.None? {
        return None;
      }
      var charsets := CollectCharsets(ct.value, html);
      if |charsets| == 0 {
        return Some((lib.guessCharset(html, None), "guessed"));
      }
      if |charsets| == 1 {
        return Some((TheOnly(charsets), "declared"));
      }
      return Some((lib.guessCharset(html, Some(charsets)), "resolved"));
    }

    /** The candidate set of `_get_charset`, filled step by step. */
    method CollectCharsets(ct: string, html: seq<byte>) returns (charsets: set<string>)
      ensures charsets == Candidates(lib, html, ct)
    {
      charsets := {};
      var charset := lib.headerCharset(ct);
      if charset.Some? && lib.knownEncoding(charset.value) {
        charsets := charsets + {Lower(charset.value)};
      }
      for i := 0 to |CHARSET_PATTERNS|
        invariant charsets == Declared(lib.headerCharset(ct), lib.knownEncoding) + PatternCharsets(lib, html, i)
      {
        charset := lib.searchCharset(CHARSET_PATTERNS[i], html);
        if charset.Some? && lib.knownEncoding(charset.value) {
          charsets := charsets + {Lower(charset.value)};
        }
      }
    }

    /** The jusText runs of `_process`: the base setting, then the
        fall-backs in a loop until one finds good paragraphs. */
    method ExtractParagraphs(html: seq<byte>, stoplist: string, charset: string) returns (paragraphs: seq<Paragraph>)
      ensures paragraphs == Paragraphs(lib, html, stoplist, charset)
    {
      paragraphs := Justext(lib, html, stoplist, charset, JUSTEXT_BASE_SETTING);
      if paragraphs != [] {
        return;
      }
      var k := 0;
      while k < |JUSTEXT_FALLBACK_SETTING|
        invariant 0 <= k <= |JUSTEXT_FALLBACK_SETTING|
        invariant Fallback(lib, html, stoplist, charset, JUSTEXT_FALLBACK_SETTING)
          == Fallback(lib, html, stoplist, charset, JUSTEXT_FALLBACK_SETTING[k..])
        invariant paragraphs == []
      {
        assert JUSTEXT_FALLBACK_SETTING[k..][1..] == JUSTEXT_FALLBACK_SETTING[k + 1..];
        var setting := ApplyUpdate(JUSTEXT_BASE_SETTING, JUSTEXT_FALLBACK_SETTING[k]);
        paragraphs := Justext(lib, html, stoplist, charset, setting);
        if paragraphs != [] {
          return;
        }
        k := k + 1;
      }
    }

    /** `_process`. */
    method Process(data: Record) returns (o: Outcome)
      ensures o == ProcessSpec(lib, data)
    {
      var html := lib.contentBytes(data);
      if IsBlank(html) || |html| > MAX_ALLOWED_HTML_CONTENT_SIZE {
        return Returned(data);
      }
      var decided := GetCharset(data, html);
      if decided.None? {
        return Raised(data);
      }
      var charset := decided.value.0;
      var parsed := lib.parse(html, charset);
      if parsed.EmptyDocument? {
        return Returned(data);
      } else if parsed.ParserError? {
        return Raised(data);
      }
      var record := data;
      if parsed.metadata.Some? {
        record := record.(data := record.data + MetadataFields(parsed.metadata.value));
      }
      record := WithLinks(lib, record, parsed.hrefs);
      var lang := Or(Get(record, LANGUAGE), Str("cs"));
      if lang.List? || lang.Dict? {
        return Raised(record);
      }
      if !lang.Str? || lang.s !in JUSTEXT_STOPLISTS {
        return Returned(record);
      }
      var stoplist := JUSTEXT_STOPLISTS[lang.s];
      var paragraphs := ExtractParagraphs(html, stoplist, charset);
      record := Set(record, PLAINTEXT, Str(PlainText(paragraphs)));
      return Returned(record);
    }
  }
}
