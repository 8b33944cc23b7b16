/** The Flesch Reading Ease score: syllable splitting, the token filter,
    the counting rules and the five values appended to the record's
    EXTRA list. Hyphenation dictionaries and the NLTK tokenizers are
    taken as parameters. */
module SOUAlgorithms {
  import opened Common
  import opened PyStr
  import opened Config
  import opened BaseAlgorithms

  /** The libraries the score relies on. */
  datatype Tools = Tools(
    /** whether `pyphen.Pyphen(lang=lang)` finds a dictionary */
    pyphenKnows: string -> bool,
    /** `Pyphen(lang=lang).inserted(token)`: the token with '-' at its
        hyphenation points */
    hyphenate: (string, string) -> string,
    /** `WordTokenizer().process` and `SentenceTokenizer().process` */
    wordTokenizer: Record -> Record,
    sentenceTokenizer: Record -> Record)

  // ---------------------------------------------------------------------
  // Syllables

  /** `re.sub(r"\-+", "-", s)`: every run of hyphens becomes one. */
  function CollapseHyphens(s: string): (r: string)
    ensures |r| <= |s|
    ensures s != [] ==> r != [] && r[0] == s[0]
  {
    if |s| <= 1 then s
    else if s[0] == '-' && s[1] == '-' then CollapseHyphens(s[1..])
    else [s[0]] + CollapseHyphens(s[1..])
  }

  /** The characters of `s` other than hyphens. */
  function Letters(s: string): string
  {
    if s == [] then [] else (if s[0] == '-' then [] else [s[0]]) + Letters(s[1..])
  }

  /** Collapsing leaves no two hyphens side by side and keeps every other
      character in order. */
  lemma {:induction false} CollapseHyphensFacts(s: string)
    ensures var r := CollapseHyphens(s);
      && (forall i :: 0 <= i < |r| - 1 ==> !(r[i] == '-' && r[i + 1] == '-'))
      && Letters(r) == Letters(s)
  {
    if |s| > 1 {
      CollapseHyphensFacts(s[1..]);
      var rest := CollapseHyphens(s[1..]);
      if !(s[0] == '-' && s[1] == '-') {
        var r := [s[0]] + rest;
        assert r[1..] == rest;
        assert rest[0] == s[1];
      }
    }
  }

  /** The syllables of one token. */
  function TokenSyllables(tools: Tools, lang: string, t: string): (parts: seq<string>)
    ensures |parts| >= 1
  {
    SplitSep(CollapseHyphens(tools.hyphenate(lang, t)), '-')
  }

  /** `tokens_to_syllables`: the syllables of every token, in token order. */
  function Syllables(tools: Tools, lang: string, tokens: seq<string>): seq<string>
  {
    if tokens == [] then []
    else TokenSyllables(tools, lang, tokens[0]) + Syllables(tools, lang, tokens[1..])
  }

  /** Every token yields at least one syllable. */
  lemma {:induction false} AtLeastOneSyllablePerToken(tools: Tools, lang: string, tokens: seq<string>)
    ensures |Syllables(tools, lang, tokens)| >= |tokens|
  {
    if tokens != [] {
      AtLeastOneSyllablePerToken(tools, lang, tokens[1..]);
    }
  }

  /** The syllables of a token joined by '-' give back its collapsed
      hyphenated form. */
  lemma TokenSyllablesJoin(tools: Tools, lang: string, t: string)
    ensures Join(TokenSyllables(tools, lang, t), "-") == CollapseHyphens(tools.hyphenate(lang, t))
  {
    JoinSplitSep(CollapseHyphens(tools.hyphenate(lang, t)), '-');
  }

  /** Syllables of a concatenation are the concatenated syllables. */
  lemma {:induction false} SyllablesAppend(tools: Tools, lang: string, a: seq<string>, b: seq<string>)
    ensures Syllables(tools, lang, a + b) == Syllables(tools, lang, a) + Syllables(tools, lang, b)
  {
    if a == [] {
      assert a + b == b;
    } else {
      assert (a + b)[1..] == a[1..] + b;
      SyllablesAppend(tools, lang, a[1..], b);
    }
  }

  // ---------------------------------------------------------------------
  // Counting

  predicate IsWordTokenChar(c: char)
  {
    IsAlnum(c) || c == '_' || c == '-' || c == '\''
  }

  predicate AllWordTokenChars(s: string)
  {
    forall i :: 0 <= i < |s| ==> IsWordTokenChar(s[i])
  }

  /** `re.match(r"^[\w\-']+$", t)`: `$` also matches before a final
      newline. */
  predicate ValidToken(t: string)
  {
    (t != [] && AllWordTokenChars(t))
    || (|t| >= 2 && t[|t| - 1] == '\n' && AllWordTokenChars(t[..|t| - 1]))
  }

  /** The tokens counted as words, in order. */
  function ValidTokens(tokens: seq<string>): (ws: seq<string>)
    ensures |ws| <= |tokens|
    ensures forall i :: 0 <= i < |ws| ==> ValidToken(ws[i]) && ws[i] in tokens
    ensures forall i :: 0 <= i < |tokens| && ValidToken(tokens[i]) ==> tokens[i] in ws
  {
    if tokens == [] then []
    else (if ValidToken(tokens[0]) then [tokens[0]] else []) + ValidTokens(tokens[1..])
  }

  /** `FRE`: the Flesch Reading Ease score, None exactly when there is no
      sentence or no word. */
  function FRE(nSentences: int, nWords: int, nSyllables: int): (fre: Option<real>)
    ensures fre.None? <==> nSentences == 0 || nWords == 0
  {
    if nSentences == 0 || nWords == 0 then None
    else Some(206.835 - 1.015 * (nWords as real / nSentences as real) - 84.6 * (nSyllables as real / nWords as real))
  }

  /** Ten sentences of fifty words and a hundred syllables score 32.56; a
      single one-syllable word scores 121.22. */
  lemma FREExamples()
    ensures FRE(10, 50, 100) == Some(32.56)
    ensures FRE(1, 1, 1) == Some(121.22)
  {
  }

  /** The string items of a token list; None when iterating it or matching
      an item raises. */
  function TokenStrings(v: Value): (ts: Option<seq<string>>)
    ensures ts.Some? ==> (v.List? && |ts.value| == |v.items|
      && forall i :: 0 <= i < |v.items| ==> v.items[i] == Str(ts.value[i]))
  {
    match v
    case List(items) =>
      if forall i :: 0 <= i < |items| ==> items[i].Str? then
        Some(seq(|items|, i requires 0 <= i < |items| => items[i].s))
      else None
    case _ => None
  }

  /** `len(v)`; None when `v` has no length. */
  function Len(v: Value): Option<nat>
  {
    match v
    case Str(s) => Some(|s|)
    case Bytes(bs) => Some(|bs|)
    case List(items) => Some(|items|)
    case Dict(entries) => Some(|entries|)
    case _ => None
  }

  /** `record[EXTRA] += items`; None when EXTRA is not a list. */
  function AppendExtra(record: Record, items: seq<Value>): (r: Option<Record>)
    ensures r.Some? <==> Get(record, EXTRA).List?
    ensures r.Some? ==> r.value == Set(record, EXTRA, List(Get(record, EXTRA).items + items))
  {
    match Get(record, EXTRA)
    case List(old_items) => Some(Set(record, EXTRA, List(old_items + items)))
    case _ => None
  }

  function OutcomeOf(r: Option<Record>, fallback: Record): Outcome
  {
    match r
    case Some(rec) => Returned(rec)
    case None => Raised(fallback)
  }

  /** `check_lang_dict`'s answer: the record's language (Czech when none)
      when a dictionary is loaded or can be loaded, else Czech; None when
      the language is not a string. */
  function LangFor(tools: Tools, hyphenators: set<string>, record: Record): (lang: Option<string>)
    ensures lang.Some? ==> lang.value in hyphenators || tools.pyphenKnows(lang.value) || lang.value == "cs"
  {
    match Or(Get(record, LANGUAGE), Str("cs"))
    case Str(l) => if l in hyphenators || tools.pyphenKnows(l) then Some(l) else Some("cs")
    case _ => None
  }

  /** The five values appended for a text. */
  function Scores(url: Value, nSentences: nat, nWords: nat, nSyllables: nat): (items: seq<Value>)
    ensures |items| == 5 && items[0] == url
  {
    var fre := FRE(nSentences, nWords, nSyllables);
    [url, Int(nSentences), Int(nWords), Int(nSyllables), if fre.Some? then Float(fre.value) else Null]
  }

  /** `FleschReadingEase._process` given the languages whose dictionaries
      are loaded. */
  function ProcessSpec(tools: Tools, hyphenators: set<string>, record: Record): Outcome
  {
    if !Truthy(Get(record, PLAINTEXT)) then
      OutcomeOf(AppendExtra(record, [Get(record, URL), Int(0), Int(0), Int(0), Null]), record)
    else
      match LangFor(tools, hyphenators, record)
      case None => Raised(record)
      case Some(lang) =>
        var r1 := if TOKENS !in record.data then tools.wordTokenizer(record) else record;
        var r2 := if SENTENCES !in r1.data then tools.sentenceTokenizer(r1) else r1;
        match TokenStrings(Get(r2, TOKENS))
        case None => Raised(r2)
        case Some(allTokens) =>
          match Len(Get(r2, SENTENCES))
          case None => Raised(r2)
          case Some(nSentences) =>
            var tokens := ValidTokens(allTokens);
            var nSyllables := |Syllables(tools, lang, tokens)|;
            OutcomeOf(AppendExtra(r2, Scores(Get(r2, URL), nSentences, |tokens|, nSyllables)), r2)
  }

  /** Without plain text the record gains [URL, 0, 0, 0, None] on its
      EXTRA list and nothing else changes. */
  lemma NoPlainTextAppendsZeros(tools: Tools, hyphenators: set<string>, record: Record)
    requires !Truthy(Get(record, PLAINTEXT)) && Get(record, EXTRA).List?
    ensures ProcessSpec(tools, hyphenators, record)
      == Returned(Set(record, EXTRA, List(Get(record, EXTRA).items + [Get(record, URL), Int(0), Int(0), Int(0), Null])))
  {
  }

  /** A completed call appends exactly five items to EXTRA and keeps the
      earlier ones; with tokens and sentences already present nothing
      else changes. */
  lemma AppendsFiveItems(tools: Tools, hyphenators: set<string>, record: Record)
    requires ProcessSpec(tools, hyphenators, record).Returned?
    ensures var r := ProcessSpec(tools, hyphenators, record).record;
      exists before: seq<Value>, items: seq<Value> :: (|items| == 5 && Get(r, EXTRA) == List(before + items)
        && (TOKENS in record.data && SENTENCES in record.data ==> (before == Get(record, EXTRA).items
          && r == Set(record, EXTRA, List(before + items)))))
  {
    var r := ProcessSpec(tools, hyphenators, record).record;
    if !Truthy(Get(record, PLAINTEXT)) {
      var items := [Get(record, URL), Int(0), Int(0), Int(0), Null];
      assert Get(r, EXTRA) == List(Get(record, EXTRA).items + items);
    } else {
      var lang := LangFor(tools, hyphenators, record).value;
      var r1 := if TOKENS !in record.data then tools.wordTokenizer(record) else record;
      var r2 := if SENTENCES !in r1.data then tools.sentenceTokenizer(r1) else r1;
      var tokens := ValidTokens(TokenStrings(Get(r2, TOKENS)).value);
      var items := Scores(Get(r2, URL), Len(Get(r2, SENTENCES)).value, |tokens|, |Syllables(tools, lang, tokens)|);
      assert Get(r, EXTRA) == List(Get(r2, EXTRA).items + items);
    }
  }

  /** A comma is no word: the plain text "," tokenised as one token in one
      sentence scores [URL, 1, 0, 0, None]. */
  lemma CommaIsNoWord(tools: Tools, hyphenators: set<string>, record: Record)
    requires Truthy(Get(record, PLAINTEXT)) && Get(record, EXTRA).List?
    requires Get(record, LANGUAGE) == Str("cs")
    requires Get(record, TOKENS) == List([Str(",")]) && Get(record, SENTENCES) == List([Str(",")])
    ensures ProcessSpec(tools, hyphenators, record)
      == Returned(Set(record, EXTRA, List(Get(record, EXTRA).items + [Get(record, URL), Int(1), Int(0), Int(0), Null])))
  {
    var comma := ",";
    assert !IsWordTokenChar(comma[0]);
    assert !AllWordTokenChars(comma);
    assert !ValidToken(comma);
    var ts := TokenStrings(Get(record, TOKENS)).value;
    assert |ts| == 1 && ts[0] == comma;
    assert ts == [comma];
    assert ValidTokens([","]) == [];
  }

  // ---------------------------------------------------------------------
  // The scorer

  /** `FleschReadingEase`: the languages whose hyphenation dictionaries are
      loaded; Czech is loaded at construction. */
  class FleschReadingEase {
    const logger: string
    const tools: Tools
    var hyphenators: set<string>

    predicate Valid()
      reads this
    {
      "cs" in hyphenators
    }

    constructor(tools: Tools)
      ensures Valid() && hyphenators == {"cs"} && this.tools == tools && logger == "FleschReadingEase"
    {
      logger := "FleschReadingEase";
      this.tools := tools;
      hyphenators := {"cs"};
    }

    /** `check_lang_dict`: caches a dictionary for a new language when
        pyphen has one; the answer always has a dictionary loaded. */
    method CheckLangDict(record: Record) returns (lang: Option<string>)
      requires Valid()
      modifies this
      ensures Valid()
      ensures lang == LangFor(tools, old(hyphenators), record)
      ensures lang.Some? ==> lang.value in hyphenators
      ensures old(hyphenators) <= hyphenators
      ensures hyphenators == old(hyphenators) || (lang.Some? && hyphenators == old(hyphenators) + {lang.value})
    {
      var l := Or(Get(record, LANGUAGE), Str("cs"));
      if !l.Str? {
        return None;
      }
      lang := Some(l.s);
      if l.s !in hyphenators {
        if tools.pyphenKnows(l.s) {
          hyphenators := hyphenators + {l.s};
        } else {
          lang := Some("cs");
        }
      }
    }

    /** `tokens_to_syllables`, appending each token's syllables in turn. */
    method TokensToSyllables(tokens: seq<string>, lang: string) returns (syllables: seq<string>)
      requires lang in hyphenators
      ensures syllables == Syllables(tools, lang, tokens)
    {
      syllables := [];
      var i := 0;
      while i < |tokens|
        invariant 0 <= i <= |tokens|
        invariant syllables == Syllables(tools, lang, tokens[..i])
      {
        SyllablesAppend(tools, lang, tokens[..i], [tokens[i]]);
        assert tokens[..i + 1] == tokens[..i] + [tokens[i]];
        syllables := syllables + TokenSyllables(tools, lang, tokens[i]);
        i := i + 1;
      }
      assert tokens[..i] == tokens;
    }

    /** `_process`. */
    method Process(record: Record) returns (o: Outcome)
      requires Valid()
      modifies this
      ensures Valid() && old(hyphenators) <= hyphenators
      ensures o == ProcessSpec(tools, old(hyphenators), record)
    {
      if !Truthy(Get(record, PLAINTEXT)) {
        var r := AppendExtra(record, [Get(record, URL), Int(0), Int(0), Int(0), Null]);
        return OutcomeOf(r, record);
      }
      var lang := CheckLangDict(record);
      if lang.None? {
        return Raised(record);
      }
      var rec := record;
      if TOKENS !in rec.data {
        rec := tools.wordTokenizer(rec);
      }
      if SENTENCES !in rec.data {
        rec := tools.sentenceTokenizer(rec);
      }
      var allTokens := TokenStrings(Get(rec, TOKENS));
      if allTokens.None? {
        return Raised(rec);
      }
      var nSentences := Len(Get(rec, SENTENCES));
      if nSentences.None? {
        return Raised(rec);
      }
      var tokens := ValidTokens(allTokens.value);
      var syllables := TokensToSyllables(tokens, lang.value);
      var r := AppendExtra(rec, Scores(Get(rec, URL), nSentences.value, |tokens|, |syllables|));
      return OutcomeOf(r, rec);
    }
  }
}
