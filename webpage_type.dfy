/** Web page type by substrings of the URL: news, then e-shop, then forum,
    else others. */
module WebPageTypeIdentification {
  import opened Common
  import opened Config
  import opened BaseAlgorithms

  const NEWS_STRINGS: seq<string> := [
    "www.novinky.cz", "www.seznamzpravy.cz", "www.idnes.cz", "www.aktualne.cz",
    "www.denik.cz", "www.blesk.cz", "www.reflex.cz", "tn.nova.cz", "www.iprima.cz",
    "echo24.cz", "ct24.ceskatelevize.cz", "www.irozhlas.cz", "www.ceskenoviny.cz",
    "www.lidovky.cz", "www.forum24.cz", "ihned.cz", "www.parlamentnilisty.cz"]
  const ESHOP_STRINGS: seq<string> := ["www.alza.cz", "www.mall.cz", "eshop", "e-shop"]
  const FORUM_STRINGS: seq<string> := ["forum", "diskuse", "diskuze"]

  /** The ids `generate_webtypes_json` gives the page types. */
  const WEBTYPE_IDS: map<string, int> := map["eshop" := 0, "news" := 1, "forum" := 2, "others" := 3]

  /** `needle in hay` for strings. */
  predicate IsSubstring(needle: string, hay: string)
  {
    needle <= hay || (hay != [] && IsSubstring(needle, hay[1..]))
  }

  predicate OccursAt(needle: string, hay: string, i: int)
  {
    0 <= i <= |hay| - |needle| && hay[i..i + |needle|] == needle
  }

  /** The substring test finds the needle at some position of the URL... */
  lemma {:induction false} SubstringHasPosition(needle: string, hay: string)
    requires IsSubstring(needle, hay)
    ensures exists i :: OccursAt(needle, hay, i)
  {
    if needle <= hay {
      assert OccursAt(needle, hay, 0);
    } else {
      SubstringHasPosition(needle, hay[1..]);
      var i :| OccursAt(needle, hay[1..], i);
      assert hay[i + 1..i + 1 + |needle|] == hay[1..][i..i + |needle|];
      assert OccursAt(needle, hay, i + 1);
    }
  }

  /** ...and a needle at any position passes the substring test. */
  lemma {:induction false} PositionIsSubstring(needle: string, hay: string, i: int)
    requires OccursAt(needle, hay, i)
    ensures IsSubstring(needle, hay)
    decreases i
  {
    if i == 0 {
      assert hay[..|needle|] == needle;
    } else {
      assert hay[1..][i - 1..i - 1 + |needle|] == hay[i..i + |needle|];
      PositionIsSubstring(needle, hay[1..], i - 1);
    }
  }

  /** A needle longer than the URL never occurs in it. */
  lemma {:induction false} LongerNeverOccurs(needle: string, hay: string)
    requires |needle| > |hay|
    ensures !IsSubstring(needle, hay)
  {
    if hay != [] {
      LongerNeverOccurs(needle, hay[1..]);
    }
  }

  /** The URL values `string in url` works on: a string (substring test),
      a list (element test) or a dict (key test). Any other value makes
      the test raise TypeError. */
  predicate Searchable(url: Value)
  {
    url.Str? || url.List? || url.Dict?
  }

  predicate Occurs(needle: string, url: Value)
    requires Searchable(url)
  {
    match url
    case Str(s) => IsSubstring(needle, s)
    case List(items) => Str(needle) in items
    case Dict(entries) => needle in entries
  }

  predicate AnyOccurs(needles: seq<string>, url: Value)
    requires Searchable(url)
  {
    exists i :: 0 <= i < |needles| && Occurs(needles[i], url)
  }

  /** The page type of a URL. */
  function Classify(url: Value): (wpt: string)
    requires Searchable(url)
    ensures wpt in WEBTYPE_IDS
  {
    if AnyOccurs(NEWS_STRINGS, url) then "news"
    else if AnyOccurs(ESHOP_STRINGS, url) then "eshop"
    else if AnyOccurs(FORUM_STRINGS, url) then "forum"
    else "others"
  }

  /** `WebPageTypeIdentifier._process` as a function of the record. */
  function ProcessSpec(record: Record): (o: Outcome)
  {
    var url := Get(record, URL);
    if Searchable(url) then Returned(Set(record, WEBPAGETYPE, Str(Classify(url)))) else Raised(record)
  }

  /** Only the page type is written: the URL and every other field, and the
      revisit flag, stay as they were. */
  lemma WritesOnlyPageType(record: Record)
    ensures ProcessSpec(record).Returned? ==> (
      var r := ProcessSpec(record).record;
      && r.isRevisit == record.isRevisit
      && r.data.Keys == record.data.Keys + {WEBPAGETYPE}
      && (forall k :: k in record.data && k != WEBPAGETYPE ==> r.data[k] == record.data[k])
      && r.data[WEBPAGETYPE] in {Str("news"), Str("eshop"), Str("forum"), Str("others")})
    ensures ProcessSpec(record).Raised? ==> ProcessSpec(record).partial == record
  {
  }

  /** The ids are distinct and name exactly the four page types a URL can
      receive. */
  lemma WebtypeIdsCoverClassify()
    ensures forall a, b :: a in WEBTYPE_IDS && b in WEBTYPE_IDS && a != b ==> WEBTYPE_IDS[a] != WEBTYPE_IDS[b]
    ensures forall t :: t in WEBTYPE_IDS ==> exists url :: Searchable(url) && Classify(url) == t
  {
    WebtypeIdsDistinct();
    forall t | t in WEBTYPE_IDS
      ensures exists url :: Searchable(url) && Classify(url) == t
    {
      ClassifyWitness(t);
    }
  }

  /** No two page types share an id. */
  lemma WebtypeIdsDistinct()
    ensures forall a, b :: a in WEBTYPE_IDS && b in WEBTYPE_IDS && a != b ==> WEBTYPE_IDS[a] != WEBTYPE_IDS[b]
  {
    forall a, b | a in WEBTYPE_IDS && b in WEBTYPE_IDS && a != b
      ensures WEBTYPE_IDS[a] != WEBTYPE_IDS[b]
    {
      assert WEBTYPE_IDS[a] == if a == "eshop" then 0 else if a == "news" then 1 else if a == "forum" then 2 else 3;
      assert WEBTYPE_IDS[b] == if b == "eshop" then 0 else if b == "news" then 1 else if b == "forum" then 2 else 3;
    }
  }

  /** A URL that receives page type `t`. */
  lemma ClassifyWitness(t: string)
    requires t in WEBTYPE_IDS
    ensures exists url :: Searchable(url) && Classify(url) == t
  {
    if t == "news" {
      NewsExample();
    } else if t == "eshop" {
      EshopExample();
    } else if t == "forum" {
      ForumExample();
    } else {
      OthersExample();
    }
  }

  lemma NewsExample()
    ensures Classify(Str("www.novinky.cz")) == "news"
  {
    assert Occurs(NEWS_STRINGS[0], Str("www.novinky.cz"));
  }

  lemma EshopExample()
    ensures Classify(Str("eshop")) == "eshop"
  {
    NoNewsIn("eshop");
    assert Occurs(ESHOP_STRINGS[2], Str("eshop"));
  }

  lemma ForumExample()
    ensures Classify(Str("forum")) == "forum"
  {
    NoNewsIn("forum");
    NoShopIn("forum");
    assert Occurs(FORUM_STRINGS[0], Str("forum"));
  }

  lemma OthersExample()
    ensures Classify(Str("")) == "others"
  {
    NoNewsIn("");
    NoShopIn("");
    NoForumIn("");
  }

  lemma NoNewsIn(s: string)
    requires |s| <= 7
    ensures !AnyOccurs(NEWS_STRINGS, Str(s))
  {
    forall i | 0 <= i < |NEWS_STRINGS|
      ensures !IsSubstring(NEWS_STRINGS[i], s)
    {
      LongerNeverOccurs(NEWS_STRINGS[i], s);
    }
  }

  lemma NoShopIn(s: string)
    requires |s| <= 4 || s == "forum"
    ensures !AnyOccurs(ESHOP_STRINGS, Str(s))
  {
    forall i | 0 <= i < |ESHOP_STRINGS|
      ensures !IsSubstring(ESHOP_STRINGS[i], s)
    {
      if i == 2 && s == "forum" {
        assert s[0] != ESHOP_STRINGS[2][0];
        LongerNeverOccurs(ESHOP_STRINGS[2], s[1..]);
      } else {
        LongerNeverOccurs(ESHOP_STRINGS[i], s);
      }
    }
  }

  lemma NoForumIn(s: string)
    requires |s| <= 4
    ensures !AnyOccurs(FORUM_STRINGS, Str(s))
  {
    forall i | 0 <= i < |FORUM_STRINGS|
      ensures !IsSubstring(FORUM_STRINGS[i], s)
    {
      LongerNeverOccurs(FORUM_STRINGS[i], s);
    }
  }

  /** `WebPageTypeIdentifier`: the three string lists set up at
      construction. */
  class WebPageTypeIdentifier {
    const logger: string
    const newsStrings: seq<string>
    const eshopStrings: seq<string>
    const forumStrings: seq<string>

    constructor()
      ensures newsStrings == NEWS_STRINGS && eshopStrings == ESHOP_STRINGS && forumStrings == FORUM_STRINGS
      ensures logger == "WebPageTypeIdentifier"
    {
      logger := "WebPageTypeIdentifier";
      newsStrings := NEWS_STRINGS;
      eshopStrings := ESHOP_STRINGS;
      forumStrings := FORUM_STRINGS;
    }

    /** Whether any of `needles` occurs in `url`, one test after another. */
    method Scan(needles: seq<string>, url: Value) returns (found: bool)
      requires Searchable(url)
      ensures found == AnyOccurs(needles, url)
    {
      found := false;
      for i := 0 to |needles|
        invariant found <==> exists j :: 0 <= j < i && Occurs(needles[j], url)
      {
        if Occurs(needles[i], url) {
          found := true;
        }
      }
    }

    /** `_process`: the three loops in priority order. */
    method Process(record: Record) returns (o: Outcome)
      requires newsStrings == NEWS_STRINGS && eshopStrings == ESHOP_STRINGS && forumStrings == FORUM_STRINGS
      ensures o == ProcessSpec(record)
    {
      var url := Get(record, URL);
      if !Searchable(url) {
        return Raised(record);
      }
      var wpt: Option<string> := None;
      var found := Scan(newsStrings, url);
      if found {
        wpt := Some("news");
      }
      if wpt.None? {
        found := Scan(eshopStrings, url);
        if found {
          wpt := Some("eshop");
        }
      }
      if wpt.None? {
        found := Scan(forumStrings, url);
        if found {
          wpt := Some("forum");
        }
      }
      if wpt.None? {
        wpt := Some("others");
      }
      return Returned(Set(record, WEBPAGETYPE, Str(wpt.value)));
    }
  }
}
