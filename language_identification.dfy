/** Language guessing by stopword counts, and the parsing of stoplist
    files. */
module LanguageIdentification {
  import opened Common
  import opened PyStr
  import opened Utils
  import Config

  // ---------------------------------------------------------------------
  // Words of a text

  /** The words `guess_lang` counts: each whitespace-separated token
      stripped of its non-word ends and lowercased; tokens that strip to
      nothing are dropped. */
  function NormaliseWords(tokens: seq<string>): (words: seq<string>)
    ensures |words| <= |tokens|
    ensures forall i :: 0 <= i < |words| ==> words[i] != []
  {
    if tokens == [] then []
    else
      var w := StripNonWordChars(tokens[0]);
      (if w == [] then [] else [Lower(w)]) + NormaliseWords(tokens[1..])
  }

  function Words(text: string): seq<string>
  {
    NormaliseWords(Split(text))
  }

  /** The number of words, duplicates included, found in `stoplist`. */
  function Hits(words: seq<string>, stoplist: seq<string>): (n: nat)
    ensures n <= |words|
  {
    if words == [] then 0
    else (if words[0] in stoplist then 1 else 0) + Hits(words[1..], stoplist)
  }

  /** Every occurrence counts: hits add up over a concatenation. */
  lemma {:induction false} HitsAppend(a: seq<string>, b: seq<string>, stoplist: seq<string>)
    ensures Hits(a + b, stoplist) == Hits(a, stoplist) + Hits(b, stoplist)
  {
    if a != [] {
      assert (a + b)[1..] == a[1..] + b;
      HitsAppend(a[1..], b, stoplist);
    } else {
      assert a + b == b;
    }
  }

  /** The threshold `max(min_sw_count, min_sw_ratio * len(words))`. */
  function MinCount(nWords: nat, minSwRatio: real, minSwCount: int): (m: real)
    ensures m >= minSwCount as real && m >= minSwRatio * nWords as real
    ensures m == minSwCount as real || m == minSwRatio * nWords as real
  {
    if minSwCount as real >= minSwRatio * nWords as real then minSwCount as real else minSwRatio * nWords as real
  }

  /** A language with `n` hits can be chosen: it reaches the threshold and
      beats the initial best of zero. */
  predicate Qualifies(n: nat, minCount: real)
  {
    n as real >= minCount && n > 0
  }

  // ---------------------------------------------------------------------
  // Stoplist files

  /** `str.splitlines` boundaries. */
  predicate IsLineBreak(c: char)
  {
    var n := c as int;
    (0x0A <= n <= 0x0D) || (0x1C <= n <= 0x1E) || n == 0x85 || n == 0x2028 || n == 0x2029
  }

  /** Length of the line that starts `s`. */
  function LineLen(s: string): (n: nat)
    ensures n <= |s|
    ensures forall i :: 0 <= i < n ==> !IsLineBreak(s[i])
    ensures n == |s| || IsLineBreak(s[n])
  {
    if s == [] || IsLineBreak(s[0]) then 0 else 1 + LineLen(s[1..])
  }

  /** The lines of `s`. A "\r\n" pair yields one empty line more than
      `splitlines`, which only blank lines can tell apart, and those are
      skipped. */
  function Lines(s: string): (lines: seq<string>)
    ensures forall i, j :: 0 <= i < |lines| && 0 <= j < |lines[i]| ==> !IsLineBreak(lines[i][j])
    decreases |s|
  {
    if s == [] then []
    else
      var n := LineLen(s);
      [s[..n]] + (if n < |s| then Lines(s[n + 1..]) else [])
  }

  /** A string that starts with a non-blank character splits into its
      leading run first. */
  lemma SplitFirstWord(s: string)
    requires s != [] && !IsSpace(s[0])
    ensures Split(s) != [] && Split(s)[0] == s[..WordLen(s)]
  {
  }

  /** The first word of a non-blank line, lowercased. */
  function FirstWord(line: string): (w: string)
    requires Strip(line) != []
    ensures w != []
  {
    var s := Strip(line);
    assert s[0] == LStrip(line)[0];
    SplitFirstWord(s);
    Lower(Split(s)[0])
  }

  /** What a line adds to the stoplist: nothing when it is blank, else
      its first word, lowercased. */
  function StoplistWord(line: string): Option<string>
  {
    if Strip(line) == [] then None else Some(FirstWord(line))
  }

  /** What each line adds to the stoplist, line by line. */
  function LineWords(lines: seq<string>): (ws: seq<Option<string>>)
    ensures |ws| == |lines| && forall i :: 0 <= i < |lines| ==> ws[i] == StoplistWord(lines[i])
  {
    seq(|lines|, i requires 0 <= i < |lines| => StoplistWord(lines[i]))
  }

  /** The stoplist a file's text holds, in file order. */
  function StoplistOf(lines: seq<string>): seq<string>
  {
    Somes(LineWords(lines))
  }

  /** The first word of a line is a single lower-case token. */
  lemma FirstWordIsLowerToken(line: string)
    requires Strip(line) != []
    ensures Lower(FirstWord(line)) == FirstWord(line)
    ensures forall k :: 0 <= k < |FirstWord(line)| ==> !IsSpace(FirstWord(line)[k])
  {
    var s := Strip(line);
    assert s[0] == LStrip(line)[0];
    SplitFirstWord(s);
    var token := Split(s)[0];
    LowerIdempotent(token);
    forall k | 0 <= k < |token|
      ensures !IsSpace(Lower(token)[k])
    {
      LowerCharFacts(token[k]);
    }
  }

  /** A non-empty lower-case token without white space. */
  predicate IsLowerToken(w: string)
  {
    w != [] && Lower(w) == w && forall k :: 0 <= k < |w| ==> !IsSpace(w[k])
  }

  /** Every stoplist entry is a non-empty lower-case token: the words
      `guess_lang` compares against it are lowercased too. */
  lemma StoplistEntriesAreLowerTokens(lines: seq<string>)
    ensures forall w :: w in StoplistOf(lines) ==> IsLowerToken(w)
  {
    forall w | w in StoplistOf(lines)
      ensures IsLowerToken(w)
    {
      var i :| 0 <= i < |lines| && LineWords(lines)[i] == Some(w);
      FirstWordIsLowerToken(lines[i]);
    }
  }

  /** Every counted word is non-empty and in lower case. */
  lemma {:induction false} NormalisedWordsAreLower(tokens: seq<string>)
    ensures forall i :: 0 <= i < |NormaliseWords(tokens)| ==>
      Lower(NormaliseWords(tokens)[i]) == NormaliseWords(tokens)[i]
  {
    if tokens != [] {
      NormalisedWordsAreLower(tokens[1..]);
      LowerIdempotent(StripNonWordChars(tokens[0]));
    }
  }

  datatype Result<T> = Ok(value: T) | ValueError(path: string)

  // ---------------------------------------------------------------------
  // The identifier

  /** `LanguageIdentifier`: a stoplist per language, in the declaration
      order of the configuration. */
  class LanguageIdentifier {
    const logger: string
    var stoplists: seq<(string, seq<string>)>

    constructor(stoplists: seq<(string, seq<string>)>)
      ensures this.stoplists == stoplists && logger == "LanguageIdentifier"
    {
      logger := "LanguageIdentifier";
      this.stoplists := stoplists;
    }

    /** `guess_lang`: the language whose stoplist the words hit most often,
        among those reaching the threshold with at least one hit; on a tie
        the earlier language wins. None when no word remains or no
        language qualifies. */
    method GuessLang(text: string, minSwRatio: real, minSwCount: int) returns (lang: Option<string>)
      ensures var words := Words(text);
        var m := MinCount(|words|, minSwRatio, minSwCount);
        && (lang.None? <==> (words == [] || forall i :: 0 <= i < |stoplists| ==> !Qualifies(Hits(words, stoplists[i].1), m)))
        && (lang.Some? ==> exists i :: Best(stoplists, words, m, i) && stoplists[i].0 == lang.value)
    {
      var words := Words(text);
      if words == [] {
        return None;
      }
      var minCount := MinCount(|words|, minSwRatio, minSwCount);
      lang := PickLanguage(stoplists, words, minCount);
    }
  }

  /** Language `i` is the one `guess_lang` picks: it qualifies, no
      qualifying language has more hits, and every earlier qualifying one
      has fewer. */
  predicate Best(stoplists: seq<(string, seq<string>)>, words: seq<string>, minCount: real, i: int)
  {
    && 0 <= i < |stoplists|
    && Qualifies(Hits(words, stoplists[i].1), minCount)
    && (forall j :: 0 <= j < |stoplists| && Qualifies(Hits(words, stoplists[j].1), minCount)
          ==> Hits(words, stoplists[j].1) <= Hits(words, stoplists[i].1))
    && (forall j :: 0 <= j < i && Qualifies(Hits(words, stoplists[j].1), minCount)
          ==> Hits(words, stoplists[j].1) < Hits(words, stoplists[i].1))
  }

  /** The loop of `guess_lang` over the stoplists, keeping the best count
      so far and replacing it only on a strictly larger one. */
  method PickLanguage(stoplists: seq<(string, seq<string>)>, words: seq<string>, minCount: real)
    returns (lang: Option<string>)
    ensures lang.None? <==> forall i :: 0 <= i < |stoplists| ==> !Qualifies(Hits(words, stoplists[i].1), minCount)
    ensures lang.Some? ==> exists i :: Best(stoplists, words, minCount, i) && stoplists[i].0 == lang.value
  {
    var maxN: nat := 0;
    lang := None;
    ghost var best := 0;
    var k := 0;
    while k < |stoplists|
      invariant 0 <= k <= |stoplists| && 0 <= best <= k
      invariant lang.None? <==> forall i :: 0 <= i < k ==> !Qualifies(Hits(words, stoplists[i].1), minCount)
      invariant lang.None? ==> maxN == 0
      invariant lang.Some? ==> (best < k && stoplists[best].0 == lang.value
        && maxN == Hits(words, stoplists[best].1) && Qualifies(maxN, minCount))
      invariant forall j :: (0 <= j < k && Qualifies(Hits(words, stoplists[j].1), minCount)
        ==> Hits(words, stoplists[j].1) <= maxN)
      invariant lang.Some? ==> forall j :: (0 <= j < best && Qualifies(Hits(words, stoplists[j].1), minCount)
        ==> Hits(words, stoplists[j].1) < maxN)
    {
      var n := Hits(words, stoplists[k].1);
      if n as real >= minCount && n > maxN {
        maxN := n;
        lang := Some(stoplists[k].0);
        best := k;
      }
      k := k + 1;
    }
    assert lang.Some? ==> Best(stoplists, words, minCount, best);
  }

  /** The stoplist `_load_stoplist` gives for `path`: that of the file
      itself, or else that of the file of the same base name, or else
      none (the load fails). */
  function LoadedStoplist(path: string, read: string -> Option<string>): seq<string>
  {
    match read(path)
    case Some(text) => StoplistOf(Lines(text))
    case None =>
      match read(Basename(path))
      case Some(text) => StoplistOf(Lines(text))
      case None => []
  }

  /** `_load_stoplist`: the stoplist of the file at `path`, read through
      `read` (None when the file cannot be read); when the path cannot be
      read, the file of the same base name in the working directory is
      tried. */
  method LoadStoplist(path: string, read: string -> Option<string>) returns (r: Result<seq<string>>)
    ensures read(path).None? && read(Basename(path)).None? <==> r.ValueError?
    ensures read(path).Some? ==> r == Ok(StoplistOf(Lines(read(path).value)))
    ensures read(path).None? && read(Basename(path)).Some? ==> r == Ok(StoplistOf(Lines(read(Basename(path)).value)))
  {
    var text := read(path);
    if text.None? {
      text := read(Basename(path));
    }
    if text.None? {
      return ValueError(path);
    }
    var stoplist := ParseStoplist(Lines(text.value));
    r := Ok(stoplist);
  }

  /** The loop of `_load_stoplist` over the lines of the file. */
  method ParseStoplist(lines: seq<string>) returns (stoplist: seq<string>)
    ensures stoplist == StoplistOf(lines)
  {
    ghost var ws := LineWords(lines);
    stoplist := [];
    var i := 0;
    while i < |lines|
      invariant 0 <= i <= |lines|
      invariant stoplist == Somes(ws[..i])
    {
      var word := StoplistWord(lines[i]);
      assert ws[i] == word;
      TakeSnoc(ws, i);
      SomesSnoc(ws[..i], word);
      if word.Some? {
        stoplist := stoplist + [word.value];
      }
      i := i + 1;
    }
    assert ws[..i] == ws;
  }

  /** `_load_stoplists`: every configured stoplist, in configuration order;
      a file that cannot be read makes the whole load fail. */
  method LoadStoplists(read: string -> Option<string>) returns (r: Result<seq<(string, seq<string>)>>)
    ensures r.Ok? ==> (|r.value| == |Config.STOPLISTS|
      && forall i :: 0 <= i < |r.value| ==> r.value[i] == (Config.STOPLISTS[i].0, LoadedStoplist(Config.STOPLISTS[i].1, read)))
    ensures r.ValueError? <==> exists i :: (0 <= i < |Config.STOPLISTS|
      && read(Config.STOPLISTS[i].1).None? && read(Basename(Config.STOPLISTS[i].1)).None?)
  {
    r := LoadStoplistsFrom(Config.STOPLISTS, read);
  }

  /** The loop of `_load_stoplists` over a list of (language, file) pairs. */
  method LoadStoplistsFrom(configured: seq<(string, string)>, read: string -> Option<string>)
    returns (r: Result<seq<(string, seq<string>)>>)
    ensures r.Ok? ==> (|r.value| == |configured|
      && forall i :: 0 <= i < |r.value| ==> r.value[i] == (configured[i].0, LoadedStoplist(configured[i].1, read)))
    ensures r.ValueError? <==> exists i :: (0 <= i < |configured|
      && read(configured[i].1).None? && read(Basename(configured[i].1)).None?)
  {
    var loaded: seq<(string, seq<string>)> := [];
    var i := 0;
    while i < |configured|
      invariant 0 <= i <= |configured| && |loaded| == i
      invariant forall j :: 0 <= j < i ==> loaded[j] == (configured[j].0, LoadedStoplist(configured[j].1, read))
      invariant forall j :: 0 <= j < i ==> read(configured[j].1).Some? || read(Basename(configured[j].1)).Some?
    {
      var (lang, fn) := configured[i];
      var sl := LoadStoplist(fn, read);
      if sl.ValueError? {
        return ValueError(sl.path);
      }
      loaded := loaded + [(lang, sl.value)];
      i := i + 1;
    }
    r := Ok(loaded);
  }
}
