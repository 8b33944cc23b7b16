/** Stateless helpers: harvest metadata from WARC file names, base64
    (section 4 of RFC 4648), byte-order marks, word stripping and string
    conversions. */
module Utils {
  import opened Common
  import opened PyStr

  // ---------------------------------------------------------------------
  // WARC file name -> harvest info

  /** Index just after the last '/' of `path`, or 0. */
  function BaseStart(path: string): (i: nat)
    ensures i <= |path|
    ensures i > 0 ==> path[i - 1] == '/'
    ensures forall k :: i <= k < |path| ==> path[k] != '/'
  {
    if path == [] then 0
    else if path[|path| - 1] == '/' then |path|
    else BaseStart(path[..|path| - 1])
  }

  /** `os.path.basename(path)` */
  function Basename(path: string): (b: string)
    ensures '/' !in b
  {
    path[BaseStart(path)..]
  }

  /** Length of the run of ASCII digits that starts `s`. */
  function DigitsLen(s: string): (n: nat)
    ensures n <= |s|
    ensures forall k :: 0 <= k < n ==> IsAsciiDigit(s[k])
    ensures n == |s| || !IsAsciiDigit(s[n])
  {
    if s == [] || !IsAsciiDigit(s[0]) then 0 else 1 + DigitsLen(s[1..])
  }

  /** The pattern `(.+)\-(\d{8,})\-` matches at the start of `b` with its
      first group `b[..i]`. */
  predicate MatchesAt(b: string, i: int)
  {
    1 <= i < |b| && (forall k :: 0 <= k < i ==> b[k] != '\n') && b[i] == '-'
    && var n := DigitsLen(b[i + 1..]); n >= 8 && i + 1 + n < |b| && b[i + 1 + n] == '-'
  }

  /** The largest `k <= i` at which the pattern matches, or 0 when there is
      none (the greedy `.+` backtracks from the right). */
  function LastMatch(b: string, i: int): (k: int)
    ensures k == 0 || (MatchesAt(b, k) && k <= i)
    ensures forall m :: k < m <= i ==> !MatchesAt(b, m)
    decreases i
  {
    if i <= 0 then 0 else if MatchesAt(b, i) then i else LastMatch(b, i - 1)
  }

  datatype HarvestInfo = HarvestInfo(name: string, htype: string, date: string)

  /** The harvest info of a base name: the longest first group the pattern
      admits, the harvest type before its first '-', and the first eight
      digits after it. */
  function ParseBase(b: string): (r: Option<HarvestInfo>)
    ensures r.None? <==> forall i :: !MatchesAt(b, i)
    ensures r.Some? ==> exists i :: 0 < i && i + 9 <= |b| && LongestMatch(b, i) && r.value.name == b[..i] && r.value.date == b[i + 1..i + 9]
    ensures r.Some? ==> r.value.htype == SplitSep(r.value.name, '-')[0]
    ensures r.Some? ==> |r.value.date| == 8 && forall k :: 0 <= k < 8 ==> IsAsciiDigit(r.value.date[k])
  {
    var i := LastMatch(b, |b| - 1);
    if i == 0 then
      assert forall m :: !MatchesAt(b, m) by {
        forall m ensures !MatchesAt(b, m) {
          if 0 < m <= |b| - 1 { assert !MatchesAt(b, m); }
        }
      }
      None
    else
      var name := b[..i];
      assert DigitsLen(b[i + 1..]) >= 8;
      assert LongestMatch(b, i);
      Some(HarvestInfo(name, SplitSep(name, '-')[0], b[i + 1..i + 9]))
  }

  /** `i` ends the longest first group the pattern admits in `b`. */
  ghost predicate LongestMatch(b: string, i: int)
  {
    MatchesAt(b, i) && forall m :: MatchesAt(b, m) ==> m <= i
  }

  /** `warc_name_to_harvest_info`: None stands for the empty dict. */
  function WarcNameToHarvestInfo(warc: string): (r: Option<HarvestInfo>)
    ensures r == ParseBase(Basename(warc))
  {
    ParseBase(Basename(warc))
  }

  /** Only the base name of the path matters. */
  lemma HarvestInfoOfPath(dir: string, name: string)
    requires '/' !in name
    ensures WarcNameToHarvestInfo(dir + "/" + name) == WarcNameToHarvestInfo(name)
  {
    var p := dir + "/" + name;
    assert BaseStart(p) == |dir| + 1 by {
      assert p[|dir|] == '/';
    }
    assert Basename(p) == name;
    assert BaseStart(name) == 0;
    assert Basename(name) == name;
  }

  // ---------------------------------------------------------------------
  // base64, section 4 of RFC 4648

  /** The character of the base64 alphabet for a 6-bit value. */
  function EncodeSextet(v: int): (c: char)
    requires 0 <= v < 64
    ensures c != '='
  {
    if v < 26 then ('A' as int + v) as char
    else if v < 52 then ('a' as int + v - 26) as char
    else if v < 62 then ('0' as int + v - 52) as char
    else if v == 62 then '+'
    else '/'
  }

  /** The 6-bit value of an alphabet character, or -1. */
  function DecodeSextet(c: char): (v: int)
    ensures -1 <= v < 64
  {
    if 'A' <= c <= 'Z' then c as int - 'A' as int
    else if 'a' <= c <= 'z' then c as int - 'a' as int + 26
    else if '0' <= c <= '9' then c as int - '0' as int + 52
    else if c == '+' then 62
    else if c == '/' then 63
    else -1
  }

  predicate InAlphabet(c: char)
  {
    DecodeSextet(c) >= 0
  }

  lemma DecodeEncodeSextet(v: int)
    requires 0 <= v < 64
    ensures DecodeSextet(EncodeSextet(v)) == v
  {
  }

  /** The four characters of a full group of three bytes. */
  function EncodeGroup3(x: byte, y: byte, z: byte): (q: string)
    ensures |q| == 4 && forall k :: 0 <= k < 4 ==> InAlphabet(q[k])
  {
    [EncodeSextet(x / 4), EncodeSextet((x % 4) * 16 + y / 16),
     EncodeSextet((y % 16) * 4 + z / 64), EncodeSextet(z % 64)]
  }

  /** The four characters of a final group of two bytes. */
  function EncodeGroup2(x: byte, y: byte): (q: string)
    ensures |q| == 4 && q[3] == '=' && forall k :: 0 <= k < 3 ==> InAlphabet(q[k])
  {
    [EncodeSextet(x / 4), EncodeSextet((x % 4) * 16 + y / 16), EncodeSextet((y % 16) * 4), '=']
  }

  /** The four characters of a final group of one byte. */
  function EncodeGroup1(x: byte): (q: string)
    ensures |q| == 4 && q[2] == '=' && q[3] == '=' && forall k :: 0 <= k < 2 ==> InAlphabet(q[k])
  {
    [EncodeSextet(x / 4), EncodeSextet((x % 4) * 16), '=', '=']
  }

  /** `bytes_to_base64`: three bytes become four characters; a final group
      of one or two bytes is padded with '='. */
  function BytesToBase64(b: seq<byte>): (s: string)
    decreases |b|
  {
    if |b| == 0 then ""
    else if |b| == 1 then EncodeGroup1(b[0])
    else if |b| == 2 then EncodeGroup2(b[0], b[1])
    else EncodeGroup3(b[0], b[1], b[2]) + BytesToBase64(b[3..])
  }

  /** The encoding is four characters per started group of three bytes,
      all from the alphabet except for at most two '=' at the end. */
  lemma {:induction false} BytesToBase64Shape(b: seq<byte>)
    ensures |BytesToBase64(b)| == 4 * ((|b| + 2) / 3)
    ensures forall k :: 0 <= k < |BytesToBase64(b)| - 2 ==> InAlphabet(BytesToBase64(b)[k])
    ensures forall k :: 0 <= k < |BytesToBase64(b)| ==> InAlphabet(BytesToBase64(b)[k]) || BytesToBase64(b)[k] == '='
    decreases |b|
  {
    if |b| >= 3 {
      BytesToBase64Shape(b[3..]);
      var q, rest := EncodeGroup3(b[0], b[1], b[2]), BytesToBase64(b[3..]);
      assert BytesToBase64(b) == q + rest;
      assert (|b| + 2) / 3 == (|b[3..]| + 2) / 3 + 1;
      forall k | 0 <= k < |q + rest|
        ensures k < |q + rest| - 2 ==> InAlphabet((q + rest)[k])
        ensures InAlphabet((q + rest)[k]) || (q + rest)[k] == '='
      {
        if k < 4 {
          assert (q + rest)[k] == q[k];
        } else {
          assert (q + rest)[k] == rest[k - 4];
        }
      }
    }
  }

  /** Decodes one group of four characters, the last of which may carry
      padding. */
  function DecodeQuad(q: string, last: bool): (r: Option<seq<byte>>)
    requires |q| == 4
  {
    var c0, c1, c2, c3 := DecodeSextet(q[0]), DecodeSextet(q[1]), DecodeSextet(q[2]), DecodeSextet(q[3]);
    if c0 < 0 || c1 < 0 then None
    else if c2 >= 0 && c3 >= 0 then
      Some([c0 * 4 + c1 / 16, (c1 % 16) * 16 + c2 / 4, (c2 % 4) * 64 + c3])
    else if last && c2 >= 0 && q[3] == '=' then
      Some([c0 * 4 + c1 / 16, (c1 % 16) * 16 + c2 / 4])
    else if last && q[2] == '=' && q[3] == '=' then
      Some([c0 * 4 + c1 / 16])
    else None
  }

  lemma DecodeGroup3(x: byte, y: byte, z: byte, last: bool)
    ensures DecodeQuad(EncodeGroup3(x, y, z), last) == Some([x, y, z])
  {
    var c0, c1, c2, c3 := x / 4, (x % 4) * 16 + y / 16, (y % 16) * 4 + z / 64, z % 64;
    DecodeEncodeSextet(c0);
    DecodeEncodeSextet(c1);
    DecodeEncodeSextet(c2);
    DecodeEncodeSextet(c3);
  }

  lemma DecodeGroup2(x: byte, y: byte)
    ensures DecodeQuad(EncodeGroup2(x, y), true) == Some([x, y])
  {
    DecodeEncodeSextet(x / 4);
    DecodeEncodeSextet((x % 4) * 16 + y / 16);
    DecodeEncodeSextet((y % 16) * 4);
  }

  lemma DecodeGroup1(x: byte)
    ensures DecodeQuad(EncodeGroup1(x), true) == Some([x])
  {
    DecodeEncodeSextet(x / 4);
    DecodeEncodeSextet((x % 4) * 16);
  }

  /** `base64_to_bytes` on canonical input: groups of four alphabet
      characters with '=' padding only in the last group. None stands for
      the decoder's error. */
  function Base64ToBytes(s: string): (r: Option<seq<byte>>)
    decreases |s|
  {
    if s == [] then Some([])
    else if |s| < 4 then None
    else
      match DecodeQuad(s[..4], |s| == 4)
      case None => None
      case Some(head) =>
        match Base64ToBytes(s[4..])
        case None => None
        case Some(tail) => Some(head + tail)
  }

  /** Decoding proceeds group by group. */
  lemma Base64ToBytesCons(q: string, rest: string, head: seq<byte>, tail: seq<byte>)
    requires |q| == 4 && DecodeQuad(q, rest == []) == Some(head)
    requires Base64ToBytes(rest) == Some(tail)
    ensures Base64ToBytes(q + rest) == Some(head + tail)
  {
    var s := q + rest;
    assert s[..4] == q && s[4..] == rest;
  }

  lemma Group2RoundTrip(x: byte, y: byte)
    ensures Base64ToBytes(EncodeGroup2(x, y)) == Some([x, y])
  {
    DecodeGroup2(x, y);
    Base64ToBytesCons(EncodeGroup2(x, y), [], [x, y], []);
    assert EncodeGroup2(x, y) + [] == EncodeGroup2(x, y);
    assert [x, y] + [] == [x, y];
  }

  lemma Group1RoundTrip(x: byte)
    ensures Base64ToBytes(EncodeGroup1(x)) == Some([x])
  {
    DecodeGroup1(x);
    Base64ToBytesCons(EncodeGroup1(x), [], [x], []);
    assert EncodeGroup1(x) + [] == EncodeGroup1(x);
    assert [x] + [] == [x];
  }

  /** Decoding undoes encoding, for every byte string. */
  lemma {:induction false} Base64RoundTrip(b: seq<byte>)
    ensures Base64ToBytes(BytesToBase64(b)) == Some(b)
    decreases |b|
  {
    if |b| == 1 {
      Group1RoundTrip(b[0]);
      assert b == [b[0]];
    } else if |b| == 2 {
      Group2RoundTrip(b[0], b[1]);
      assert b == [b[0], b[1]];
    } else if |b| >= 3 {
      Base64RoundTrip(b[3..]);
      Group3RoundTrip(b);
    }
  }

  lemma SplitThree(b: seq<byte>)
    requires |b| >= 3
    ensures b == [b[0], b[1], b[2]] + b[3..]
  {
  }

  /** One full group in front of a round-tripping rest round-trips. */
  lemma Group3RoundTrip(b: seq<byte>)
    requires |b| >= 3 && Base64ToBytes(BytesToBase64(b[3..])) == Some(b[3..])
    ensures Base64ToBytes(BytesToBase64(b)) == Some(b)
  {
    var rest, tail := BytesToBase64(b[3..]), b[3..];
    var q, head := EncodeGroup3(b[0], b[1], b[2]), [b[0], b[1], b[2]];
    assert BytesToBase64(b) == q + rest;
    DecodeGroup3(b[0], b[1], b[2], rest == []);
    Base64ToBytesCons(q, rest, head, tail);
    SplitThree(b);
  }

  // ---------------------------------------------------------------------
  // Byte-order marks

  /** The byte-order marks and their encodings, in the order they are
      tried. */
  const BOMS: seq<(seq<byte>, string)> := [
    ([0xEF, 0xBB, 0xBF], "utf-8-sig"),
    ([0x00, 0x00, 0xFE, 0xFF], "utf-32-be"),
    ([0xFF, 0xFE, 0x00, 0x00], "utf-32-le"),
    ([0xFE, 0xFF], "utf-16-be"),
    ([0xFF, 0xFE], "utf-16-le")
  ]

  predicate IsPrefix<T(==)>(p: seq<T>, s: seq<T>)
  {
    |p| <= |s| && s[..|p|] == p
  }

  /** The encoding of the first mark in `boms` that prefixes `text`. */
  function FirstBom(boms: seq<(seq<byte>, string)>, text: seq<byte>): (r: Option<string>)
    ensures r.None? <==> forall i :: 0 <= i < |boms| ==> !IsPrefix(boms[i].0, text)
    ensures r.Some? ==> exists i :: (0 <= i < |boms| && IsPrefix(boms[i].0, text) && r.value == boms[i].1
      && forall j :: 0 <= j < i ==> !IsPrefix(boms[j].0, text))
  {
    if boms == [] then None
    else if IsPrefix(boms[0].0, text) then Some(boms[0].1)
    else
      var r := FirstBom(boms[1..], text);
      assert forall i :: 1 <= i < |boms| ==> boms[i] == boms[1..][i - 1];
      r
  }

  /** `get_charset_from_BOM` */
  function GetCharsetFromBom(text: seq<byte>): Option<string>
  {
    FirstBom(BOMS, text)
  }

  /** A UTF-32 little-endian mark also starts with the UTF-16 little-endian
      one; the longer mark is tried first and wins. */
  lemma Utf32LeBeforeUtf16Le(rest: seq<byte>)
    ensures GetCharsetFromBom([0xFF, 0xFE, 0x00, 0x00] + rest) == Some("utf-32-le")
    ensures IsPrefix(BOMS[4].0, [0xFF, 0xFE, 0x00, 0x00] + rest)
  {
    var t: seq<byte> := [0xFF, 0xFE, 0x00, 0x00] + rest;
    assert t[..3] != BOMS[0].0 by { assert t[0] != BOMS[0].0[0]; }
    assert t[..4] != BOMS[1].0 by { assert t[0] != BOMS[1].0[0]; }
    assert t[..4] == BOMS[2].0;
  }

  /** Text without a mark has no encoding. */
  lemma NoBomForPlainText(rest: seq<byte>)
    requires rest != [] && 0x20 <= rest[0] < 0x7F
    ensures GetCharsetFromBom(rest) == None
  {
  }

  // ---------------------------------------------------------------------
  // Word stripping

  /** Length of the leading run of characters that are not alphanumeric. */
  function LeadLen(s: string): (n: nat)
    ensures n <= |s|
    ensures forall k :: 0 <= k < n ==> !IsAlnum(s[k])
    ensures n == |s| || IsAlnum(s[n])
  {
    if s == [] || IsAlnum(s[0]) then 0 else 1 + LeadLen(s[1..])
  }

  /** Index where the trailing run of non-alphanumeric characters starts. */
  function TrailStart(s: string): (n: nat)
    ensures n <= |s|
    ensures forall k :: n <= k < |s| ==> !IsAlnum(s[k])
    ensures n == 0 || IsAlnum(s[n - 1])
  {
    if s == [] || IsAlnum(s[|s| - 1]) then |s| else TrailStart(s[..|s| - 1])
  }

  /** `strip_non_word_chars`: removes the leading and the trailing run of
      characters outside `\w` or equal to '_'; the interior is kept. */
  function StripNonWordChars(s: string): (r: string)
    ensures r == [] || (IsAlnum(r[0]) && IsAlnum(r[|r| - 1]))
    ensures (forall k :: 0 <= k < |s| ==> !IsAlnum(s[k])) ==> r == []
    ensures r != [] ==> exists i, j :: (0 <= i < j <= |s| && r == s[i..j]
      && (forall k :: 0 <= k < i ==> !IsAlnum(s[k]))
      && (forall k :: j <= k < |s| ==> !IsAlnum(s[k])))
  {
    var i := LeadLen(s);
    if i == |s| then []
    else
      var j := TrailStart(s);
      assert IsAlnum(s[i]);
      s[i..j]
  }

  /** Stripping twice strips nothing more. */
  lemma StripNonWordCharsIdempotent(s: string)
    ensures StripNonWordChars(StripNonWordChars(s)) == StripNonWordChars(s)
  {
    var r := StripNonWordChars(s);
    if r != [] {
      assert LeadLen(r) == 0;
      assert TrailStart(r) == |r|;
      assert r[0..|r|] == r;
    }
  }

  // ---------------------------------------------------------------------
  // String conversions

  /** `ensure_str`: text is returned as it is, bytes are decoded with
      `decodeUtf8` (UTF-8 with replacement characters). */
  function EnsureStr(v: Value, decodeUtf8: seq<byte> -> string): (r: string)
    requires v.Str? || v.Bytes?
  {
    if v.Bytes? then decodeUtf8(v.bs) else v.s
  }

  lemma EnsureStrKeepsText(s: string, decodeUtf8: seq<byte> -> string)
    ensures EnsureStr(Str(s), decodeUtf8) == s
    ensures EnsureStr(Str(EnsureStr(Str(s), decodeUtf8)), decodeUtf8) == EnsureStr(Str(s), decodeUtf8)
  {
  }

  /** The UTF-8 encoding of one Unicode scalar value. */
  function Utf8Char(c: char): (b: seq<byte>)
    ensures 1 <= |b| <= 4
    ensures (c as int < 0x80) <==> |b| == 1
    ensures |b| == 1 ==> b[0] == c as int
  {
    var n := c as int;
    if n < 0x80 then [n]
    else if n < 0x800 then [0xC0 + n / 64, 0x80 + n % 64]
    else if n < 0x10000 then [0xE0 + n / 4096, 0x80 + (n / 64) % 64, 0x80 + n % 64]
    else [0xF0 + n / 262144, 0x80 + (n / 4096) % 64, 0x80 + (n / 64) % 64, 0x80 + n % 64]
  }

  /** `s.encode("utf-8")` */
  function Utf8Encode(s: string): (b: seq<byte>)
    ensures |s| <= |b| <= 4 * |s|
  {
    if s == [] then [] else Utf8Char(s[0]) + Utf8Encode(s[1..])
  }

  predicate IsAscii(s: string)
  {
    forall k :: 0 <= k < |s| ==> s[k] as int < 0x80
  }

  /** ASCII text encodes to its own code points, one byte each. */
  lemma {:induction false} Utf8EncodeAscii(s: string)
    requires IsAscii(s)
    ensures |Utf8Encode(s)| == |s|
    ensures forall k :: 0 <= k < |s| ==> Utf8Encode(s)[k] == s[k] as int
  {
    if s != [] {
      Utf8EncodeAscii(s[1..]);
    }
  }

  /** Encoding distributes over concatenation. */
  lemma {:induction false} Utf8EncodeAppend(a: string, b: string)
    ensures Utf8Encode(a + b) == Utf8Encode(a) + Utf8Encode(b)
  {
    if a == [] {
      assert a + b == b;
    } else {
      assert (a + b)[0] == a[0] && (a + b)[1..] == a[1..] + b;
      Utf8EncodeAppend(a[1..], b);
      calc {
        Utf8Encode(a + b);
        Utf8Char(a[0]) + Utf8Encode(a[1..] + b);
        Utf8Char(a[0]) + (Utf8Encode(a[1..]) + Utf8Encode(b));
        (Utf8Char(a[0]) + Utf8Encode(a[1..])) + Utf8Encode(b);
      }
    }
  }

  // ---------------------------------------------------------------------
  // Worked examples

  /** `strip_non_word_chars` keeps inner punctuation. */
  lemma StripNonWordCharsExamples()
    ensures StripNonWordChars(".-%text!>_") == "text"
    ensures StripNonWordChars("te_*xt*") == "te_*xt"
  {
    var s := ".-%text!>_";
    assert LeadLen(s[3..]) == 0;
    assert LeadLen(s) == 3;
    assert TrailStart(s[..7]) == 7;
    assert TrailStart(s) == 7;
    var t := "te_*xt*";
    assert LeadLen(t) == 0;
    assert TrailStart(t[..6]) == 6;
    assert TrailStart(t) == 6;
  }
}
