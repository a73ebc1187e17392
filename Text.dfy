/** The functions of Go's `strings` package that the crawler uses:
    `TrimPrefix`, `TrimSuffix` and `TrimSpace`, on byte strings. */
module Text {
  import opened Bytes

  /** `strings.TrimPrefix`: drop `p` from the front of `s` if it is there. */
  function TrimPrefix(s: Str, p: Str): (r: Str)
    ensures r == s || p + r == s
    ensures r == s <==> !(|p| <= |s| && s[..|p|] == p) || p == []
  {
    if |p| <= |s| && s[..|p|] == p then s[|p|..] else s
  }

  /** `strings.TrimSuffix`: drop `p` from the end of `s` if it is there. */
  function TrimSuffix(s: Str, p: Str): (r: Str)
    ensures r == s || r + p == s
    ensures r == s <==> !(|p| <= |s| && s[|s| - |p|..] == p) || p == []
  {
    if |p| <= |s| && s[|s| - |p|..] == p then s[..|s| - |p|] else s
  }

  /** A prefix put in front is trimmed off again. */
  lemma TrimPrefixOf(p: Str, t: Str)
    ensures TrimPrefix(p + t, p) == t
  {
    assert (p + t)[..|p|] == p;
  }

  /** A suffix put behind is trimmed off again. */
  lemma TrimSuffixOf(t: Str, p: Str)
    ensures TrimSuffix(t + p, p) == t
  {
    assert (t + p)[|t + p| - |p|..] == p;
  }

  /** The runes for which Go's `unicode.IsSpace` holds: the Latin-1 spaces
      and the other code points with the White_Space property. */
  const WhiteSpace: seq<char> := [
    '\t', '\n', '\U{000B}', '\U{000C}', '\r', ' ', '\U{0085}', '\U{00A0}',
    '\U{1680}', '\U{2000}', '\U{2001}', '\U{2002}', '\U{2003}', '\U{2004}',
    '\U{2005}', '\U{2006}', '\U{2007}', '\U{2008}', '\U{2009}', '\U{200A}',
    '\U{2028}', '\U{2029}', '\U{202F}', '\U{205F}', '\U{3000}']

  /** A one-byte white-space rune: `\t`, `\n`, `\v`, `\f`, `\r` or ` `. */
  predicate IsSpace1(a: byte) {
    a == 0x20 || 0x09 <= a <= 0x0D
  }

  /** A two-byte white-space rune: U+0085 or U+00A0. */
  predicate IsSpace2(a: byte, b: byte) {
    a == 0xC2 && (b == 0x85 || b == 0xA0)
  }

  /** A three-byte white-space rune: U+1680, U+2000 to U+200A, U+2028,
      U+2029, U+202F, U+205F or U+3000. */
  predicate IsSpace3(a: byte, b: byte, c: byte) {
    || (a == 0xE1 && b == 0x9A && c == 0x80)
    || (a == 0xE2 && b == 0x80 && (0x80 <= c <= 0x8A || c == 0xA8 || c == 0xA9 || c == 0xAF))
    || (a == 0xE2 && b == 0x81 && c == 0x9F)
    || (a == 0xE3 && b == 0x80 && c == 0x80)
  }

  /** `r` is the UTF-8 encoding of one white-space rune. */
  predicate IsSpaceEncoding(r: Str) {
    || (|r| == 1 && IsSpace1(r[0]))
    || (|r| == 2 && IsSpace2(r[0], r[1]))
    || (|r| == 3 && IsSpace3(r[0], r[1], r[2]))
  }

  /** Every rune of WhiteSpace is recognised by its encoding. */
  lemma WhiteSpaceEncoded(i: nat)
    requires i < |WhiteSpace|
    ensures IsSpaceEncoding(EncodeRune(WhiteSpace[i]))
  {
    if i < 6 {
      AsciiSpaceEncoded(i);
    } else if 9 <= i <= 19 {
      PunctuationSpace(i - 9);
    } else {
      OtherSpaceEncoded(i);
    }
  }

  /** The six ASCII spaces. */
  lemma AsciiSpaceEncoded(i: nat)
    requires i < 6
    ensures IsSpaceEncoding(EncodeRune(WhiteSpace[i]))
  {
  }

  /** U+0085, U+00A0, U+1680 and U+2028 onwards. */
  lemma OtherSpaceEncoded(i: nat)
    requires 6 <= i <= 8 || 20 <= i < |WhiteSpace|
    ensures IsSpaceEncoding(EncodeRune(WhiteSpace[i]))
  {
  }

  /** U+2000 to U+200A, the spaces of the General Punctuation block. */
  lemma PunctuationSpace(k: nat)
    requires k <= 10
    ensures WhiteSpace[9 + k] as int == 0x2000 + k
    ensures EncodeRune(WhiteSpace[9 + k]) == [0xE2, 0x80, (0x80 + k) as byte]
  {
    if k < 5 {
      assert k == 0 || k == 1 || k == 2 || k == 3 || k == 4;
    } else {
      assert k == 5 || k == 6 || k == 7 || k == 8 || k == 9 || k == 10;
    }
  }

  /** Every three-byte encoding recognised as white space is that of a rune
      of WhiteSpace. */
  lemma Space3IsWhiteSpace(r: Str) returns (i: nat)
    requires |r| == 3 && IsSpace3(r[0], r[1], r[2])
    ensures i < |WhiteSpace| && r == EncodeRune(WhiteSpace[i])
  {
    if r[0] == 0xE1 {
      i := 8;
    } else if r[0] == 0xE2 && r[1] == 0x80 && r[2] <= 0x8A {
      var k := (r[2] - 0x80) as nat;
      PunctuationSpace(k);
      i := 9 + k;
    } else if r[0] == 0xE2 && r[1] == 0x80 {
      i := if r[2] == 0xA8 then 20 else if r[2] == 0xA9 then 21 else 22;
    } else if r[0] == 0xE2 {
      i := 23;
    } else {
      i := 24;
    }
  }

  /** Every encoding recognised as white space is that of a rune of
      WhiteSpace. */
  lemma SpaceEncodingIsWhiteSpace(r: Str) returns (i: nat)
    requires IsSpaceEncoding(r)
    ensures i < |WhiteSpace| && r == EncodeRune(WhiteSpace[i])
  {
    if |r| == 1 {
      i := if r[0] == 0x20 then 5 else (r[0] - 0x09) as nat;
    } else if |r| == 2 {
      i := if r[1] == 0x85 then 6 else 7;
    } else {
      i := Space3IsWhiteSpace(r);
    }
  }

  /** The length of the white-space rune `s` starts with, or 0. Because
      UTF-8 lets a decoder recognise a whole rune from its first bytes, this
      is what `utf8.DecodeRuneInString` followed by `unicode.IsSpace` sees. */
  function PrefixSpace(s: Str): (n: nat)
    ensures n <= 3 && n <= |s|
    ensures n > 0 ==> IsSpaceEncoding(s[..n])
  {
    if |s| >= 1 && IsSpace1(s[0]) then 1
    else if |s| >= 2 && IsSpace2(s[0], s[1]) then 2
    else if |s| >= 3 && IsSpace3(s[0], s[1], s[2]) then 3
    else 0
  }

  /** The length of the white-space rune `s` ends with, or 0 (what
      `utf8.DecodeLastRuneInString` followed by `unicode.IsSpace` sees). */
  function SuffixSpace(s: Str): (n: nat)
    ensures n <= 3 && n <= |s|
    ensures n > 0 ==> IsSpaceEncoding(s[|s| - n..])
  {
    var k := |s|;
    if k >= 1 && IsSpace1(s[k - 1]) then 1
    else if k >= 2 && IsSpace2(s[k - 2], s[k - 1]) then 2
    else if k >= 3 && IsSpace3(s[k - 3], s[k - 2], s[k - 1]) then 3
    else 0
  }

  predicate StartsWithSpace(s: Str) {
    PrefixSpace(s) > 0
  }

  predicate EndsWithSpace(s: Str) {
    SuffixSpace(s) > 0
  }

  /** `s` is a run of white-space runes, read from the front. */
  predicate LeadingSpaces(s: Str)
    decreases |s|
  {
    s == [] || (StartsWithSpace(s) && LeadingSpaces(s[PrefixSpace(s)..]))
  }

  /** `s` is a run of white-space runes, read from the back. */
  predicate TrailingSpaces(s: Str)
    decreases |s|
  {
    s == [] || (EndsWithSpace(s) && TrailingSpaces(s[..|s| - SuffixSpace(s)]))
  }

  /** Which rune a string starts with depends only on its first bytes. */
  lemma PrefixSpaceOfPrefix(s: Str, k: nat)
    requires PrefixSpace(s) <= k <= |s|
    ensures PrefixSpace(s[..k]) == PrefixSpace(s)
  {
  }

  /** Which rune a string ends with depends only on its last bytes. */
  lemma SuffixSpaceOfSuffix(s: Str, j: nat)
    requires j <= |s| - SuffixSpace(s)
    ensures SuffixSpace(s[j..]) == SuffixSpace(s)
  {
  }

  /** The step of LeftSpaceCount: the rune `s` starts with, then a run of
      `m` bytes of white space that ends where the rest begins. */
  lemma LeftStep(s: Str, m: nat)
    requires StartsWithSpace(s) && m <= |s| - PrefixSpace(s)
    requires LeadingSpaces(s[PrefixSpace(s)..][..m]) && !StartsWithSpace(s[PrefixSpace(s)..][m..])
    ensures LeadingSpaces(s[..PrefixSpace(s) + m]) && !StartsWithSpace(s[PrefixSpace(s) + m..])
  {
    var p := PrefixSpace(s);
    LeadingStep(s, p + m);
    DropDrop(s, p, m);
  }

  /** The step of RightSpaceCount, read from the back. */
  lemma RightStep(s: Str, m: nat)
    requires EndsWithSpace(s) && m <= |s| - SuffixSpace(s)
    requires var rest := s[..|s| - SuffixSpace(s)];
      TrailingSpaces(rest[|rest| - m..]) && !EndsWithSpace(rest[..|rest| - m])
    ensures TrailingSpaces(s[|s| - (SuffixSpace(s) + m)..])
    ensures !EndsWithSpace(s[..|s| - (SuffixSpace(s) + m)])
  {
    var p := SuffixSpace(s);
    TrailingStep(s, |s| - p - m);
    TakeTake(s, |s| - p, |s| - p - m);
  }

  /** A run read from the front grows by the rune `s` starts with. */
  lemma LeadingStep(s: Str, k: nat)
    requires StartsWithSpace(s) && PrefixSpace(s) <= k <= |s|
    requires LeadingSpaces(s[PrefixSpace(s)..][..k - PrefixSpace(s)])
    ensures LeadingSpaces(s[..k])
  {
    var p := PrefixSpace(s);
    var t := s[..k];
    PrefixSpaceOfPrefix(s, k);
    Slices(s, p, k);
  }

  /** A run read from the back grows by the rune `s` ends with. */
  lemma TrailingStep(s: Str, j: nat)
    requires EndsWithSpace(s) && j <= |s| - SuffixSpace(s)
    requires TrailingSpaces(s[..|s| - SuffixSpace(s)][j..])
    ensures TrailingSpaces(s[j..])
  {
    var p := SuffixSpace(s);
    var t := s[j..];
    SuffixSpaceOfSuffix(s, j);
    Slices(s, j, |s| - p);
  }

  /** How many bytes `strings.TrimLeftFunc(s, unicode.IsSpace)` drops. */
  function LeftSpaceCount(s: Str): (n: nat)
    ensures n <= |s|
    ensures LeadingSpaces(s[..n]) && !StartsWithSpace(s[n..])
    decreases |s|
  {
    var p := PrefixSpace(s);
    if p == 0 then
      assert s[..0] == [] && s[0..] == s;
      0
    else
      var m := LeftSpaceCount(s[p..]);
      LeftStep(s, m);
      p + m
  }

  /** How many bytes `strings.TrimRightFunc(s, unicode.IsSpace)` drops. */
  function RightSpaceCount(s: Str): (n: nat)
    ensures n <= |s|
    ensures TrailingSpaces(s[|s| - n..]) && !EndsWithSpace(s[..|s| - n])
    decreases |s|
  {
    var p := SuffixSpace(s);
    if p == 0 then
      assert s[|s|..] == [] && s[..|s|] == s;
      0
    else
      var m := RightSpaceCount(s[..|s| - p]);
      RightStep(s, m);
      p + m
  }

  /** What the two counts of TrimSpace say about the three parts of `s`. */
  lemma TrimSpaceParts(s: Str, i: nat, k: nat)
    requires i <= |s| && !StartsWithSpace(s[i..])
    requires k <= |s| - i
    requires TrailingSpaces(s[i..][|s| - i - k..]) && !EndsWithSpace(s[i..][..|s| - i - k])
    ensures !StartsWithSpace(s[i..|s| - k]) && !EndsWithSpace(s[i..|s| - k])
    ensures TrailingSpaces(s[|s| - k..])
  {
    PrefixSpaceOfPrefix(s[i..], |s| - i - k);
    Slices(s, i, |s| - k);
    DropDrop(s, i, |s| - i - k);
  }

  /** `strings.TrimSpace`: `s` with the white-space runes at either end
      removed, and only those. */
  function TrimSpace(s: Str): (r: Str)
    ensures !StartsWithSpace(r) && !EndsWithSpace(r)
    ensures exists i, j | 0 <= i <= j <= |s| ::
      r == s[i..j] && LeadingSpaces(s[..i]) && TrailingSpaces(s[j..])
  {
    var i := LeftSpaceCount(s);
    var k := RightSpaceCount(s[i..]);
    TrimSpaceParts(s, i, k);
    s[i..|s| - k]
  }

  /** A string with no white space at either end is its own TrimSpace. */
  lemma TrimSpaceOfTrimmed(s: Str)
    requires !StartsWithSpace(s) && !EndsWithSpace(s)
    ensures TrimSpace(s) == s
  {
    assert LeftSpaceCount(s) == 0;
    assert s[0..] == s;
    assert RightSpaceCount(s) == 0;
  }

  /** A string is its own TrimSpace exactly when it has no white space at
      either end; so TrimSpace is idempotent. */
  lemma TrimSpaceFixedPoint(s: Str)
    ensures TrimSpace(s) == s <==> !StartsWithSpace(s) && !EndsWithSpace(s)
    ensures TrimSpace(TrimSpace(s)) == TrimSpace(s)
  {
    if !StartsWithSpace(s) && !EndsWithSpace(s) {
      TrimSpaceOfTrimmed(s);
    }
    TrimSpaceOfTrimmed(TrimSpace(s));
  }
}
