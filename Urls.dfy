/** The addresses the crawler requests: the search API for a JLPT band,
    for a hiragana within N1, for a collocation, and a word's detail page. */
module Urls {
  import opened Bytes
  import opened Decimal

  const Amp: byte := 0x26
  const LetterN: byte := 0x6E

  /** The search endpoint, up to the keyword. */
  const ApiSearch: Str := Ascii("http://jisho.org/api/v1/search/words?keyword=")

  /** `urlAPI`: the page of JLPT band `jlpt`, the keyword being `#jlpt-n<jlpt>`. */
  function UrlAPI(jlpt: int, page: int): Str {
    ApiSearch + Ascii("%23jlpt-n") + Format(jlpt) + Ascii("&page=") + Format(page)
  }

  /** `urlAPIN1`: the page of N1 words matching `hiragana`. */
  function UrlAPIN1(hiragana: Str, page: int): Str {
    ApiSearch + hiragana + Ascii("%20%23jlpt-n1&page=") + Format(page)
  }

  /** `urlAPICollocation`: the search for a collocation's literal text. */
  function UrlAPICollocation(collocation: Str): Str {
    ApiSearch + collocation
  }

  /** `urlWordPage`: the detail page of a written form or reading. */
  function UrlWordPage(word: Str): Str {
    Ascii("http://jisho.org/word/") + word
  }

  /** A printed number contains neither `&` nor `n`. */
  lemma FormatHasNoAmp(n: int)
    ensures Amp !in Format(n) && LetterN !in Format(n)
  {
    var f := Format(n);
    if n >= 0 {
      assert forall i | 0 <= i < |f| :: IsDigit(f[i]);
    } else {
      assert forall i | 1 <= i < |f| :: f[1..][i - 1] == f[i];
    }
  }

  /** Indexing into the second part of a concatenation. */
  lemma ElementAt(x: Str, y: Str, k: int)
    ensures 0 <= k < |y| ==> (x + y)[|x| + k] == y[k] && y[k] in y
  {
  }

  /** A string split at its last `&` is split the same way however it was
      built. */
  lemma SplitAtLastAmp(a1: Str, b1: Str, a2: Str, b2: Str)
    requires a1 + [Amp] + b1 == a2 + [Amp] + b2
    requires Amp !in b1 && Amp !in b2
    ensures a1 == a2 && b1 == b2
  {
    var s := a1 + [Amp] + b1;
    if |b1| < |b2| {
      ElementAt(a1, [Amp] + b1, 0);
      ElementAt(a2 + [Amp], b2, |a1| - |a2| - 1);
    } else if |b1| > |b2| {
      ElementAt(a2, [Amp] + b2, 0);
      ElementAt(a1 + [Amp], b1, |a2| - |a1| - 1);
    } else {
      assert a1 == s[..|a1|] && a2 == s[..|a2|];
      assert b1 == s[|a1| + 1..] && b2 == s[|a2| + 1..];
    }
  }

  /** The page tail regrouped around its `&`. */
  lemma PageTail(x: Str, f: Str)
    ensures x + Ascii("&page=") + f == x + [Amp] + (Ascii("page=") + f)
  {
    assert Ascii("&page=") == [Amp] + Ascii("page=");
    ConcatAssoc(x, [Amp], Ascii("page="));
    ConcatAssoc(x + [Amp], Ascii("page="), f);
  }

  /** Every search address ends with `&page=<page>`; what comes before that
      tail, and the page, can be read back from the address. */
  lemma SplitPageTail(x1: Str, p1: int, x2: Str, p2: int)
    requires x1 + Ascii("&page=") + Format(p1) == x2 + Ascii("&page=") + Format(p2)
    ensures x1 == x2 && p1 == p2
  {
    FormatHasNoAmp(p1);
    FormatHasNoAmp(p2);
    var t := Ascii("page=");
    PageTail(x1, Format(p1));
    PageTail(x2, Format(p2));
    SplitAtLastAmp(x1, t + Format(p1), x2, t + Format(p2));
    DropPrefix(t, Format(p1));
    DropPrefix(t, Format(p2));
    FormatInjective(p1, p2);
  }

  /** The part of an N1 address after the hiragana. */
  const N1Tail: Str := Ascii("%20%23jlpt-n1")

  /** A hiragana address split into its parts. */
  lemma UrlAPIN1Shape(h: Str, p: int)
    ensures UrlAPIN1(h, p) == ApiSearch + h + N1Tail + Ascii("&page=") + Format(p)
  {
    assert Ascii("%20%23jlpt-n1&page=") == N1Tail + Ascii("&page=");
  }

  /** Distinct bands or pages are distinct addresses. */
  lemma UrlAPIInjective(j1: int, p1: int, j2: int, p2: int)
    requires UrlAPI(j1, p1) == UrlAPI(j2, p2)
    ensures j1 == j2 && p1 == p2
  {
    var pre := ApiSearch + Ascii("%23jlpt-n");
    SplitPageTail(pre + Format(j1), p1, pre + Format(j2), p2);
    assert Format(j1) == (pre + Format(j1))[|pre|..];
    assert Format(j2) == (pre + Format(j2))[|pre|..];
    FormatInjective(j1, j2);
  }

  /** Distinct hiragana or pages are distinct addresses. */
  lemma UrlAPIN1Injective(h1: Str, p1: int, h2: Str, p2: int)
    requires UrlAPIN1(h1, p1) == UrlAPIN1(h2, p2)
    ensures h1 == h2 && p1 == p2
  {
    UrlAPIN1Shape(h1, p1);
    UrlAPIN1Shape(h2, p2);
    var x1 := ApiSearch + h1 + N1Tail;
    var x2 := ApiSearch + h2 + N1Tail;
    SplitPageTail(x1, p1, x2, p2);
    assert h1 == x1[|ApiSearch|..|ApiSearch| + |h1|];
    assert h2 == x2[|ApiSearch|..|ApiSearch| + |h2|];
  }

  /** A band address is never an N1 address, whatever the hiragana. */
  lemma UrlAPIDisjoint(j: int, p: int, h: Str, q: int)
    ensures UrlAPI(j, p) != UrlAPIN1(h, q)
  {
    if UrlAPI(j, p) == UrlAPIN1(h, q) {
      UrlAPIN1Shape(h, q);
      var x1 := ApiSearch + Ascii("%23jlpt-n") + Format(j);
      var x2 := ApiSearch + h + N1Tail;
      SplitPageTail(x1, p, x2, q);
      FormatHasNoAmp(j);
      N1TailShape();
      SecondToLast(ApiSearch + Ascii("%23jlpt-n"), Format(j));
      SecondToLast(ApiSearch + h, N1Tail);
    }
  }

  /** Where the `n` of `jlpt-n1` sits in the hiragana tail. */
  lemma N1TailShape()
    ensures |N1Tail| == 13 && N1Tail[11] == LetterN && |Ascii("%23jlpt-n")| == 9
  {
  }

  /** The second-to-last element of a concatenation. */
  lemma SecondToLast(x: Str, y: Str)
    ensures |y| >= 2 ==> (x + y)[|x + y| - 2] == y[|y| - 2] && y[|y| - 2] in y
  {
  }

  /** Distinct identifiers have distinct detail pages. */
  lemma UrlWordPageInjective(w1: Str, w2: Str)
    requires UrlWordPage(w1) == UrlWordPage(w2)
    ensures w1 == w2
  {
    var pre := Ascii("http://jisho.org/word/");
    assert w1 == UrlWordPage(w1)[|pre|..] && w2 == UrlWordPage(w2)[|pre|..];
  }
}
