/** The fixed set of search requests the crawl starts from: every page of
    every JLPT band in `limits`, and every page up to `limitN1` of the N1
    words starting with each hiragana. */
module Queries {
  import opened Bytes
  import opened Urls

  /** One search request: a JLPT band and a page, or a hiragana (within
      N1) and a page. */
  datatype Query = Band(jlpt: int, page: int) | Kana(hiragana: Str, page: int)

  /** Pages fetched per band; index `i` is band N(5 - i). The fifth band is
      commented out in the program, so N1 is reached only by hiragana. */
  const Limits: seq<int> := [33, 29, 89, 91]

  /** Pages fetched per hiragana. */
  const LimitN1: int := 15

  /** The hiragana of `hiraganas`, in the program's order, written as three
      runs of characters so that each stays short enough to reason about. */
  const HiraganaRunes1: string := "あいうえおかがきぎくぐけげこごさざしじすずせぜそ"
  const HiraganaRunes2: string := "ぞただちぢつづてでとどなにぬねのはばぱひびぴふぶ"
  const HiraganaRunes3: string := "ぷへべぺほぼぽまみむめもやゆよらりるれろわをん"
  const HiraganaRunes: string := HiraganaRunes1 + HiraganaRunes2 + HiraganaRunes3

  /** `hiraganas`, as the UTF-8 bytes the program holds: one character each. */
  const Hiraganas: seq<Str> :=
    seq(|HiraganaRunes|, i requires 0 <= i < |HiraganaRunes| => EncodeRune(HiraganaRunes[i]))

  /** How many times `for page := 1; page <= n; page++` runs. */
  function PageCount(n: int): nat {
    if n > 0 then n else 0
  }

  function SumPages(limits: seq<int>): nat {
    if limits == [] then 0 else SumPages(limits[..|limits| - 1]) + PageCount(limits[|limits| - 1])
  }

  /** The queries of band `jlpt`, pages 1 to `n`. */
  function BandPages(jlpt: int, n: nat): seq<Query> {
    seq(n, k => Band(jlpt, k + 1))
  }

  /** The queries of one hiragana, pages 1 to `n`. */
  function KanaPages(h: Str, n: nat): seq<Query> {
    seq(n, k => Kana(h, k + 1))
  }

  /** The band queries in the order the first loop issues them. */
  function BandQueries(limits: seq<int>): seq<Query> {
    if limits == [] then []
    else
      var i := |limits| - 1;
      BandQueries(limits[..i]) + BandPages(5 - i, PageCount(limits[i]))
  }

  /** The hiragana queries in the order the second loop issues them. */
  function KanaQueries(hiraganas: seq<Str>, limitN1: int): seq<Query> {
    if hiraganas == [] then []
    else
      var i := |hiraganas| - 1;
      KanaQueries(hiraganas[..i], limitN1) + KanaPages(hiraganas[i], PageCount(limitN1))
  }

  /** Whether `q` is one of the requests of the enumeration. */
  predicate Enumerated(q: Query, limits: seq<int>, limitN1: int, hiraganas: seq<Str>) {
    match q
    case Band(jlpt, page) => 0 <= 5 - jlpt < |limits| && 1 <= page <= limits[5 - jlpt]
    case Kana(h, page) => h in hiraganas && 1 <= page <= limitN1
  }

  predicate Distinct(qs: seq<Query>) {
    forall a, b | 0 <= a < b < |qs| :: qs[a] != qs[b]
  }

  /** The two loops of `main` that start one fetch per query, collecting
      the queries in the order they are started. */
  method Enumerate(limits: seq<int>, limitN1: int, hiraganas: seq<Str>) returns (qs: seq<Query>)
    ensures qs == BandQueries(limits) + KanaQueries(hiraganas, limitN1)
    ensures |qs| == SumPages(limits) + |hiraganas| * PageCount(limitN1)
  {
    qs := [];
    for i := 0 to |limits|
      invariant qs == BandQueries(limits[..i])
    {
      var page := 1;
      while page <= limits[i]
        invariant 1 <= page <= PageCount(limits[i]) + 1
        invariant qs == BandQueries(limits[..i]) + BandPages(5 - i, page - 1)
      {
        qs := qs + [Band(5 - i, page)];
        page := page + 1;
      }
      assert limits[..i + 1][..i] == limits[..i];
    }
    assert limits[..|limits|] == limits;
    var bands := qs;
    for i := 0 to |hiraganas|
      invariant qs == bands + KanaQueries(hiraganas[..i], limitN1)
    {
      var page := 1;
      while page <= limitN1
        invariant 1 <= page <= PageCount(limitN1) + 1
        invariant qs == bands + KanaQueries(hiraganas[..i], limitN1) + KanaPages(hiraganas[i], page - 1)
      {
        qs := qs + [Kana(hiraganas[i], page)];
        page := page + 1;
      }
      assert hiraganas[..i + 1][..i] == hiraganas[..i];
    }
    assert hiraganas[..|hiraganas|] == hiraganas;
    BandQueriesCount(limits);
    KanaQueriesCount(hiraganas, limitN1);
  }

  /** The band loop issues as many queries as its limits sum to. */
  lemma {:induction false} BandQueriesCount(limits: seq<int>)
    ensures |BandQueries(limits)| == SumPages(limits)
  {
    if limits != [] {
      BandQueriesCount(limits[..|limits| - 1]);
    }
  }

  /** The hiragana loop issues the same number of queries per hiragana. */
  lemma {:induction false} KanaQueriesCount(hiraganas: seq<Str>, limitN1: int)
    ensures |KanaQueries(hiraganas, limitN1)| == |hiraganas| * PageCount(limitN1)
  {
    if hiraganas != [] {
      var n := |hiraganas| - 1;
      KanaQueriesCount(hiraganas[..n], limitN1);
      var c := PageCount(limitN1);
      assert (n + 1) * c == n * c + c;
    }
  }

  /** Band index `i` of `limits` is requested as JLPT level 5 - i, for
      exactly the pages 1 to `limits[i]`. */
  lemma {:induction false} BandQueriesMembers(limits: seq<int>, q: Query)
    ensures q in BandQueries(limits) <==> q.Band? && Enumerated(q, limits, 0, [])
  {
    if limits != [] {
      var i := |limits| - 1;
      BandQueriesMembers(limits[..i], q);
      assert q in BandPages(5 - i, PageCount(limits[i])) <==> q == Band(5 - i, q.page) && 1 <= q.page <= limits[i] by {
        if q in BandPages(5 - i, PageCount(limits[i])) {
          var k :| 0 <= k < PageCount(limits[i]) && BandPages(5 - i, PageCount(limits[i]))[k] == q;
        }
        if q == Band(5 - i, q.page) && 1 <= q.page <= limits[i] {
          assert BandPages(5 - i, PageCount(limits[i]))[q.page - 1] == q;
        }
      }
    }
  }

  /** Each hiragana is requested for exactly the pages 1 to `limitN1`. */
  lemma {:induction false} KanaQueriesMembers(hiraganas: seq<Str>, limitN1: int, q: Query)
    ensures q in KanaQueries(hiraganas, limitN1) <==> q.Kana? && Enumerated(q, [], limitN1, hiraganas)
  {
    if hiraganas != [] {
      var i := |hiraganas| - 1;
      var h := hiraganas[i];
      KanaQueriesMembers(hiraganas[..i], limitN1, q);
      assert q in KanaPages(h, PageCount(limitN1)) <==> q == Kana(h, q.page) && 1 <= q.page <= limitN1 by {
        if q in KanaPages(h, PageCount(limitN1)) {
          var k :| 0 <= k < PageCount(limitN1) && KanaPages(h, PageCount(limitN1))[k] == q;
        }
        if q == Kana(h, q.page) && 1 <= q.page <= limitN1 {
          assert KanaPages(h, PageCount(limitN1))[q.page - 1] == q;
        }
      }
      assert hiraganas == hiraganas[..i] + [h];
    }
  }

  /** The enumeration issues exactly the queries the loops describe. */
  lemma EnumerationMembers(limits: seq<int>, limitN1: int, hiraganas: seq<Str>, q: Query)
    ensures q in BandQueries(limits) + KanaQueries(hiraganas, limitN1)
        <==> Enumerated(q, limits, limitN1, hiraganas)
  {
    BandQueriesMembers(limits, q);
    KanaQueriesMembers(hiraganas, limitN1, q);
  }

  /** Joining two duplicate-free lists with nothing in common. */
  lemma DistinctAppend(a: seq<Query>, b: seq<Query>)
    requires Distinct(a) && Distinct(b)
    requires forall x | x in a :: x !in b
    ensures Distinct(a + b)
  {
    forall i, j | 0 <= i < j < |a + b|
      ensures (a + b)[i] != (a + b)[j]
    {
      if i < |a| && j >= |a| {
        assert (a + b)[i] in a && (a + b)[j] == b[j - |a|];
      }
    }
  }

  /** No band query is issued twice. */
  lemma {:induction false} BandQueriesDistinct(limits: seq<int>)
    ensures Distinct(BandQueries(limits))
  {
    if limits != [] {
      var i := |limits| - 1;
      BandQueriesDistinct(limits[..i]);
      var block := BandPages(5 - i, PageCount(limits[i]));
      forall x | x in BandQueries(limits[..i])
        ensures x !in block
      {
        BandQueriesMembers(limits[..i], x);
      }
      DistinctAppend(BandQueries(limits[..i]), block);
    }
  }

  /** No hiragana query is issued twice, provided the hiragana are distinct. */
  lemma {:induction false} KanaQueriesDistinct(hiraganas: seq<Str>, limitN1: int)
    requires forall a, b | 0 <= a < b < |hiraganas| :: hiraganas[a] != hiraganas[b]
    ensures Distinct(KanaQueries(hiraganas, limitN1))
  {
    if hiraganas != [] {
      var i := |hiraganas| - 1;
      KanaQueriesDistinct(hiraganas[..i], limitN1);
      var block := KanaPages(hiraganas[i], PageCount(limitN1));
      forall x | x in KanaQueries(hiraganas[..i], limitN1)
        ensures x !in block
      {
        KanaQueriesMembers(hiraganas[..i], limitN1, x);
      }
      DistinctAppend(KanaQueries(hiraganas[..i], limitN1), block);
    }
  }

  /** With distinct hiragana, every query of the enumeration is issued once,
      and (QueryUrlInjective) every address is fetched by one query only. */
  lemma EnumerationDistinct(limits: seq<int>, limitN1: int, hiraganas: seq<Str>)
    requires forall a, b | 0 <= a < b < |hiraganas| :: hiraganas[a] != hiraganas[b]
    ensures Distinct(BandQueries(limits) + KanaQueries(hiraganas, limitN1))
  {
    BandQueriesDistinct(limits);
    KanaQueriesDistinct(hiraganas, limitN1);
    forall x | x in BandQueries(limits)
      ensures x !in KanaQueries(hiraganas, limitN1)
    {
      BandQueriesMembers(limits, x);
      KanaQueriesMembers(hiraganas, limitN1, x);
    }
    DistinctAppend(BandQueries(limits), KanaQueries(hiraganas, limitN1));
  }

  /** Each character of `s` from position `k` on is below the next one. */
  predicate AscendingFrom(s: string, k: nat)
    decreases |s| - k
  {
    k + 1 >= |s| || (s[k] < s[k + 1] && AscendingFrom(s, k + 1))
  }

  /** The characters of `s` strictly increase. */
  predicate Increasing(s: string) {
    forall i, j | 0 <= i < j < |s| :: s[i] < s[j]
  }

  lemma {:induction false} AscendingIncreasing(s: string, k: nat)
    requires AscendingFrom(s, k)
    ensures forall i, j | k <= i < j < |s| :: s[i] < s[j]
    decreases |s| - k
  {
    if k + 1 < |s| {
      AscendingIncreasing(s, k + 1);
    }
  }

  /** Two increasing runs, the first ending below the start of the second. */
  lemma IncreasingAppend(a: string, b: string)
    requires Increasing(a) && Increasing(b) && a != [] && b != [] && a[|a| - 1] < b[0]
    ensures Increasing(a + b)
  {
  }

  lemma Runes1Increasing()
    ensures Increasing(HiraganaRunes1)
  {
    assert AscendingFrom(HiraganaRunes1, 16);
    assert AscendingFrom(HiraganaRunes1, 8);
    assert AscendingFrom(HiraganaRunes1, 0);
    AscendingIncreasing(HiraganaRunes1, 0);
  }

  lemma Runes2Increasing()
    ensures Increasing(HiraganaRunes2)
  {
    assert AscendingFrom(HiraganaRunes2, 16);
    assert AscendingFrom(HiraganaRunes2, 8);
    assert AscendingFrom(HiraganaRunes2, 0);
    AscendingIncreasing(HiraganaRunes2, 0);
  }

  lemma Runes3Increasing()
    ensures Increasing(HiraganaRunes3)
  {
    assert AscendingFrom(HiraganaRunes3, 16);
    assert AscendingFrom(HiraganaRunes3, 8);
    assert AscendingFrom(HiraganaRunes3, 0);
    AscendingIncreasing(HiraganaRunes3, 0);
  }

  /** The program lists its hiragana in Unicode order, so no two are the
      same character, and no two have the same bytes. */
  lemma HiraganasDistinct()
    ensures forall a, b | 0 <= a < b < |Hiraganas| :: Hiraganas[a] != Hiraganas[b]
  {
    Runes1Increasing();
    Runes2Increasing();
    Runes3Increasing();
    IncreasingAppend(HiraganaRunes1, HiraganaRunes2);
    IncreasingAppend(HiraganaRunes1 + HiraganaRunes2, HiraganaRunes3);
    forall a, b | 0 <= a < b < |Hiraganas|
      ensures Hiraganas[a] != Hiraganas[b]
    {
      if Hiraganas[a] == Hiraganas[b] {
        EncodeRuneInjective(HiraganaRunes[a], HiraganaRunes[b]);
      }
    }
  }

  /** With the program's constants: 33 + 29 + 89 + 91 band pages and 15
      pages for each of the 71 hiragana, and no query issued twice. */
  lemma ProgramQueryCount()
    ensures |Hiraganas| == 71
    ensures |BandQueries(Limits) + KanaQueries(Hiraganas, LimitN1)| == 242 + 71 * 15
    ensures Distinct(BandQueries(Limits) + KanaQueries(Hiraganas, LimitN1))
  {
    HiraganasDistinct();
    EnumerationDistinct(Limits, LimitN1, Hiraganas);
    BandQueriesCount(Limits);
    KanaQueriesCount(Hiraganas, LimitN1);
    assert Limits[..3] == [33, 29, 89] && Limits[..3][..2] == [33, 29];
    assert [33, 29][..1] == [33] && [33][..0] == [];
  }

  /** The address each query fetches. */
  function QueryUrl(q: Query): Str {
    match q
    case Band(jlpt, page) => UrlAPI(jlpt, page)
    case Kana(h, page) => UrlAPIN1(h, page)
  }

  /** Different queries fetch different addresses, so no two of them share
      a cache file. */
  lemma QueryUrlInjective(q1: Query, q2: Query)
    requires QueryUrl(q1) == QueryUrl(q2)
    ensures q1 == q2
  {
    match (q1, q2)
    case (Band(j1, p1), Band(j2, p2)) => UrlAPIInjective(j1, p1, j2, p2);
    case (Band(j1, p1), Kana(h2, p2)) => UrlAPIDisjoint(j1, p1, h2, p2);
    case (Kana(h1, p1), Band(j2, p2)) => UrlAPIDisjoint(j2, p2, h1, p1);
    case (Kana(h1, p1), Kana(h2, p2)) => UrlAPIN1Injective(h1, p1, h2, p2);
  }
}
