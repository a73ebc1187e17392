/** Enriching an entry: its detail page, its audio files and its
    collocations, each collocation resolved to an entry of its own (the
    goroutine started at line 115 of the crawler and the one nested in it). */
module Enrichment {
  import opened Bytes
  import opened Wrappers
  import opened Escaping
  import opened Text
  import opened Urls
  import opened Entries
  import opened WordPages
  import opened AudioSets
  import opened Paths

  const SearchPrefix: Str := Ascii("/search/")
  const WordsSuffix: Str := Ascii("#words")

  /** `url.QueryUnescape` with its error dropped: a malformed string decodes
      to "". */
  function QueryUnescapeOrEmpty(s: Str): Str {
    match QueryUnescape(s)
    case None => []
    case Some(u) => u
  }

  /** `parseCollocationSrc`: the search text a collocation link points to. */
  function ParseCollocationSrc(src: Str): Str {
    TrimSpace(TrimSuffix(QueryUnescapeOrEmpty(TrimPrefix(src, SearchPrefix)), WordsSuffix))
  }

  /** The search text never starts or ends with white space. */
  lemma ParseCollocationSrcTrimmed(src: Str)
    ensures !StartsWithSpace(ParseCollocationSrc(src)) && !EndsWithSpace(ParseCollocationSrc(src))
  {
  }

  /** The `#words` suffix holds no escape and decodes to itself. */
  lemma WordsSuffixIsPlain()
    ensures IsPlain(WordsSuffix) && Unescape(WordsSuffix, true) == Some(WordsSuffix)
  {
    assert forall i | 0 <= i < |WordsSuffix| :: WordsSuffix[i] != Percent && WordsSuffix[i] != Plus;
    UnescapePlain(WordsSuffix, true);
  }

  /** A link `/search/<s>#words` yields the decoded text of `s`, trimmed. */
  lemma ParseCollocationSrcOf(s: Str, u: Str)
    requires QueryUnescape(s) == Some(u)
    ensures ParseCollocationSrc(SearchPrefix + s + WordsSuffix) == TrimSpace(u)
  {
    assert SearchPrefix + s + WordsSuffix == SearchPrefix + (s + WordsSuffix);
    TrimPrefixOf(SearchPrefix, s + WordsSuffix);
    WordsSuffixIsPlain();
    UnescapeAppend(s, WordsSuffix, true);
    TrimSuffixOf(u, WordsSuffix);
  }

  /** For text without escapes the prefix and suffix are simply dropped. */
  lemma ParseCollocationSrcPlain(s: Str)
    requires IsPlain(s)
    ensures ParseCollocationSrc(SearchPrefix + s + WordsSuffix) == TrimSpace(s)
  {
    UnescapePlain(s, true);
    ParseCollocationSrcOf(s, s);
  }

  /** A malformed escape in the search text makes the result empty. */
  lemma ParseCollocationSrcMalformed(s: Str, i: nat)
    requires i < |s| && s[i] == Percent
    requires i + 2 >= |s| || !IsHex(s[i + 1]) || !IsHex(s[i + 2])
    ensures ParseCollocationSrc(SearchPrefix + s + WordsSuffix) == []
  {
    var t := s + WordsSuffix;
    assert SearchPrefix + s + WordsSuffix == SearchPrefix + t;
    TrimPrefixOf(SearchPrefix, t);
    assert !IsHex(0x23);
    assert t[i] == Percent;
    if i + 2 < |s| {
      assert t[i + 1] == s[i + 1] && t[i + 2] == s[i + 2];
    } else if i + 1 < |s| {
      assert t[i + 2] == WordsSuffix[0] == 0x23;
    } else {
      assert t[i + 1] == WordsSuffix[0] == 0x23;
    }
    BadEscape(t, i, true);
    assert TrimSuffix([], WordsSuffix) == [];
  }

  /** What an enriched entry has been checked against: the detail page it
      names exists, and each of its audio files exists on the server and is
      named after the last element of its address. */
  ghost predicate Settled(w: Word, web: Web) {
    && (w.jishoWordPage != [] ==> web.wordPage(UrlWordPage(w.jishoWordPage)).PageFound?)
    && forall t | t in w.audios ::
      web.audio(w.audios[t].src).AudioOK? && w.audios[t].filename == Base(w.audios[t].src)
  }

  /** The download step applied to the audio files of `w`: the entry gets
      the pruned set and nothing else changes. */
  function WithAudios(w: Word, audios: map<Str, Audio>, web: Web): (r: Outcome<Word>)
    ensures r.Panic? <==> Pruned(audios, web.audio).Panic?
    ensures r.Ok? ==> r.value == w.(audios := Pruned(audios, web.audio).value)
    ensures r.Ok? ==> forall t | t in r.value.audios ::
      web.audio(r.value.audios[t].src).AudioOK? && r.value.audios[t].filename == Base(r.value.audios[t].src)
  {
    match Pruned(audios, web.audio)
    case Panic => Panic
    case Ok(m) => Ok(w.(audios := m))
  }

  /** Lines 147-164: the entry `cw` a collocation's search returned is
      looked up by its own forms; failing that, the literal text `kanji` is
      tried as a detail page. The entry keeps its own pairs and
      collocations; whatever page it ends up naming exists. */
  function CollocationWord(kanji: Str, cw: Word, web: Web): (r: Outcome<Word>)
    ensures r.Ok? ==> r.value.japanese == cw.japanese && r.value.collocations == cw.collocations
    ensures r.Ok? ==> Settled(r.value, web)
    ensures r.Ok? ==> r.value.jishoWordPage in Candidates(cw.japanese) + [kanji, []]
    ensures Lookup(cw, web).Panic? ==> r.Panic?
    // A page found for one of the entry's forms: that form names it, and
    // its audio files are pruned.
    ensures Lookup(cw, web).Ok? && Lookup(cw, web).value.Resolved? ==>
      var found := Lookup(cw, web).value;
      && (r.Panic? <==> Pruned(found.page.audios, web.audio).Panic?)
      && (r.Ok? ==> r.value == cw.(jishoWordPage := found.id, audios := Pruned(found.page.audios, web.audio).value))
  {
    var found := Lookup(cw, web);
    SearchProbes(Candidates(cw.japanese), web);
    match found
    case Panic => Panic
    case Ok(Resolved(id, page)) =>
      CandidatesFacts(cw.japanese);
      WithAudios(cw.(jishoWordPage := id), page.audios, web)
    case Ok(Unresolved) =>
      match web.wordPage(UrlWordPage(kanji))
      case PageFailed => Panic
      case PageMissing => Ok(cw.(jishoWordPage := [], audios := map[]))
      case PageFound(p) => WithAudios(cw.(jishoWordPage := kanji), p.audios, web)
  }

  /** The fallback: when no form of the entry has a detail page but the
      literal text has one, the entry names the literal text and gets that
      page's pruned audio files; when neither has one, it names nothing and
      has no audio files; an unexpected answer ends the run. */
  lemma FallbackToLiteral(kanji: Str, cw: Word, web: Web)
    requires Lookup(cw, web) == Ok(Unresolved)
    ensures web.wordPage(UrlWordPage(kanji)).PageFound? ==>
      var p := web.wordPage(UrlWordPage(kanji)).page;
      && (CollocationWord(kanji, cw, web).Panic? <==> Pruned(p.audios, web.audio).Panic?)
      && (CollocationWord(kanji, cw, web).Ok? ==>
            CollocationWord(kanji, cw, web).value == cw.(jishoWordPage := kanji, audios := Pruned(p.audios, web.audio).value))
    ensures web.wordPage(UrlWordPage(kanji)).PageMissing? ==>
      CollocationWord(kanji, cw, web) == Ok(cw.(jishoWordPage := [], audios := map[]))
    ensures web.wordPage(UrlWordPage(kanji)).PageFailed? ==> CollocationWord(kanji, cw, web).Panic?
  {
  }

  /** `res` is `c` with its entry filled in and settled. */
  ghost predicate ResolvedFrom(c: Collocation, res: Collocation, web: Web) {
    res.raw == c.raw && res.src == c.src && res.word.Some? && Settled(res.word.value, web)
  }

  /** Lines 145-164 for a collocation whose link decodes to `kanji`. The
      search for that text must return at least one entry (an empty result
      is an index out of range, line 145). */
  function ResolveText(c: Collocation, kanji: Str, web: Web): (r: Outcome<Collocation>)
    ensures r.Ok? ==> ResolvedFrom(c, r.value, web)
    ensures r.Ok? ==>
      && web.search(UrlAPICollocation(kanji)).SearchOK?
      && |web.search(UrlAPICollocation(kanji)).data| > 0
      && r.value.word.value.japanese == web.search(UrlAPICollocation(kanji)).data[0].japanese
    // The run ends when the search fails, finds nothing, or the entry found
    // cannot be completed; otherwise the collocation holds that entry,
    // completed by CollocationWord.
    ensures r.Panic? <==>
      || !web.search(UrlAPICollocation(kanji)).SearchOK?
      || web.search(UrlAPICollocation(kanji)).data == []
      || CollocationWord(kanji, web.search(UrlAPICollocation(kanji)).data[0], web).Panic?
    ensures r.Ok? ==>
      r.value == c.(word := Some(CollocationWord(kanji, web.search(UrlAPICollocation(kanji)).data[0], web).value))
  {
    match web.search(UrlAPICollocation(kanji))
    case SearchFailed => Panic
    case SearchOK(data) =>
      if data == [] then Panic
      else match CollocationWord(kanji, data[0], web)
        case Panic => Panic
        case Ok(w) => Ok(c.(word := Some(w)))
  }

  /** The goroutine of lines 140-165 for one collocation. */
  function ResolveCollocation(c: Collocation, web: Web): Outcome<Collocation> {
    ResolveText(c, ParseCollocationSrc(c.src), web)
  }

  /** Each collocation of `cs` resolved, in order (one goroutine each). */
  function Resolutions(cs: seq<Collocation>, web: Web): (os: seq<Outcome<Collocation>>)
    ensures |os| == |cs|
  {
    seq(|cs|, i requires 0 <= i < |cs| => ResolveCollocation(cs[i], web))
  }

  /** The resolutions succeed together into resolved collocations, or one
      of them panics. */
  lemma ResolutionsSettle(cs: seq<Collocation>, web: Web)
    ensures AllOk(Resolutions(cs, web)).Ok? ==>
      forall i | 0 <= i < |cs| :: ResolvedFrom(cs[i], AllOk(Resolutions(cs, web)).value[i], web)
    ensures AllOk(Resolutions(cs, web)).Panic? <==>
      exists i | 0 <= i < |cs| :: ResolveCollocation(cs[i], web).Panic?
    ensures AllOk(Resolutions(cs, web)).Ok? ==>
      forall i | 0 <= i < |cs| :: ResolveCollocation(cs[i], web) == Ok(AllOk(Resolutions(cs, web)).value[i])
  {
    var os := Resolutions(cs, web);
    var r := AllOk(os);
    forall i | 0 <= i < |cs|
      ensures os[i] == ResolveCollocation(cs[i], web)
    {
    }
  }

  /** All collocations of a page, each resolved; one failure stops the run. */
  function ResolveAll(cs: seq<Collocation>, web: Web): (r: Outcome<seq<Collocation>>)
    ensures r.Ok? ==> |r.value| == |cs|
    ensures r.Ok? ==> forall i | 0 <= i < |cs| :: ResolvedFrom(cs[i], r.value[i], web)
    ensures r.Panic? <==> exists i | 0 <= i < |cs| :: ResolveCollocation(cs[i], web).Panic?
    ensures r.Ok? ==> forall i | 0 <= i < |cs| :: ResolveCollocation(cs[i], web) == Ok(r.value[i])
  {
    ResolutionsSettle(cs, web);
    AllOk(Resolutions(cs, web))
  }

  /** Every resolved collocation holds an entry checked against the server. */
  lemma ResolvedSettled(cs: seq<Collocation>, res: seq<Collocation>, web: Web)
    requires ResolveAll(cs, web) == Ok(res)
    ensures forall i | 0 <= i < |res| :: res[i].word.Some? && Settled(res[i].word.value, web)
  {
    forall i | 0 <= i < |res|
      ensures res[i].word.Some? && Settled(res[i].word.value, web)
    {
      assert ResolvedFrom(cs[i], res[i], web);
    }
  }

  /** The goroutine of lines 115-169 for one entry: find its detail page;
      if there is none, it has no page, no audio and no collocations;
      otherwise download its audio and resolve its collocations. */
  function Enrich(w: Word, web: Web): (r: Outcome<Word>)
    ensures r.Ok? ==> r.value.japanese == w.japanese && Settled(r.value, web)
    ensures r.Ok? ==> r.value.jishoWordPage == [] || r.value.jishoWordPage in Candidates(w.japanese)
    ensures r.Ok? && r.value.jishoWordPage == [] ==> r.value.audios == map[] && r.value.collocations == []
    ensures r.Ok? ==> forall i | 0 <= i < |r.value.collocations| ::
      r.value.collocations[i].word.Some? && Settled(r.value.collocations[i].word.value, web)
    // What the entry becomes, by the outcome of the lookup.
    ensures Lookup(w, web).Panic? ==> r.Panic?
    ensures Lookup(w, web) == Ok(Unresolved) ==> r == Ok(w.(jishoWordPage := [], audios := map[], collocations := []))
    ensures Lookup(w, web).Ok? && Lookup(w, web).value.Resolved? ==>
      var found := Lookup(w, web).value;
      && (r.Ok? <==> Pruned(found.page.audios, web.audio).Ok? && ResolveAll(found.page.collocations, web).Ok?)
      && (r.Ok? ==> r.value == w.(jishoWordPage := found.id,
                                  audios := Pruned(found.page.audios, web.audio).value,
                                  collocations := ResolveAll(found.page.collocations, web).value))
  {
    SearchProbes(Candidates(w.japanese), web);
    CandidatesFacts(w.japanese);
    match Lookup(w, web)
    case Panic => Panic
    case Ok(Unresolved) => Ok(w.(jishoWordPage := [], audios := map[], collocations := []))
    case Ok(Resolved(id, page)) => Download(w, id, page, web)
  }

  /** Lines 125-168, once the detail page `id` of `w` has been found. */
  function Download(w: Word, id: Str, page: Page, web: Web): (r: Outcome<Word>)
    requires web.wordPage(UrlWordPage(id)).PageFound?
    ensures r.Ok? <==> Pruned(page.audios, web.audio).Ok? && ResolveAll(page.collocations, web).Ok?
    ensures r.Ok? ==> r.value == w.(jishoWordPage := id,
                                    audios := Pruned(page.audios, web.audio).value,
                                    collocations := ResolveAll(page.collocations, web).value)
    ensures r.Ok? ==> Settled(r.value, web)
    ensures r.Ok? ==> forall i | 0 <= i < |r.value.collocations| ::
      r.value.collocations[i].word.Some? && Settled(r.value.collocations[i].word.value, web)
  {
    match Pruned(page.audios, web.audio)
    case Panic => Panic
    case Ok(m) =>
      match ResolveAll(page.collocations, web)
      case Panic => Panic
      case Ok(cs) =>
        ResolvedSettled(page.collocations, cs, web);
        Ok(w.(jishoWordPage := id, audios := m, collocations := cs))
  }

  /** An entry with one pair whose written form has no detail page but
      whose reading has one is enriched from the reading's page. */
  lemma EnrichReadingFallback(j: Japanese, audios: map<Str, Audio>, cols: seq<Collocation>, web: Web, p: Page)
    requires j.word != [] && j.reading != [] && j.word != j.reading
    requires web.wordPage(UrlWordPage(j.word)) == PageMissing
    requires web.wordPage(UrlWordPage(j.reading)) == PageFound(p)
    requires Pruned(p.audios, web.audio).Ok? && ResolveAll(p.collocations, web).Ok?
    ensures Enrich(Word([j], [], audios, cols), web)
         == Ok(Word([j], j.reading, Pruned(p.audios, web.audio).value, ResolveAll(p.collocations, web).value))
  {
    ReadingFallback(j, audios, cols, web, p);
  }

  /** A detail page with one audio file the server has and one it lacks:
      the enriched entry keeps only the first, named after its address. */
  lemma EnrichOneFoundOneMissing(w: Word, web: Web, id: Str, p: Page, t1: Str, a1: Audio, t2: Str, a2: Audio)
    requires Lookup(w, web) == Ok(Resolved(id, p))
    requires p.audios == map[t1 := a1, t2 := a2] && t1 != t2
    requires web.audio(a1.src) == AudioOK && web.audio(a2.src) == AudioMissing
    requires ResolveAll(p.collocations, web).Ok?
    ensures Enrich(w, web).Ok?
    ensures Enrich(w, web).value.jishoWordPage == id
    ensures Enrich(w, web).value.audios == map[t1 := Audio(a1.src, Base(a1.src))]
  {
    OneFoundOneMissing(t1, a1, t2, a2, web.audio);
  }
}
