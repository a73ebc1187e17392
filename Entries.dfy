/** The part of a dictionary entry the crawler reads or fills in, and the
    network as the crawler observes it. */
module Entries {
  import opened Bytes
  import opened Wrappers

  /** One (written form, reading) pair of an entry; either may be empty. */
  datatype Japanese = Japanese(word: Str, reading: Str)

  /** An audio file: its address and, once downloaded, its file name. */
  datatype Audio = Audio(src: Str, filename: Str)

  /** A dictionary entry: its pairs, the detail-page identifier it was
      resolved to (empty until then), its audio files keyed by MIME type and
      its collocations. Senses, tags and attribution are carried unchanged
      by the crawler and are not part of the model. */
  datatype Word = Word(
    japanese: seq<Japanese>,
    jishoWordPage: Str,
    audios: map<Str, Audio>,
    collocations: seq<Collocation>)

  /** A collocation shown on a detail page: its text, the search link it
      points to, and the entry that link leads to once resolved. */
  datatype Collocation = Collocation(raw: Str, src: Str, word: Option<Word>)

  /** What `parseWordPage` extracts from a detail page. */
  datatype Page = Page(audios: map<Str, Audio>, collocations: seq<Collocation>)

  /** `parseWordPage(address)`: status 200 with the extracted page, 404, or
      anything else (another status, a transport or parse error), on which
      the program panics. */
  datatype PageFetch = PageFound(page: Page) | PageMissing | PageFailed

  /** `get(audio.Src)` as `downloadAudios` sees it: 200, 404, or anything
      else (on which it panics). */
  datatype AudioFetch = AudioOK | AudioMissing | AudioFailed

  /** `parseAPI(address)`: the decoded entries, or a panic. */
  datatype SearchFetch = SearchOK(data: seq<Word>) | SearchFailed

  /** The answers the network gives, by address. */
  datatype Web = Web(
    wordPage: Str -> PageFetch,
    audio: Str -> AudioFetch,
    search: Str -> SearchFetch)

  /** The canonical key of an entry (the key of the `words` map): the
      written form of its first pair, or that pair's reading when the
      written form is empty. The program indexes `Japanese[0]`, so an entry
      without pairs has no key (the program panics on it). */
  function Key(w: Word): (k: Str)
    requires |w.japanese| > 0
    ensures w.japanese[0].word != [] ==> k == w.japanese[0].word
    ensures w.japanese[0].word == [] ==> k == w.japanese[0].reading
  {
    var first := w.japanese[0];
    if first.word != [] then first.word else first.reading
  }
}
