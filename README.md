# jisho crawler core, modelled in Dafny

`crawl.go` builds a vocabulary dump from jisho.org. It enumerates a fixed
set of search queries: every page of the JLPT bands N5 to N2, and every
page of N1 words for each hiragana. It collects the entries those searches
return and keeps one entry per canonical key (first seen wins). Each kept
entry is then enriched:

- its detail page is found by probing its written forms and readings in
  order;
- its audio files are downloaded, and the ones the server lacks are dropped;
- each collocation on the page is resolved to an entry of its own, with a
  fallback to the collocation's literal text.

Every request goes through `get`. `get` answers from an on-disk cache keyed
by the escaped address when it can. Otherwise it takes one of ten permits
and fetches, storing 200 answers only.

This project models that core with the network and the disk as
parameters, and proves what each piece promises.

- `Bytes`, `Wrappers`: Go strings as byte sequences (`Str`), UTF-8 encoding
  of literals, and `Outcome` (a value or a panic) and `Option`.
- `Decimal`: `%v` of an `int`.
- `Escaping`: `url.QueryUnescape`, `url.PathEscape` and its inverse.
- `Text`: `strings.TrimPrefix`, `TrimSuffix` and `TrimSpace` (exact on
  UTF-8 bytes, with Go's `unicode.IsSpace` runes).
- `Paths`: `filepath.Base`.
- `Urls`: the four address builders.
- `Queries`: the query enumeration of `main`.
- `Entries`: the entry data and the network oracle `Web`, which gives the
  answer of a detail page, an audio address and a search address.
- `WordPages`: `findAndParseWordPage`.
- `AudioSets`: `getAudios` and `downloadAudios`.
- `Enrichment`: `parseCollocationSrc`, the collocation fallback and the
  per-entry enrichment.
- `Crawler`: the dedup loop of `main`.
- `Cache`: `get`, as a class holding the cache directory and the permit
  counter.

In two places the program behaves differently from what its design
suggests, and the model follows the program in both:

- A collocation search that returns no entry is an index out of range
  (`crawl.go:145`), so the run panics; it does not fall back to the
  collocation's raw text. `Enrichment.ResolveText` returns `Panic` in that
  case.
- `get` does not itself treat statuses other than 200 and 404 as fatal: it
  returns any status to its caller, and the callers panic.
  `Cache.GetSpec` hands the status on, and the oracles `PageFetch` and
  `AudioFetch` carry the callers' panics.

## Model

| member | source | states |
|---|---|---|
| Decimal.Digits | crawl.go:36 | the decimal form of a natural number is non-empty, all digits, and has no leading zero |
| Decimal.ValueOfDigits | crawl.go:36 | reading the digits back gives the number: `%v` loses nothing |
| Decimal.Format | crawl.go:36 | `%v` of an int is digits, preceded by `-` exactly when the int is negative |
| Decimal.FormatSign | crawl.go:36 | the first byte is `-` exactly when the int is negative |
| Decimal.FormatInjective | crawl.go:36 | different ints print differently |
| Escaping.Unescape | crawl.go:305 | decoded text is never longer than the escaped text |
| Escaping.UnescapePlus | crawl.go:305 | in a query component `+` decodes to a space; in a path it stays `+` |
| Escaping.UnescapeHexPair | crawl.go:305 | `%XY` with two hex digits of either case decodes to the byte XY |
| Escaping.UnescapePlain | crawl.go:305 | text with no `%` and no `+` decodes to itself |
| Escaping.UnescapeAppend | crawl.go:305 | decoding two well-formed pieces one after the other decodes each piece |
| Escaping.BadEscape | crawl.go:305 | a `%` not followed by two hex digits makes the whole string malformed, wherever it stands |
| Escaping.PathEscape | crawl.go:353 | escaping never shortens an address |
| Escaping.PathEscapeRoundTrip | crawl.go:353 | path-unescaping the escaped address gives the address back |
| Escaping.PathEscapeInjective | crawl.go:353 | two different addresses never get the same cache file name |
| Text.TrimPrefix | crawl.go:305 | the result is the input, or the input with the prefix removed, the latter exactly when the input starts with the non-empty prefix |
| Text.TrimSuffix | crawl.go:307 | the result is the input, or the input with the suffix removed, the latter exactly when the input ends with the non-empty suffix |
| Text.TrimPrefixOf | crawl.go:305 | trimming `p` from `p + t` gives `t` |
| Text.TrimSuffixOf | crawl.go:307 | trimming `p` from `t + p` gives `t` |
| Text.WhiteSpaceEncoded | crawl.go:307 | the UTF-8 encoding of every `unicode.IsSpace` rune is recognised as white space |
| Text.SpaceEncodingIsWhiteSpace | crawl.go:307 | every byte pattern recognised as white space is the encoding of a `unicode.IsSpace` rune |
| Text.LeftSpaceCount | crawl.go:307 | the bytes dropped at the front are a run of white-space runes, and what follows starts with none |
| Text.RightSpaceCount | crawl.go:307 | the bytes dropped at the back are a run of white-space runes, and what precedes ends with none |
| Text.TrimSpace | crawl.go:307 | the result neither starts nor ends with white space, and is the input with only white-space runs removed from its two ends |
| Text.TrimSpaceOfTrimmed | crawl.go:307 | a string with no white space at either end is its own TrimSpace |
| Text.TrimSpaceFixedPoint | crawl.go:307 | a string is unchanged by TrimSpace exactly when it has no white space at either end; TrimSpace is idempotent |
| Paths.Base | crawl.go:333 | the file name is non-empty, is `/` or has no slash, and a path not ending in `/` ends with it right after a slash or at its start |
| Urls.UrlAPIInjective | crawl.go:35-37 | different (band, page) pairs give different addresses |
| Urls.UrlAPIN1Injective | crawl.go:39-41 | different (hiragana, page) pairs give different addresses |
| Urls.UrlAPIDisjoint | crawl.go:35-41 | no band address equals a hiragana address |
| Urls.UrlWordPageInjective | crawl.go:47-49 | different identifiers give different detail-page addresses |
| Queries.Enumerate | crawl.go:61-88 | the two nested loops issue the band queries, band by band and page by page, then the hiragana queries; the count is the sum of the limits plus hiragana times limitN1 |
| Queries.BandQueriesCount | crawl.go:61-62 | the band loop issues as many queries as the limits sum to |
| Queries.KanaQueriesCount | crawl.go:76-77 | the hiragana loop issues `limitN1` queries per hiragana |
| Queries.BandQueriesMembers | crawl.go:61-72 | a band query is issued exactly for level `5-i` and pages 1 to `limits[i]` |
| Queries.KanaQueriesMembers | crawl.go:76-87 | a hiragana query is issued exactly for each listed hiragana and pages 1 to `limitN1` |
| Queries.EnumerationMembers | crawl.go:61-88 | the enumeration holds exactly the queries the loops describe |
| Queries.BandQueriesDistinct | crawl.go:61-72 | no band query is issued twice |
| Queries.KanaQueriesDistinct | crawl.go:76-87 | with distinct hiragana, no hiragana query is issued twice |
| Queries.EnumerationDistinct | crawl.go:61-88 | with distinct hiragana, no query at all is issued twice |
| Queries.ProgramQueryCount | crawl.go:27-28 | with the program's constants there are 71 hiragana and 242 + 71 × 15 queries, and no query is issued twice |
| Queries.HiraganasDistinct | crawl.go:451 | the program's hiragana are in Unicode order, so no two of them have the same bytes |
| Bytes.DecodeEncodeRune | crawl.go:451 | decoding the UTF-8 bytes of a character gives the character back |
| Bytes.EncodeRuneInjective | crawl.go:451 | different characters have different UTF-8 bytes |
| Queries.QueryUrlInjective | crawl.go:35-41 | different queries fetch different addresses |
| WordPages.FindWordPage | crawl.go:200-219 | the loop's result is the first candidate whose page exists (or a panic, or nothing found), and it requests exactly the probe log of the candidates |
| WordPages.FreshFacts | crawl.go:201-209 | skipping empty and already tried strings keeps exactly the non-empty untried ones, once each, in the order of their first occurrences |
| WordPages.CandidatesFacts | crawl.go:201-209 | the candidates are every non-empty written form and reading, none twice, ordered by first occurrence in the pair list (written form before reading) |
| WordPages.SharedWrittenForm | crawl.go:201-209 | two pairs with the same written form: the written form is tried once, then the two readings in order |
| WordPages.FlattenMembers | crawl.go:203-204 | the strings considered are exactly the written forms and readings of the pairs |
| WordPages.SearchProbes | crawl.go:210-218 | probing stops at the first page found or the first failure; every earlier probe found nothing; a found page belongs to the last identifier probed; nothing found means every candidate was probed and missing |
| WordPages.ReadingFallback | crawl.go:203-214 | when the written form has no page and the reading has one, the result is the reading, after exactly the written form and then the reading were requested |
| AudioSets.LastValueIsLast | crawl.go:265-272 | an attribute's value is that of its last occurrence, or empty when it is absent |
| AudioSets.GetAudios | crawl.go:259-278 | the loop over the `<source>` children builds the map AudioMap describes |
| AudioSets.AudioMapKeys | crawl.go:262-274 | the map has one key per type among the children, and no other |
| AudioSets.AudioMapLastWins | crawl.go:262-274 | each type holds the address of its last child, and no file name yet |
| AudioSets.Pruned | crawl.go:313-333 | a panic exactly when some address fails; otherwise no key is added, exactly the missing ones are dropped, and the others keep their address and are named after its last element |
| AudioSets.DownloadAudios | crawl.go:310-350 | the loop over the map, in any order, yields Pruned |
| AudioSets.DoneIsPruned | crawl.go:313-333 | once every entry has been requested and none failed, the map is the pruned one |
| AudioSets.PrunedIdempotent | crawl.go:323-333 | downloading an already pruned set again changes nothing |
| AudioSets.OneFoundOneMissing | crawl.go:319-333 | with one audio found and one missing, exactly the found one remains, named after its address |
| Enrichment.ParseCollocationSrcTrimmed | crawl.go:304-308 | the search text never starts or ends with white space |
| Enrichment.ParseCollocationSrcOf | crawl.go:304-308 | `/search/<s>#words` yields the decoded `s`, trimmed |
| Enrichment.ParseCollocationSrcPlain | crawl.go:304-308 | for text without escapes, `/search/<s>#words` yields `TrimSpace(s)` |
| Enrichment.ParseCollocationSrcMalformed | crawl.go:305 | a malformed escape yields the empty string |
| Enrichment.WithAudios | crawl.go:162-164 | downloading panics exactly when the pruning does; otherwise the entry gets the pruned audio set and nothing else changes |
| Enrichment.CollocationWord | crawl.go:147-164 | the nested entry keeps its pairs and collocations; a lookup failure panics; a page found for one of its forms names that form and brings its pruned audio set; its page is a candidate, the literal text or empty, and exists when non-empty |
| Enrichment.FallbackToLiteral | crawl.go:149-160 | when no candidate has a page: the literal text's page names the literal text and brings its pruned audio set; a missing page leaves no identifier and no audio; a failed request panics |
| Enrichment.ResolveText | crawl.go:143-165 | the run panics exactly when the search fails, returns nothing, or its first entry cannot be completed; otherwise the collocation keeps its text and link and holds that first entry as CollocationWord completes it |
| Wrappers.AllOk | crawl.go:137-168 | a batch of steps that may each panic gives the values of all of them, in order, exactly when none panics |
| Enrichment.ResolveAll | crawl.go:137-168 | each collocation is replaced in place by its own resolution, and the run panics exactly when one of them does |
| Enrichment.Enrich | crawl.go:115-169 | a failed lookup panics; no page found leaves no identifier, audio or collocations; a found page names the first candidate that has one, with its pruned audio set and resolved collocations, panicking exactly when either step does; the result is settled |
| Enrichment.Download | crawl.go:125-168 | once a detail page is found, the entry names it and gets that page's pruned audio set and resolved collocations, panicking exactly when either step does; the entry and every resolved collocation are settled |
| Enrichment.EnrichReadingFallback | crawl.go:115-169 | an entry whose written form has no page and whose reading has one is enriched from the reading's page |
| Enrichment.EnrichOneFoundOneMissing | crawl.go:120-129 | with one audio file found and one missing on the detail page, the enriched entry keeps only the found one, named after its address |
| Crawler.FirstSeenHas | crawl.go:107-111 | every entry's key is in the map once the entry has been read |
| Crawler.FirstSeenIndex | crawl.go:107-111 | the entry stored under a key is an entry with that key, and no earlier entry has it |
| Crawler.FirstSeenWins | crawl.go:98-111 | a key is present exactly when some entry has it, and it holds the earliest such entry |
| Crawler.FirstKeysFacts | crawl.go:107-113 | each key is handed to enrichment exactly once, and the keys handed are exactly the map's keys |
| Crawler.FirstSeenStable | crawl.go:107-111 | entries read later never change what is stored under an earlier key |
| Crawler.FirstStored | crawl.go:107-111 | an entry whose key no earlier entry had is the one stored under it |
| Crawler.Crawl | crawl.go:98-172 | the loop panics exactly when an entry has no pairs or a kept entry's enrichment panics; otherwise the map holds the enriched first-seen entries under their keys, and the keys handed are in first-seen order |
| Crawler.CrawlResult | crawl.go:98-172 | every entry in the output sits under its own key and is settled against the server |
| Crawler.LaterDuplicateDiscarded | crawl.go:107-111 | after entries with keys A, B, A the map holds the first A and B, and only A and B are handed on |
| Cache.CachePath | crawl.go:353 | every address other than the empty one, `.` and `..` has the path `cache/` followed by its escaped name |
| Cache.DirectoryAddresses | crawl.go:353-356 | exactly the empty address, `.` and `..` have a directory as their cache path |
| Cache.GetSpec | crawl.go:352-395 | the empty address, `.` and `..` open a directory and change nothing; a hit answers from the cache and changes nothing; a miss only ever adds this address's file; a transport error or a 200 answer the disk does not take is an error and stores nothing; another status is handed on; a 200 answer is stored and returned |
| Cache.MissMatchesSpec | crawl.go:359-394 | the steps of a miss leave the directory and response GetSpec states |
| Cache.FetchCache.constructor | crawl.go:51-55 | the rate limiter starts with all ten permits |
| Cache.FetchCache.Get | crawl.go:352-395 | the call's directory and response are GetSpec's; the permit count is unchanged; a hit (a cached file or a directory) makes no request; a miss takes a permit, requests and gives the permit back |
| Cache.GetTwice | crawl.go:355-394 | after a 200 answer, a second call for the address gives the same response and changes nothing, whatever the network would say |
| Cache.CacheNamesDistinct | crawl.go:353 | different addresses have different escaped names, and share a cache path only when they are the empty address and `.` |

## Left out

- Goroutines, wait groups and the `wordsCh` and `rateLimiter` channels: the
  model is sequential. Enrichment runs when an entry is stored, which gives
  the same final map because each goroutine writes only to its own entry.
  The permit pool is a counter.
- The concurrent `delete` on the shared audio map (`crawl.go:324`) is a data
  race in the program. The model deletes sequentially.
- HTTP and the file system are parameters. `Web` gives each detail page,
  audio address and search answer, and `Cache.FetchCache.Get` takes the
  network reply, the first failing disk step and the temporary file name.
- Writing audio files into `audio/` (`crawl.go:334-343`) is not modelled;
  only the file name is.
- The DOM traversal of `parseWordPage` (`crawl.go:221-257`) and
  `getCollocations` (`crawl.go:280-302`) uses an HTML library. A found
  page is given directly as its audio map and collocation list. `getAudios`
  is modelled over the children's attribute lists.
- JSON decoding in `parseAPI` (`crawl.go:182-198`) and the final
  `json.Marshal` and printing are not modelled. The search oracle gives
  decoded entries. `Crawl` takes the entries in any arrival order.
- The `Word` fields the crawler never reads (senses, tags, attribution)
  are not modelled.
- Logging to stdout and stderr is not modelled, and panics carry no message.
- `filepath.Join` with `audio` is not modelled; only the file name is.
  `filepath.Join` with `cache` is: `Cache.CachePath` cleans the escaped
  name, so the empty address, `.` and `..` lead to a directory.
- `Web` is not derived from `Cache`. In the program `get("")` opens the
  cache directory, so downloading an audio file whose address is empty (a
  `<source>` child without attributes) panics when its body is read. The
  model's `Web.audio` is a free parameter and does not force that answer.
- Go's nil map and nil slice are modelled as the empty map and empty
  sequence.
- Crawler.Crawl: when the run panics, the keys handed on before the panic
  are not specified.
- Cache.FetchCache.Get: waiting for a free permit is replaced by the
  precondition that one is free. In a sequential run none is held between
  calls.
- AudioSets.DownloadAudios: the order of the requests is not fixed. The
  contract holds for every order, as the outcome does not depend on it.
- Enrichment.ParseCollocationSrc: the property that the result has no white
  space at either end is a lemma, ParseCollocationSrcTrimmed, rather than a
  postcondition of the function.
- Bytes.Ascii: it encodes one byte per character and is used only for the
  program's ASCII literals. The hiragana are encoded with UTF-8.
