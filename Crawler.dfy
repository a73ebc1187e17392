/** The loop of `main` that reads the entries the searches return,
    keeps the first entry of each key and has it enriched. */
module Crawler {
  import opened Bytes
  import opened Wrappers
  import opened Entries
  import opened WordPages
  import opened Enrichment

  /** Every entry has at least one pair, so that its key exists. */
  predicate HasPairs(es: seq<Word>) {
    forall i | 0 <= i < |es| :: |es[i].japanese| > 0
  }

  /** The `words` map after the entries `es`, before enrichment: each key
      holds the first entry that has it. */
  function FirstSeen(es: seq<Word>): map<Str, Word>
    requires HasPairs(es)
  {
    if es == [] then map[]
    else
      var m := FirstSeen(es[..|es| - 1]);
      var w := es[|es| - 1];
      if Key(w) in m then m else m[Key(w) := w]
  }

  /** The keys handed to enrichment, in order. */
  function FirstKeys(es: seq<Word>): seq<Str>
    requires HasPairs(es)
  {
    if es == [] then []
    else
      var w := es[|es| - 1];
      FirstKeys(es[..|es| - 1]) + if Key(w) in FirstSeen(es[..|es| - 1]) then [] else [Key(w)]
  }

  /** Every entry's key is stored once the entry has been read. */
  lemma {:induction false} FirstSeenHas(es: seq<Word>, i: nat)
    requires HasPairs(es) && i < |es|
    ensures Key(es[i]) in FirstSeen(es)
  {
    var n := |es| - 1;
    var init := es[..n];
    if i < n {
      assert init[i] == es[i];
      FirstSeenHas(init, i);
    }
  }

  /** The entry stored under a key is the earliest entry with that key. */
  lemma {:induction false} FirstSeenIndex(es: seq<Word>, k: Str) returns (i: nat)
    requires HasPairs(es) && k in FirstSeen(es)
    ensures i < |es| && Key(es[i]) == k && FirstSeen(es)[k] == es[i]
    ensures forall j | 0 <= j < i :: Key(es[j]) != k
  {
    var n := |es| - 1;
    var init := es[..n];
    if k in FirstSeen(init) {
      i := FirstSeenIndex(init, k);
      assert forall j | 0 <= j <= i :: init[j] == es[j];
    } else {
      i := n;
      forall j | 0 <= j < n
        ensures Key(es[j]) != k
      {
        assert init[j] == es[j];
        FirstSeenHas(init, j);
      }
    }
  }

  /** First seen wins: a key is present exactly when some entry has it,
      and it holds the earliest such entry. */
  lemma FirstSeenWins(es: seq<Word>)
    requires HasPairs(es)
    ensures forall k :: k in FirstSeen(es) <==> exists i | 0 <= i < |es| :: Key(es[i]) == k
    ensures forall k | k in FirstSeen(es) :: exists i | 0 <= i < |es| ::
      && Key(es[i]) == k && FirstSeen(es)[k] == es[i]
      && forall j | 0 <= j < i :: Key(es[j]) != k
  {
    forall i | 0 <= i < |es|
      ensures Key(es[i]) in FirstSeen(es)
    {
      FirstSeenHas(es, i);
    }
    forall k | k in FirstSeen(es)
      ensures exists i | 0 <= i < |es| ::
        && Key(es[i]) == k && FirstSeen(es)[k] == es[i]
        && forall j | 0 <= j < i :: Key(es[j]) != k
    {
      var i := FirstSeenIndex(es, k);
    }
  }

  /** Each key is handed to enrichment exactly once, and the keys handed
      are exactly the keys of the map. */
  lemma {:induction false} FirstKeysFacts(es: seq<Word>)
    requires HasPairs(es)
    ensures NoDuplicates(FirstKeys(es))
    ensures forall k :: k in FirstKeys(es) <==> k in FirstSeen(es)
  {
    if es != [] {
      var n := |es| - 1;
      FirstKeysFacts(es[..n]);
    }
  }

  /** Entries read later never change what an earlier prefix stored. */
  lemma {:induction false} FirstSeenStable(es: seq<Word>, i: nat)
    requires HasPairs(es) && i <= |es|
    ensures HasPairs(es[..i])
    ensures forall k | k in FirstSeen(es[..i]) :: k in FirstSeen(es) && FirstSeen(es)[k] == FirstSeen(es[..i])[k]
    decreases |es|
  {
    if i < |es| {
      var n := |es| - 1;
      assert es[..n][..i] == es[..i];
      FirstSeenStable(es[..n], i);
    } else {
      assert es[..i] == es;
    }
  }

  /** An entry whose key no earlier entry has is the one stored under it. */
  lemma {:induction false} FirstStored(es: seq<Word>, i: nat)
    requires HasPairs(es) && i < |es|
    requires Key(es[i]) !in FirstSeen(es[..i])
    ensures Key(es[i]) in FirstSeen(es) && FirstSeen(es)[Key(es[i])] == es[i]
    decreases |es|
  {
    var n := |es| - 1;
    var init := es[..n];
    if i < n {
      assert init[..i] == es[..i] && init[i] == es[i];
      FirstStored(init, i);
    } else {
      assert init == es[..i];
    }
  }

  /** An entry with pairs extends a prefix whose entries all have pairs. */
  lemma HasPairsStep(es: seq<Word>, i: nat)
    requires i < |es| && HasPairs(es[..i]) && |es[i].japanese| > 0
    ensures HasPairs(es[..i + 1])
  {
    assert forall j | 0 <= j < i :: es[..i + 1][j] == es[..i][j];
  }

  /** Reading an entry whose key is already stored changes nothing. */
  lemma SkipStep(es: seq<Word>, i: nat)
    requires i < |es| && HasPairs(es[..i + 1])
    requires Key(es[i]) in FirstSeen(es[..i])
    ensures HasPairs(es[..i])
    ensures FirstSeen(es[..i + 1]) == FirstSeen(es[..i])
    ensures FirstKeys(es[..i + 1]) == FirstKeys(es[..i])
  {
    var p := es[..i + 1];
    assert p[..|p| - 1] == es[..i] && p[|p| - 1] == es[i];
  }

  /** Reading an entry with a new key stores it and hands its key on. */
  lemma StoreStep(es: seq<Word>, i: nat)
    requires i < |es| && HasPairs(es[..i + 1])
    requires Key(es[i]) !in FirstSeen(es[..i])
    ensures HasPairs(es[..i])
    ensures FirstSeen(es[..i + 1]) == FirstSeen(es[..i])[Key(es[i]) := es[i]]
    ensures FirstKeys(es[..i + 1]) == FirstKeys(es[..i]) + [Key(es[i])]
  {
    var p := es[..i + 1];
    assert p[..|p| - 1] == es[..i] && p[|p| - 1] == es[i];
  }

  /** The loop of lines 98-113 with each new entry enriched as it is
      stored. The `words` map holds the enriched entries; `handed` records
      the keys handed to enrichment. An entry without pairs, or a failure
      during enrichment, ends the run. */
  method Crawl(entries: seq<Word>, web: Web) returns (r: Outcome<map<Str, Word>>, handed: seq<Str>)
    ensures !HasPairs(entries) ==> r.Panic?
    ensures HasPairs(entries) ==>
      (r.Panic? <==> exists k | k in FirstSeen(entries) :: Enrich(FirstSeen(entries)[k], web).Panic?)
    ensures r.Ok? ==> HasPairs(entries) && handed == FirstKeys(entries)
    ensures r.Ok? ==> r.value.Keys == FirstSeen(entries).Keys
    ensures r.Ok? ==> forall k | k in r.value :: Enrich(FirstSeen(entries)[k], web) == Ok(r.value[k])
  {
    var words: map<Str, Word> := map[];
    handed := [];
    for i := 0 to |entries|
      invariant HasPairs(entries[..i])
      invariant words.Keys == FirstSeen(entries[..i]).Keys
      invariant forall k | k in words :: Enrich(FirstSeen(entries[..i])[k], web) == Ok(words[k])
      invariant handed == FirstKeys(entries[..i])
    {
      var word := entries[i];
      if |word.japanese| == 0 {
        r := Panic;
        return;
      }
      HasPairsStep(entries, i);
      var key := Key(word);
      if key in words {
        SkipStep(entries, i);
        continue;
      }
      StoreStep(entries, i);
      words := words[key := word];
      handed := handed + [key];
      var enriched := Enrich(word, web);
      if enriched.Panic? {
        if HasPairs(entries) {
          FirstStored(entries, i);
        }
        r := Panic;
        return;
      }
      words := words[key := enriched.value];
    }
    assert entries[..|entries|] == entries;
    r := Ok(words);
  }

  /** What the program prints: every stored entry sits under its own key,
      and has been enriched and checked against the server. */
  lemma CrawlResult(entries: seq<Word>, web: Web, m: map<Str, Word>)
    requires HasPairs(entries)
    requires m.Keys == FirstSeen(entries).Keys
    requires forall k | k in m :: Enrich(FirstSeen(entries)[k], web) == Ok(m[k])
    ensures forall k | k in m :: |m[k].japanese| > 0 && Key(m[k]) == k && Settled(m[k], web)
    ensures forall k | k in m :: exists i | 0 <= i < |entries| :: m[k].japanese == entries[i].japanese
  {
    forall k | k in m
      ensures |m[k].japanese| > 0 && Key(m[k]) == k && Settled(m[k], web)
      ensures exists i | 0 <= i < |entries| :: m[k].japanese == entries[i].japanese
    {
      EnrichKeeps(FirstSeen(entries)[k], web, m[k]);
      var i := StoredEntry(entries, k, m[k]);
    }
  }

  /** Enrichment keeps the pairs and settles the entry. */
  lemma EnrichKeeps(w: Word, web: Web, v: Word)
    requires Enrich(w, web) == Ok(v)
    ensures v.japanese == w.japanese && Settled(v, web)
  {
  }

  /** An entry with the pairs of the one stored under `k` has key `k`
      and the pairs of one of the entries read. */
  lemma StoredEntry(entries: seq<Word>, k: Str, v: Word) returns (i: nat)
    requires HasPairs(entries) && k in FirstSeen(entries)
    requires v.japanese == FirstSeen(entries)[k].japanese
    ensures |v.japanese| > 0 && Key(v) == k
    ensures i < |entries| && v.japanese == entries[i].japanese
  {
    i := FirstSeenIndex(entries, k);
  }

  /** Two entries with different keys, then a third with the first one's
      key: the map has exactly the two keys, the first entry is kept under
      its key, and only two keys are handed to enrichment. */
  lemma LaterDuplicateDiscarded(a: Word, b: Word, c: Word)
    requires |a.japanese| > 0 && |b.japanese| > 0 && |c.japanese| > 0
    requires Key(a) != Key(b) && Key(c) == Key(a)
    ensures FirstSeen([a, b, c]) == map[Key(a) := a, Key(b) := b]
    ensures FirstKeys([a, b, c]) == [Key(a), Key(b)]
  {
    assert [a, b, c][..2] == [a, b] && [a, b][..1] == [a] && [a][..0] == [];
    assert FirstSeen([a]) == map[Key(a) := a];
    assert FirstSeen([a, b]) == map[Key(a) := a, Key(b) := b];
    assert FirstKeys([a]) == [Key(a)];
    assert FirstKeys([a, b]) == [Key(a), Key(b)];
  }
}
