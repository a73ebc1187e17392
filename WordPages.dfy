/** `findAndParseWordPage`: find the detail page of an entry by trying its
    written forms and readings in order. */
module WordPages {
  import opened Bytes
  import opened Wrappers
  import opened Urls
  import opened Entries

  /** The identifiers of the pairs in list order, each pair's written form
      before its reading. */
  function Flatten(js: seq<Japanese>): (xs: seq<Str>)
    ensures |xs| == 2 * |js|
  {
    if js == [] then [] else [js[0].word, js[0].reading] + Flatten(js[1..])
  }

  /** `xs` in order, without the empty strings, without the strings in
      `tried`, and keeping only the first occurrence of each string. */
  function Fresh(xs: seq<Str>, tried: set<Str>): seq<Str> {
    if xs == [] then []
    else if xs[0] in tried || xs[0] == [] then Fresh(xs[1..], tried)
    else [xs[0]] + Fresh(xs[1..], tried + {xs[0]})
  }

  /** The identifiers `findAndParseWordPage` tries, in the order it tries
      them when none is found. */
  function Candidates(js: seq<Japanese>): seq<Str> {
    Fresh(Flatten(js), {})
  }

  /** The outcome of a lookup: the identifier whose detail page exists and
      what was extracted from it, or nothing found. */
  datatype Resolution = Resolved(id: Str, page: Page) | Unresolved

  /** Probing the candidates `cs` in order; the first page found wins, and
      an unexpected answer aborts the run. */
  function Search(cs: seq<Str>, web: Web): Outcome<Resolution> {
    if cs == [] then Ok(Unresolved)
    else match web.wordPage(UrlWordPage(cs[0]))
      case PageFound(p) => Ok(Resolved(cs[0], p))
      case PageMissing => Search(cs[1..], web)
      case PageFailed => Panic
  }

  /** The identifiers whose detail pages Search requests, in order. */
  function ProbeLog(cs: seq<Str>, web: Web): seq<Str> {
    if cs == [] then []
    else if web.wordPage(UrlWordPage(cs[0])).PageMissing? then [cs[0]] + ProbeLog(cs[1..], web)
    else [cs[0]]
  }

  /** The lookup performed for `w` (the specification of FindWordPage). */
  function Lookup(w: Word, web: Web): Outcome<Resolution> {
    Search(Candidates(w.japanese), web)
  }

  /** Fresh on a cons: the head is kept exactly when it is new. */
  lemma FreshCons(x: Str, rest: seq<Str>, tried: set<Str>)
    ensures Fresh([x] + rest, tried)
         == if x in tried || x == [] then Fresh(rest, tried) else [x] + Fresh(rest, tried + {x})
  {
    assert ([x] + rest)[1..] == rest;
  }

  /** Flatten of a suffix starts with the first pair's two strings. */
  lemma FlattenFrom(js: seq<Japanese>, i: nat)
    requires i < |js|
    ensures Flatten(js[i..]) == [js[i].word, js[i].reading] + Flatten(js[i + 1..])
  {
    assert js[i..][1..] == js[i + 1..];
  }

  /** One request of the search, for a fresh identifier `x`: a found page
      ends the search, a failure panics, a missing page moves on with `x`
      remembered. */
  lemma ProbeStep(x: Str, rest: seq<Str>, tried: set<Str>, web: Web)
    requires x !in tried && x != []
    ensures Fresh([x] + rest, tried) == [x] + Fresh(rest, tried + {x})
    ensures web.wordPage(UrlWordPage(x)).PageFound? ==>
      && Search(Fresh([x] + rest, tried), web) == Ok(Resolved(x, web.wordPage(UrlWordPage(x)).page))
      && ProbeLog(Fresh([x] + rest, tried), web) == [x]
    ensures web.wordPage(UrlWordPage(x)).PageFailed? ==>
      && Search(Fresh([x] + rest, tried), web) == Panic
      && ProbeLog(Fresh([x] + rest, tried), web) == [x]
    ensures web.wordPage(UrlWordPage(x)).PageMissing? ==>
      && Search(Fresh([x] + rest, tried), web) == Search(Fresh(rest, tried + {x}), web)
      && ProbeLog(Fresh([x] + rest, tried), web) == [x] + ProbeLog(Fresh(rest, tried + {x}), web)
  {
    FreshCons(x, rest, tried);
    var later := Fresh(rest, tried + {x});
    assert ([x] + later)[1..] == later;
  }

  /** The loop of `findAndParseWordPage`. `tried` is the set of identifiers
      already requested; `probes` records the requests in order. */
  method FindWordPage(w: Word, web: Web) returns (r: Outcome<Resolution>, probes: seq<Str>)
    ensures r == Lookup(w, web)
    ensures probes == ProbeLog(Candidates(w.japanese), web)
  {
    var js := w.japanese;
    var tried: set<Str> := {};
    probes := [];
    for i := 0 to |js|
      invariant Lookup(w, web) == Search(Fresh(Flatten(js[i..]), tried), web)
      invariant ProbeLog(Candidates(js), web) == probes + ProbeLog(Fresh(Flatten(js[i..]), tried), web)
    {
      FlattenFrom(js, i);
      var pair := [js[i].word, js[i].reading];
      ghost var todo := pair + Flatten(js[i + 1..]);
      for j := 0 to 2
        invariant todo == pair[j..] + Flatten(js[i + 1..])
        invariant Lookup(w, web) == Search(Fresh(todo, tried), web)
        invariant ProbeLog(Candidates(js), web) == probes + ProbeLog(Fresh(todo, tried), web)
      {
        var reading := pair[j];
        var rest := pair[j + 1..] + Flatten(js[i + 1..]);
        ConsSplit(pair, j, Flatten(js[i + 1..]));
        FreshCons(reading, rest, tried);
        if reading !in tried && reading != [] {
          ProbeStep(reading, rest, tried, web);
          match web.wordPage(UrlWordPage(reading)) {
            case PageFound(p) =>
              probes := probes + [reading];
              r := Ok(Resolved(reading, p));
              return;
            case PageMissing =>
              tried := tried + {reading};
              probes := probes + [reading];
            case PageFailed =>
              probes := probes + [reading];
              r := Panic;
              return;
          }
        }
        todo := rest;
      }
      assert todo == Flatten(js[i + 1..]) by {
        assert pair[2..] == [];
      }
    }
    r := Ok(Unresolved);
    assert js[|js|..] == [];
  }

  /** `xs` is `ys` with some elements left out, order kept. */
  predicate IsSubseq(xs: seq<Str>, ys: seq<Str>)
    decreases |ys|
  {
    xs == [] || (ys != [] && ((xs[0] == ys[0] && IsSubseq(xs[1..], ys[1..])) || IsSubseq(xs, ys[1..])))
  }

  predicate NoDuplicates(xs: seq<Str>) {
    forall k, l | 0 <= k < l < |xs| :: xs[k] != xs[l]
  }

  /** The position of the first occurrence of `x` in `xs`. */
  function FirstIndex(xs: seq<Str>, x: Str): (k: nat)
    requires x in xs
    ensures k < |xs| && xs[k] == x
    ensures forall j | 0 <= j < k :: xs[j] != x
  {
    if xs[0] == x then 0 else 1 + FirstIndex(xs[1..], x)
  }

  /** What Fresh keeps: exactly the non-empty, untried strings of `xs`, each
      once, in the order of their first occurrences in `xs`. */
  lemma {:induction false} FreshFacts(xs: seq<Str>, tried: set<Str>)
    ensures forall x :: x in Fresh(xs, tried) <==> x in xs && x != [] && x !in tried
    ensures NoDuplicates(Fresh(xs, tried))
    ensures IsSubseq(Fresh(xs, tried), xs)
    ensures forall i, j | 0 <= i < j < |Fresh(xs, tried)| ::
      FirstIndex(xs, Fresh(xs, tried)[i]) < FirstIndex(xs, Fresh(xs, tried)[j])
    decreases |xs|
  {
    if xs != [] {
      var rest := xs[1..];
      assert xs == [xs[0]] + rest;
      if xs[0] in tried || xs[0] == [] {
        FreshFacts(rest, tried);
        var g := Fresh(rest, tried);
        forall i, j | 0 <= i < j < |g|
          ensures FirstIndex(xs, g[i]) < FirstIndex(xs, g[j])
        {
          assert g[i] != xs[0] && g[j] != xs[0];
        }
      } else {
        var t := tried + {xs[0]};
        FreshFacts(rest, t);
        var f := Fresh(rest, t);
        assert Fresh(xs, tried) == [xs[0]] + f;
        assert ([xs[0]] + f)[1..] == f;
        forall x
          ensures x in Fresh(xs, tried) <==> x in xs && x != [] && x !in tried
        {
          if x in rest && x != [] && x !in tried && x != xs[0] {
            assert x in f;
          }
        }
        var kept := [xs[0]] + f;
        forall i, j | 0 <= i < j < |kept|
          ensures FirstIndex(xs, kept[i]) < FirstIndex(xs, kept[j])
        {
          assert kept[j] == f[j - 1] && kept[j] != xs[0];
          if i > 0 {
            assert kept[i] == f[i - 1] && kept[i] != xs[0];
          }
        }
      }
    }
  }

  /** The identifiers tried for an entry: every non-empty written form and
      reading, each once, in list order (written form before reading). */
  lemma CandidatesFacts(js: seq<Japanese>)
    ensures forall x :: x in Candidates(js) <==> x in Flatten(js) && x != []
    ensures NoDuplicates(Candidates(js))
    ensures IsSubseq(Candidates(js), Flatten(js))
    ensures forall i, j | 0 <= i < j < |Candidates(js)| ::
      FirstIndex(Flatten(js), Candidates(js)[i]) < FirstIndex(Flatten(js), Candidates(js)[j])
  {
    FreshFacts(Flatten(js), {});
  }

  /** Two pairs sharing their written form: the written form is tried once,
      first, and then the two readings in order. */
  lemma SharedWrittenForm(w: Str, r1: Str, r2: Str)
    requires w != [] && r1 != [] && r2 != []
    requires w != r1 && w != r2 && r1 != r2
    ensures Candidates([Japanese(w, r1), Japanese(w, r2)]) == [w, r1, r2]
  {
    var js := [Japanese(w, r1), Japanese(w, r2)];
    assert js[1..] == [Japanese(w, r2)] && js[1..][1..] == [];
    assert Flatten(js) == [w, r1] + [w, r2];
    assert [w, r1] + [w, r2] == [w] + ([r1] + ([w] + ([r2] + [])));
    FreshCons(w, [r1] + ([w] + ([r2] + [])), {});
    FreshCons(r1, [w] + ([r2] + []), {} + {w});
    FreshCons(w, [r2] + [], {} + {w} + {r1});
    FreshCons(r2, [], {} + {w} + {r1});
    assert [w] + ([r1] + ([r2] + [])) == [w, r1, r2];
  }

  /** Flatten lists exactly the written forms and readings. */
  lemma {:induction false} FlattenMembers(js: seq<Japanese>, x: Str)
    ensures x in Flatten(js) <==> exists k | 0 <= k < |js| :: x == js[k].word || x == js[k].reading
  {
    if js != [] {
      FlattenMembers(js[1..], x);
      assert forall k | 1 <= k < |js| :: js[k] == js[1..][k - 1];
      if x in Flatten(js[1..]) {
        var k :| 0 <= k < |js[1..]| && (x == js[1..][k].word || x == js[1..][k].reading);
        assert x == js[k + 1].word || x == js[k + 1].reading;
      }
    }
  }

  /** What a probe sequence tells: the requests stop at the first page
      found or the first failure; every request before the last met a
      missing page; a found page is that of the last identifier requested;
      and nothing found means every candidate was requested and missing. */
  lemma {:induction false} SearchProbes(cs: seq<Str>, web: Web)
    ensures |ProbeLog(cs, web)| <= |cs| && ProbeLog(cs, web) == cs[..|ProbeLog(cs, web)|]
    ensures forall k | 0 <= k < |ProbeLog(cs, web)| - 1 ::
      web.wordPage(UrlWordPage(ProbeLog(cs, web)[k])).PageMissing?
    ensures Search(cs, web) == Ok(Unresolved) <==>
      ProbeLog(cs, web) == cs && forall k | 0 <= k < |cs| :: web.wordPage(UrlWordPage(cs[k])).PageMissing?
    ensures Search(cs, web).Ok? && Search(cs, web).value.Resolved? ==>
      var id := Search(cs, web).value.id;
      ProbeLog(cs, web) != [] && id == ProbeLog(cs, web)[|ProbeLog(cs, web)| - 1]
      && web.wordPage(UrlWordPage(id)) == PageFound(Search(cs, web).value.page)
    ensures Search(cs, web) == Panic <==>
      ProbeLog(cs, web) != [] && web.wordPage(UrlWordPage(ProbeLog(cs, web)[|ProbeLog(cs, web)| - 1])).PageFailed?
    decreases |cs|
  {
    if cs != [] {
      var log := ProbeLog(cs, web);
      var rest := ProbeLog(cs[1..], web);
      SearchProbes(cs[1..], web);
      if web.wordPage(UrlWordPage(cs[0])).PageMissing? {
        assert log == [cs[0]] + rest;
        assert cs == [cs[0]] + cs[1..];
        assert forall k | 1 <= k < |log| :: log[k] == rest[k - 1];
        assert forall k | 1 <= k < |cs| :: cs[k] == cs[1..][k - 1];
        if log != [] {
          assert log[|log| - 1] == if rest == [] then cs[0] else rest[|rest| - 1];
        }
      }
    }
  }

  /** An entry with one pair whose written form has no page but whose
      reading has one resolves to the reading, after exactly two requests. */
  lemma ReadingFallback(j: Japanese, audios: map<Str, Audio>, cols: seq<Collocation>, web: Web, p: Page)
    requires j.word != [] && j.reading != [] && j.word != j.reading
    requires web.wordPage(UrlWordPage(j.word)) == PageMissing
    requires web.wordPage(UrlWordPage(j.reading)) == PageFound(p)
    ensures Lookup(Word([j], [], audios, cols), web) == Ok(Resolved(j.reading, p))
    ensures ProbeLog(Candidates([j]), web) == [j.word, j.reading]
  {
    assert Flatten([j]) == [j.word, j.reading] by {
      assert [j][1..] == [];
    }
    FreshCons(j.word, [j.reading], {});
    FreshCons(j.reading, [], {j.word});
    assert {} + {j.word} == {j.word};
    assert [j.word] + [j.reading] == [j.word, j.reading];
    assert [j.reading] + [] == [j.reading];
    var cs := [j.word, j.reading];
    assert cs[1..] == [j.reading] && [j.reading][1..] == [];
    assert Search([j.reading], web) == Ok(Resolved(j.reading, p));
    assert Search(cs, web) == Search([j.reading], web);
  }
}
