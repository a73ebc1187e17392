/** The audio files of an entry: `getAudios`, which reads the `<source>`
    children of an `<audio>` element, and `downloadAudios`, which drops the
    files the server does not have and names the others. */
module AudioSets {
  import opened Bytes
  import opened Wrappers
  import opened Paths
  import opened Entries

  /** An HTML attribute. */
  datatype Attr = Attr(key: Str, val: Str)

  const SrcKey: Str := Ascii("src")
  const TypeKey: Str := Ascii("type")

  /** The value of the last attribute named `key`, or "" when there is none. */
  function LastValue(attrs: seq<Attr>, key: Str): Str {
    if attrs == [] then []
    else if attrs[|attrs| - 1].key == key then attrs[|attrs| - 1].val
    else LastValue(attrs[..|attrs| - 1], key)
  }

  /** Which attribute LastValue picks: the last one named `key`, or none. */
  lemma {:induction false} LastValueIsLast(attrs: seq<Attr>, key: Str)
    ensures (forall i | 0 <= i < |attrs| :: attrs[i].key != key) ==> LastValue(attrs, key) == []
    ensures (exists i | 0 <= i < |attrs| :: attrs[i].key == key) ==>
      exists i | 0 <= i < |attrs| :: attrs[i].key == key && LastValue(attrs, key) == attrs[i].val
        && forall j | i < j < |attrs| :: attrs[j].key != key
  {
    if attrs != [] {
      var init := attrs[..|attrs| - 1];
      LastValueIsLast(init, key);
      if attrs[|attrs| - 1].key != key {
        if exists i | 0 <= i < |attrs| :: attrs[i].key == key {
          var i :| 0 <= i < |attrs| && attrs[i].key == key;
          assert init[i] == attrs[i];
        }
      }
    }
  }

  /** The map `getAudios` builds from the attribute lists of the children,
      in document order. Each child is entered under its `type` with its
      `src`; a later child of the same type replaces an earlier one. A child
      with no attributes (a text node between the tags) is entered under
      "" with an empty address. */
  function AudioMap(children: seq<seq<Attr>>): map<Str, Audio> {
    if children == [] then map[]
    else
      var last := children[|children| - 1];
      AudioMap(children[..|children| - 1])[LastValue(last, TypeKey) := Audio(LastValue(last, SrcKey), [])]
  }

  /** `getAudios`: the loop over the children and, inside it, over each
      child's attributes. */
  method GetAudios(children: seq<seq<Attr>>) returns (audios: map<Str, Audio>)
    ensures audios == AudioMap(children)
  {
    audios := map[];
    for c := 0 to |children|
      invariant audios == AudioMap(children[..c])
    {
      var attrs := children[c];
      var src: Str := [];
      var typ: Str := [];
      for a := 0 to |attrs|
        invariant src == LastValue(attrs[..a], SrcKey)
        invariant typ == LastValue(attrs[..a], TypeKey)
      {
        assert attrs[..a + 1][..a] == attrs[..a];
        if attrs[a].key == SrcKey {
          src := attrs[a].val;
        } else if attrs[a].key == TypeKey {
          typ := attrs[a].val;
        }
      }
      assert attrs[..|attrs|] == attrs;
      assert children[..c + 1][..c] == children[..c];
      audios := audios[typ := Audio(src, [])];
    }
    assert children[..|children|] == children;
  }

  function TypeOf(child: seq<Attr>): Str {
    LastValue(child, TypeKey)
  }

  function SrcOf(child: seq<Attr>): Str {
    LastValue(child, SrcKey)
  }

  /** One entry per type present among the children. */
  lemma {:induction false} AudioMapKeys(children: seq<seq<Attr>>)
    ensures forall t :: t in AudioMap(children) <==> exists c | 0 <= c < |children| :: TypeOf(children[c]) == t
  {
    if children != [] {
      var n := |children| - 1;
      var init := children[..n];
      AudioMapKeys(init);
      forall t
        ensures t in AudioMap(children) <==> exists c | 0 <= c < |children| :: TypeOf(children[c]) == t
      {
        if exists c | 0 <= c < |children| :: TypeOf(children[c]) == t {
          var c :| 0 <= c < |children| && TypeOf(children[c]) == t;
          if c < n {
            assert TypeOf(init[c]) == t;
          }
        }
        if t in AudioMap(init) {
          var c :| 0 <= c < n && TypeOf(init[c]) == t;
          assert TypeOf(children[c]) == t;
        }
      }
    }
  }

  /** The entry for a type holds the address of the last child of that
      type, and no file name yet. */
  lemma {:induction false} AudioMapLastWins(children: seq<seq<Attr>>, t: Str) returns (c: nat)
    requires t in AudioMap(children)
    ensures c < |children| && TypeOf(children[c]) == t
    ensures AudioMap(children)[t] == Audio(SrcOf(children[c]), [])
    ensures forall d | c < d < |children| :: TypeOf(children[d]) != t
  {
    var n := |children| - 1;
    if TypeOf(children[n]) == t {
      c := n;
    } else {
      var init := children[..n];
      c := AudioMapLastWins(init, t);
      assert forall d | c <= d < n :: init[d] == children[d];
    }
  }

  /** `downloadAudios` as a whole: the run stops if any address gives an
      unexpected answer; otherwise the files the server does not have are
      dropped and every other one is named after the last element of its
      address. */
  function Pruned(audios: map<Str, Audio>, fetch: Str -> AudioFetch): (r: Outcome<map<Str, Audio>>)
    ensures r.Panic? <==> exists t | t in audios :: fetch(audios[t].src).AudioFailed?
    ensures r.Ok? ==> r.value.Keys <= audios.Keys
    ensures r.Ok? ==> forall t | t in audios :: fetch(audios[t].src).AudioMissing? <==> t !in r.value
    ensures r.Ok? ==> forall t | t in r.value ::
      && r.value[t].src == audios[t].src
      && r.value[t].filename == Base(audios[t].src)
  {
    if exists t | t in audios :: fetch(audios[t].src).AudioFailed? then Panic
    else Ok(map t | t in audios && fetch(audios[t].src).AudioOK? :: audios[t].(filename := Base(audios[t].src)))
  }

  /** The map while `downloadAudios` runs: the entries still to request
      (`todo`) are untouched, the others have been pruned and named. */
  ghost function Partial(audios: map<Str, Audio>, fetch: Str -> AudioFetch, todo: set<Str>): map<Str, Audio> {
    map t | t in audios && (t in todo || fetch(audios[t].src).AudioOK?) ::
      if t in todo then audios[t] else audios[t].(filename := Base(audios[t].src))
  }

  /** A 404 for `t` removes it. */
  lemma MissingRemoves(audios: map<Str, Audio>, fetch: Str -> AudioFetch, todo: set<Str>, t: Str)
    requires t in todo && t in audios && fetch(audios[t].src).AudioMissing?
    ensures Partial(audios, fetch, todo - {t}) == map u | u in Partial(audios, fetch, todo) && u != t :: Partial(audios, fetch, todo)[u]
  {
  }

  /** A 200 for `t` names it. */
  lemma FoundNames(audios: map<Str, Audio>, fetch: Str -> AudioFetch, todo: set<Str>, t: Str)
    requires t in todo && t in audios && fetch(audios[t].src).AudioOK?
    ensures Partial(audios, fetch, todo - {t})
         == Partial(audios, fetch, todo)[t := audios[t].(filename := Base(audios[t].src))]
  {
  }

  /** Once every entry has been requested without failure, the map is the
      pruned one. */
  lemma DoneIsPruned(audios: map<Str, Audio>, fetch: Str -> AudioFetch)
    requires forall t | t in audios :: !fetch(audios[t].src).AudioFailed?
    ensures Pruned(audios, fetch) == Ok(Partial(audios, fetch, {}))
  {
    var p := Partial(audios, fetch, {});
    var q := map t | t in audios && fetch(audios[t].src).AudioOK? :: audios[t].(filename := Base(audios[t].src));
    assert p.Keys == q.Keys;
    assert forall t | t in p :: p[t] == q[t];
    assert !exists t | t in audios :: fetch(audios[t].src).AudioFailed?;
    assert Pruned(audios, fetch) == Ok(q);
    assert p == q;
  }

  /** `downloadAudios`: a request per entry, in some order. A 404 deletes
      the entry and a 200 sets its file name; writing the file to disk is
      not modelled. */
  method DownloadAudios(audios: map<Str, Audio>, fetch: Str -> AudioFetch) returns (r: Outcome<map<Str, Audio>>)
    ensures r == Pruned(audios, fetch)
  {
    var result := audios;
    var todo := audios.Keys;
    assert result == Partial(audios, fetch, todo);
    while todo != {}
      invariant todo <= audios.Keys
      invariant forall t | t in audios && t !in todo :: !fetch(audios[t].src).AudioFailed?
      invariant result == Partial(audios, fetch, todo)
      decreases |todo|
    {
      var t :| t in todo;
      var audio := result[t];
      match fetch(audio.src) {
        case AudioMissing =>
          MissingRemoves(audios, fetch, todo, t);
          result := map u | u in result && u != t :: result[u];
        case AudioFailed =>
          assert audio == audios[t];
          r := Panic;
          return;
        case AudioOK =>
          FoundNames(audios, fetch, todo, t);
          result := result[t := audio.(filename := Base(audio.src))];
      }
      todo := todo - {t};
    }
    DoneIsPruned(audios, fetch);
    r := Ok(result);
  }

  /** Pruning a pruned set with the same server changes nothing. */
  lemma PrunedIdempotent(audios: map<Str, Audio>, fetch: Str -> AudioFetch)
    requires Pruned(audios, fetch).Ok?
    ensures Pruned(Pruned(audios, fetch).value, fetch) == Pruned(audios, fetch)
  {
    var m := Pruned(audios, fetch).value;
    assert Pruned(m, fetch).value == m;
  }

  /** A page with one audio file the server has and one it does not: only
      the first is kept, named after its address. */
  lemma OneFoundOneMissing(t1: Str, a1: Audio, t2: Str, a2: Audio, fetch: Str -> AudioFetch)
    requires t1 != t2
    requires fetch(a1.src) == AudioOK && fetch(a2.src) == AudioMissing
    ensures Pruned(map[t1 := a1, t2 := a2], fetch) == Ok(map[t1 := a1.(filename := Base(a1.src))])
  {
    var audios := map[t1 := a1, t2 := a2];
    assert audios[t1] == a1 && audios[t2] == a2;
    assert forall t | t in audios :: !fetch(audios[t].src).AudioFailed?;
    var m := Pruned(audios, fetch).value;
    assert m.Keys == {t1};
    assert m[t1] == a1.(filename := Base(a1.src));
    assert m == map[t1 := a1.(filename := Base(a1.src))];
  }
}
