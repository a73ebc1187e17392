/** `get`: every request goes through a directory of cached responses,
    keyed by the escaped address, and a pool of ten permits that bounds the
    requests in flight. */
module Cache {
  import opened Bytes
  import opened Wrappers
  import opened Escaping

  const StatusOK: int := 200

  /** The number of permits `init` puts in the rate limiter. */
  const Permits: nat := 10

  const Dot: byte := 0x2E
  const Slash: byte := 0x2F
  const CacheDir: Str := Ascii("cache")

  /** The name of the cache file of `address` inside the cache directory. */
  function CacheName(address: Str): Str {
    PathEscape(address)
  }

  /** `filepath.Join("cache", CacheName(address))`. Joining cleans the
      path: an empty name or `.` leaves the cache directory itself, and
      `..` leads to the working directory. Every other name has no `/`
      (PathEscape escapes it) and is kept as it is. */
  function CachePath(address: Str): (p: Str)
    ensures CacheName(address) !in {[], [Dot], [Dot, Dot]} ==> p == CacheDir + [Slash] + CacheName(address)
  {
    var name := CacheName(address);
    if name == [] || name == [Dot] then CacheDir
    else if name == [Dot, Dot] then [Dot]
    else CacheDir + [Slash] + name
  }

  /** The addresses whose cache path is a directory: `os.Open` succeeds on
      a directory, so `get` takes them for cached answers. */
  predicate NamesDirectory(address: Str) {
    CacheName(address) in {[], [Dot], [Dot, Dot]}
  }

  /** Whether `get` answers from the disk without a request. */
  predicate IsHit(files: map<Str, Str>, address: Str) {
    NamesDirectory(address) || CacheName(address) in files
  }

  /** Exactly the empty address, `.` and `..` name a directory. */
  lemma DirectoryAddresses(address: Str)
    ensures NamesDirectory(address) <==> address in {[], [Dot], [Dot, Dot]}
  {
    assert PathEscape([]) == [];
    assert PathEscape([Dot]) == [Dot] by {
      assert [Dot][1..] == [];
    }
    assert PathEscape([Dot, Dot]) == [Dot, Dot] by {
      assert [Dot, Dot][1..] == [Dot];
      assert PathEscape([Dot]) == [Dot] by {
        assert [Dot][1..] == [];
      }
    }
    if NamesDirectory(address) {
      if CacheName(address) == [] {
        PathEscapeInjective(address, []);
      } else if CacheName(address) == [Dot] {
        PathEscapeInjective(address, [Dot]);
      } else {
        PathEscapeInjective(address, [Dot, Dot]);
      }
    }
  }

  /** What `http.Get(address)` gives: a transport error, or a status and a body. */
  datatype NetReply = NetError | Reply(status: int, body: Str)

  /** Which disk operation of a miss fails first, if any: creating the
      temporary file, copying the body into it, renaming it into place, or
      reopening the renamed file. */
  datatype DiskFault = NoFault | TempFails | CopyFails | RenameFails | ReopenFails

  /** What `get` returns: a status with the body when the status is 200,
      an error (status 0, no body), or status 200 with an opened directory
      as the body, which cannot be read as a file. */
  datatype Response = Response(status: int, body: Option<Str>) | Failure | DirectoryBody

  /** The observable steps of a miss, in order. */
  datatype Event = Acquired | Requested(address: Str) | Released

  /** The cache directory and the response after one call. */
  datatype GetResult = GetResult(files: map<Str, Str>, response: Response)

  /** `files` without `name`. */
  function Without(files: map<Str, Str>, name: Str): (r: map<Str, Str>)
    ensures r.Keys == files.Keys - {name}
    ensures forall f | f in r :: r[f] == files[f]
  {
    map f | f in files && f != name :: files[f]
  }

  /** Writing `tmp` and removing it again leaves a directory without
      `tmp` as it was. */
  lemma WriteThenRemove(files: map<Str, Str>, tmp: Str, v: Str)
    ensures Without(files[tmp := v], tmp) == Without(files, tmp)
    ensures tmp !in files ==> Without(files, tmp) == files
  {
  }

  /** One call of `get` on the cache directory `files`. On a miss, `tmp` is
      the fresh name of the temporary file; it is removed on every path. */
  function GetSpec(files: map<Str, Str>, address: Str, reply: NetReply, fault: DiskFault, tmp: Str): (o: GetResult)
    requires tmp !in files
    // A path that is a directory opens as one, and nothing is requested.
    ensures NamesDirectory(address) ==> o == GetResult(files, DirectoryBody)
    // A hit answers from the cache and changes nothing.
    ensures !NamesDirectory(address) && CacheName(address) in files ==>
      o == GetResult(files, Response(StatusOK, Some(files[CacheName(address)])))
    // A miss only ever adds the file of this address.
    ensures forall f | f != CacheName(address) ::
      (f in o.files <==> f in files) && (f in files ==> o.files[f] == files[f])
    // What is not a 200 answer is not stored.
    ensures !IsHit(files, address) && (reply.NetError? || reply.status != StatusOK) ==>
      o.files == files
    // A miss answered with another status hands that status on.
    ensures !IsHit(files, address) && reply.Reply? && reply.status != StatusOK && fault != TempFails ==>
      o.response == Response(reply.status, None)
    // A failed request, or a 200 answer the disk does not take, is an error.
    ensures !IsHit(files, address)
            && (reply.NetError? || fault == TempFails || (reply.Reply? && reply.status == StatusOK && fault != NoFault)) ==>
      o.response == Failure
    // A 200 answer is stored when it reaches the disk, and returned when
    // the stored file can be reopened.
    ensures !IsHit(files, address) && reply.Reply? && reply.status == StatusOK && tmp != CacheName(address) ==>
      && (fault in {NoFault, ReopenFails} ==> o.files == files[CacheName(address) := reply.body])
      && (fault !in {NoFault, ReopenFails} ==> o.files == files)
      && (fault == NoFault ==> o.response == Response(StatusOK, Some(reply.body)))
    ensures o.response.Response? && o.response.status == StatusOK ==> o.response.body.Some?
  {
    var name := CacheName(address);
    if NamesDirectory(address) then GetResult(files, DirectoryBody)
    else if name in files then GetResult(files, Response(StatusOK, Some(files[name])))
    else match reply
      case NetError => GetResult(files, Failure)
      case Reply(status, body) =>
        if fault == TempFails then GetResult(files, Failure)
        else if status != StatusOK then GetResult(files, Response(status, None))
        else if fault == CopyFails || fault == RenameFails then GetResult(files, Failure)
        else
          // The rename puts the body under `name`; the deferred removal of
          // `tmp` then deletes whatever is called `tmp`.
          var renamed := Without(files, tmp)[name := body];
          GetResult(Without(renamed, tmp), if fault == ReopenFails then Failure else Response(StatusOK, Some(body)))
  }

  /** The directory and response the miss path of Get leaves, as GetSpec
      states them. */
  lemma MissMatchesSpec(before: map<Str, Str>, address: Str, reply: NetReply, fault: DiskFault, tmp: Str,
                        files: map<Str, Str>, r: Response)
    requires tmp !in before && !IsHit(before, address)
    requires reply.NetError? || fault == TempFails ==> files == before && r == Failure
    requires reply.Reply? && fault != TempFails && reply.status != StatusOK ==>
      files == Without(before[tmp := []], tmp) && r == Response(reply.status, None)
    requires reply.Reply? && fault in {CopyFails, RenameFails} && reply.status == StatusOK ==>
      files == Without(before[tmp := []], tmp) || files == Without(before[tmp := []][tmp := reply.body], tmp)
    requires reply.Reply? && fault in {CopyFails, RenameFails} && reply.status == StatusOK ==> r == Failure
    requires reply.Reply? && fault in {NoFault, ReopenFails} && reply.status == StatusOK ==>
      var renamed := Without(before[tmp := []][tmp := reply.body], tmp)[CacheName(address) := reply.body];
      files == Without(renamed, tmp)
      && r == if fault == ReopenFails then Failure else Response(StatusOK, Some(renamed[CacheName(address)]))
    ensures GetResult(files, r) == GetSpec(before, address, reply, fault, tmp)
  {
    WriteThenRemove(before, tmp, []);
    if reply.Reply? {
      WriteThenRemove(before, tmp, reply.body);
      assert before[tmp := []][tmp := reply.body] == before[tmp := reply.body];
    }
  }

  /** The three events of a miss, appended one at a time. */
  lemma MissEvents(e: seq<Event>, address: Str)
    ensures e + [Acquired] + [Requested(address)] + [Released] == e + [Acquired, Requested(address), Released]
  {
  }

  /** The cache directory and the rate limiter. */
  class FetchCache {
    var files: map<Str, Str>
    var free: nat
    /** The requests made, with the permit taken and given back around each. */
    ghost var events: seq<Event>

    /** `init`: the rate limiter holds all its permits; the cache directory
        holds whatever earlier runs left in it. */
    constructor (existing: map<Str, Str>)
      ensures files == existing && free == Permits && events == []
    {
      files := existing;
      free := Permits;
      events := [];
    }

    /** `get(address)`. The network's answer and the disk's failures are
        parameters. A permit must be free: the program would otherwise wait
        for one, and in this sequential model none is held between calls. */
    method Get(address: Str, reply: NetReply, fault: DiskFault, tmp: Str) returns (r: Response)
      requires free > 0
      requires tmp !in files
      modifies this
      ensures GetResult(files, r) == GetSpec(old(files), address, reply, fault, tmp)
      ensures free == old(free)
      ensures IsHit(old(files), address) ==> events == old(events)
      ensures !IsHit(old(files), address) ==> events == old(events) + [Acquired, Requested(address), Released]
    {
      ghost var before := files;
      var name := CacheName(address);
      if name == [] || name == [Dot] || name == [Dot, Dot] {
        r := DirectoryBody;
        return;
      }
      if name in files {
        r := Response(StatusOK, Some(files[name]));
        return;
      }
      free := free - 1;
      events := events + [Acquired];
      events := events + [Requested(address)];
      match reply {
        case NetError =>
          r := Failure;
        case Reply(status, body) =>
          if fault == TempFails {
            r := Failure;
          } else {
            files := files[tmp := []];
            if status != StatusOK {
              r := Response(status, None);
            } else if fault == CopyFails {
              r := Failure;
            } else {
              files := files[tmp := body];
              if fault == RenameFails {
                r := Failure;
              } else {
                var contents := files[tmp];
                files := Without(files, tmp)[name := contents];
                if fault == ReopenFails {
                  r := Failure;
                } else {
                  r := Response(StatusOK, Some(files[name]));
                }
              }
            }
            files := Without(files, tmp);
          }
      }
      events := events + [Released];
      free := free + 1;
      MissMatchesSpec(before, address, reply, fault, tmp, files, r);
      MissEvents(old(events), address);
    }
  }

  /** A second call for an address just answered with 200 gives the same
      response and changes nothing, whatever the network and the disk would
      do this time: the body stored by the first call, or the directory. */
  lemma GetTwice(files: map<Str, Str>, address: Str, reply: NetReply, tmp: Str,
                 reply2: NetReply, fault2: DiskFault, tmp2: Str)
    requires tmp !in files && CacheName(address) !in files && tmp != CacheName(address)
    requires reply.Reply? && reply.status == StatusOK
    requires tmp2 !in GetSpec(files, address, reply, NoFault, tmp).files
    ensures var o := GetSpec(files, address, reply, NoFault, tmp);
      GetSpec(o.files, address, reply2, fault2, tmp2) == GetResult(o.files, o.response)
      && (!NamesDirectory(address) ==> o.response == Response(StatusOK, Some(reply.body)))
  {
  }

  /** Two different addresses share a cache path only when they are the
      empty address and `.`, which both lead to the cache directory itself. */
  lemma CacheNamesDistinct(a: Str, b: Str)
    requires a != b
    ensures CacheName(a) != CacheName(b)
    ensures CachePath(a) == CachePath(b) <==> (a == [] && b == [Dot]) || (a == [Dot] && b == [])
  {
    if CacheName(a) == CacheName(b) {
      PathEscapeInjective(a, b);
    }
    DirectoryAddresses(a);
    DirectoryAddresses(b);
    if !NamesDirectory(a) && !NamesDirectory(b) && CachePath(a) == CachePath(b) {
      DropPrefix(CacheDir + [Slash], CacheName(a));
      DropPrefix(CacheDir + [Slash], CacheName(b));
    }
  }
}
