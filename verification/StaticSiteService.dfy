/** The handler of pingoo/services/http_static_site_service.rs run from start to end while no
    file changes: unless a file operation fails, it answers with its cache exactly what it
    would answer without. */
module StaticSiteService {
  import opened Wrappers
  import opened ETag
  import opened StaticSite

  datatype Entry = Entry(modifiedAt: nat, size: nat, data: seq<Byte>)

  /** Status, `Content-Length`, `ETag` and body. */
  datatype Reply = Reply(status: nat, length: Option<nat>, etag: Option<string>, body: seq<Byte>)

  function Failure(status: nat): Reply { Reply(status, None, None, []) }

  /** The file a path stands for: itself, its index or its `.html` twin. */
  function Target(setup: Setup, fs: FileSystem, path: Path): Path {
    if path in fs && fs[path].Dir? then setup.indexOf(path)
    else if path !in fs && !setup.hasExtension(path) then setup.withHtml(path)
    else path
  }

  function TagOf(setup: Setup, path: Path, file: Node): Option<string>
    requires file.File?
  {
    if file.modifiedAt.Some? then Some(EntityTag(setup.digest, path, |file.content|, file.modifiedAt.value)) else None
  }

  /** The answer of a service that has no cache at all. */
  function Uncached(setup: Setup, fs: FileSystem, req: Request): Reply {
    var path := Target(setup, fs, req.path);
    if !req.getOrHead then Failure(405)
    else if path !in fs || fs[path].Dir? then Failure(404)
    else
      var file := fs[path];
      var tag := TagOf(setup, path, file);
      if tag.Some? && req.ifNoneMatch.Some? && Matches(tag.value, req.ifNoneMatch.value)
      then Reply(304, Some(|file.content|), tag, [])
      else Reply(200, Some(|file.content|), tag, file.content)
  }

  /** Which file operations of a call fail: the first and the second metadata read, the read
      of the whole file, its opening. */
  datatype Faults = Faults(look: bool, again: bool, read: bool, open: bool)

  predicate LooksTwice(setup: Setup, fs: FileSystem, path: Path) {
    if path in fs then fs[path].Dir? else !setup.hasExtension(path)
  }

  /** The entry looks like the file. */
  predicate UpToDate(fs: FileSystem, path: Path, entry: Entry) {
    path in fs && fs[path].File? && fs[path].modifiedAt == Some(entry.modifiedAt) && |fs[path].content| == entry.size
  }

  /** The answers whose content the cache keeps. */
  predicate Keeps(r: Reply) { r.status == 200 && r.etag.Some? && |r.body| <= CACHING_FILE_SIZE_LIMIT }

  predicate LookFails(setup: Setup, fs: FileSystem, req: Request, faults: Faults) {
    req.getOrHead && (faults.look || (LooksTwice(setup, fs, req.path) && faults.again))
  }

  /** The content is needed and cannot be had: an entry that is up to date makes up for a
      file that cannot be read. */
  predicate ContentFails(setup: Setup, fs: FileSystem, req: Request, faults: Faults, cache: map<Path, Entry>) {
    var path, r := Target(setup, fs, req.path), Uncached(setup, fs, req);
    && r.status == 200
    && if Keeps(r) then faults.read && !(path in cache && UpToDate(fs, path, cache[path])) else faults.open
  }

  class StaticSiteService {
    const setup: Setup
    var cache: map<Path, Entry>

    constructor (setup: Setup)
      ensures this.setup == setup && cache == map[]
    {
      this.setup := setup;
      cache := map[];
    }

    /** An entry with a file's stamp and size has that file's content. */
    ghost predicate Agrees(fs: FileSystem)
      reads this`cache
    {
      forall path :: path in cache && UpToDate(fs, path, cache[path]) ==> fs[path].content == cache[path].data
    }

    method TryMetadata(fs: FileSystem, path: Path, fails: bool) returns (r: Result<Node, Reply>)
      ensures r == if fails then Err(Failure(500))
                   else if path in fs && fs[path].File? then Ok(fs[path]) else Err(Failure(404))
    {
      if fails {
        return Err(Failure(500));
      }
      if path !in fs || fs[path].Dir? {
        return Err(Failure(404));
      }
      return Ok(fs[path]);
    }

    method HandleHttpRequest(fs: FileSystem, req: Request, faults: Faults) returns (r: Reply)
      requires Agrees(fs)
      modifies this`cache
      ensures var fails := LookFails(setup, fs, req, faults) || ContentFails(setup, fs, req, faults, old(cache));
              r == if fails then Failure(500) else Uncached(setup, fs, req)
      ensures var twice := if req.path in fs then fs[req.path].Dir? else !setup.hasExtension(req.path);
              LookFails(setup, fs, req, faults) <==> req.getOrHead && (faults.look || (twice && faults.again))
      ensures var (path, u) := (Target(setup, fs, req.path), Uncached(setup, fs, req));
              ContentFails(setup, fs, req, faults, old(cache)) <==>
                && u.status == 200
                && if u.etag.Some? && |u.body| <= 500_000
                   then faults.read && !(path in old(cache) && Some(old(cache)[path].modifiedAt) == fs[path].modifiedAt
                                         && old(cache)[path].size == |fs[path].content|)
                   else faults.open
      ensures Agrees(fs)
      ensures var path := Target(setup, fs, req.path);
              cache == if r.status == 200 && r.etag.Some? && |r.body| <= 500_000
                       then old(cache)[path := Entry(fs[path].modifiedAt.value, |r.body|, r.body)]
                       else if !LookFails(setup, fs, req, faults) && Keeps(Uncached(setup, fs, req))
                       then old(cache) - {path}
                       else old(cache)
    {
      hide EntityTag, Matches;
      if !req.getOrHead {
        return Failure(405);
      }
      if faults.look {
        return Failure(500);
      }
      var filePath := req.path;
      var metadata: Node;
      if filePath in fs && fs[filePath].Dir? {
        filePath := setup.indexOf(filePath);
        var res := TryMetadata(fs, filePath, faults.again);
        if res.Err? {
          return res.error;
        }
        metadata := res.value;
      } else if filePath in fs {
        metadata := fs[filePath];
      } else {
        if setup.hasExtension(filePath) {
          return Failure(404);
        }
        filePath := setup.withHtml(filePath);
        var res := TryMetadata(fs, filePath, faults.again);
        if res.Err? {
          return res.error;
        }
        metadata := res.value;
      }
      r := Serve(fs, req, faults, filePath, metadata);
    }

    /** Lines 130-256: the answer for a file whose metadata has been read. */
    method Serve(fs: FileSystem, req: Request, faults: Faults, filePath: Path, metadata: Node) returns (r: Reply)
      requires Agrees(fs) && req.getOrHead
      requires filePath == Target(setup, fs, req.path) && filePath in fs && fs[filePath] == metadata && metadata.File?
      modifies this`cache
      ensures r == if ContentFails(setup, fs, req, faults, old(cache)) then Failure(500) else Uncached(setup, fs, req)
      ensures Agrees(fs)
      ensures cache == if Keeps(r) then old(cache)[filePath := Entry(metadata.modifiedAt.value, |r.body|, r.body)]
                       else if Keeps(Uncached(setup, fs, req)) then old(cache) - {filePath}
                       else old(cache)
    {
      hide EntityTag, Matches, Target;
      var size := |metadata.content|;
      r := Reply(200, Some(size), None, []);
      if metadata.modifiedAt.Some? {
        var modifiedAt := metadata.modifiedAt.value;
        var etag := EntityTag(setup.digest, filePath, size, modifiedAt);
        r := r.(etag := Some(etag));
        if req.ifNoneMatch.Some? && Matches(etag, req.ifNoneMatch.value) {
          return r.(status := 304);
        }
        if size <= CACHING_FILE_SIZE_LIMIT {
          if filePath in cache {
            var cached := cache[filePath];
            if cached.modifiedAt == modifiedAt && cached.size == size {
              return r.(body := cached.data);
            } else {
              cache := cache - {filePath};
            }
          }
          if faults.read {
            return Failure(500);
          }
          var content := fs[filePath].content;
          cache := cache[filePath := Entry(modifiedAt, size, content)];
          return r.(body := content);
        }
      }
      if faults.open {
        return Failure(500);
      }
      r := r.(body := fs[filePath].content);
    }
  }

  // The steps of StaticSite, left alone, come to the same answer

  /** A step system's response without its history. */
  function View(setup: Setup, r: Response): Reply {
    match r
    case MethodNotAllowed => Failure(405)
    case NotFound => Failure(404)
    case InternalError => Failure(500)
    case NotModified(m, _) => Reply(304, Some(m.size), MetaTag(setup, m), [])
    case Success(m, body, _, _) => Reply(200, Some(m.size), MetaTag(setup, m), body)
  }

  function MetaTag(setup: Setup, m: Meta): Option<string> {
    if m.modifiedAt.Some? then Some(Tag(setup, m)) else None
  }

  predicate Describes(fs: FileSystem, m: Meta) {
    m.path in fs && fs[m.path].File? && |fs[m.path].content| == m.size && fs[m.path].modifiedAt == m.modifiedAt
  }

  /** The request is on its way to the answer of a service without a cache. */
  predicate OnCourse(setup: Setup, fs: FileSystem, req: Request, phase: Phase) {
    match phase
    case Stat(path, retried) =>
      req.getOrHead && if retried then path == Target(setup, fs, req.path) else path == req.path
    case Done(r) => View(setup, r) == Uncached(setup, fs, req)
    case Inserting(m, data, _) => Heading(setup, fs, req, m) && data == fs[m.path].content
    case Lookup(m) => Heading(setup, fs, req, m)
    case Removing(m) => Heading(setup, fs, req, m)
    case Reading(m) => Heading(setup, fs, req, m)
    case Opening(m) => Heading(setup, fs, req, m)
  }

  predicate Heading(setup: Setup, fs: FileSystem, req: Request, m: Meta) {
    && Describes(fs, m)
    && Uncached(setup, fs, req) == Reply(200, Some(m.size), MetaTag(setup, m), fs[m.path].content)
  }

  /** Steps that are still to come, at most. */
  function Rank(phase: Phase): nat {
    match phase
    case Stat(_, retried) => if retried then 5 else 6
    case Lookup(_) => 4
    case Removing(_) => 3
    case Reading(_) => 2
    case Inserting(_, _, _) => 1
    case Opening(_) => 1
    case Done(_) => 0
  }

  ghost predicate CacheAgrees(s: System)
    requires s.hist != []
  {
    forall m :: Describes(StaticSite.Current(s), m) && Hit(s.cache, m) ==>
      s.cache[m.path].data == StaticSite.Current(s)[m.path].content
  }

  lemma StatStaysOnCourse(setup: Setup, s: System, req: Request, path: Path, retried: bool)
    requires s.hist != [] && OnCourse(setup, StaticSite.Current(s), req, Stat(path, retried))
    ensures var next := StatStep(setup, s, req, path, retried, false);
            OnCourse(setup, StaticSite.Current(s), req, next) && Rank(next) < Rank(Stat(path, retried))
  {
  }

  lemma StepStaysOnCourse(setup: Setup, s: System, p: Process)
    requires s.hist != [] && CacheAgrees(s)
    requires !p.phase.Done? && OnCourse(setup, StaticSite.Current(s), p.req, p.phase)
    ensures var next := NextPhase(setup, s, p, false);
            OnCourse(setup, StaticSite.Current(s), p.req, next) && Rank(next) < Rank(p.phase)
  {
    if p.phase.Stat? {
      StatStaysOnCourse(setup, s, p.req, p.phase.path, p.phase.retried);
    }
  }

  /** While the versions are tame, an entry that looks like the current file is the current
      file, whatever requests, failures and evictions came before. */
  lemma TameCacheAgrees(setup: Setup, s: System)
    requires Inv(setup, s) && Tame(s.hist)
    ensures CacheAgrees(s)
  {
    var now := Now(s);
    forall m | Describes(StaticSite.Current(s), m) && Hit(s.cache, m)
      ensures s.cache[m.path].data == StaticSite.Current(s)[m.path].content
    {
      var c := s.cache[m.path];
      assert Faithful(s.hist, m.path, c);
      assert Alike(s.hist, m.path, c.statAt, now);
      assert ContentAt(s.hist, c.readAt, m.path) == ContentAt(s.hist, now, m.path);
    }
  }

  /** At any moment of any run over tame versions, a request that comes in and is left alone
      is answered, in at most seven steps, as by a service without a cache. */
  lemma ArrivalIsAnswered(setup: Setup, fs: FileSystem, writes: seq<Change>, events: seq<Event>, s: System, id: nat,
                          req: Request)
    returns (more: seq<Event>, s': System)
    requires RunsOver(setup, fs, writes, events, s) && Tame(Versions(fs, writes)) && s.hist != [] && id !in s.procs
    ensures |more| <= 7 && RunsOver(setup, fs, writes, events + more, s')
    ensures id in s'.procs && s'.procs[id].phase.Done?
    ensures View(setup, s'.procs[id].phase.response) == Uncached(setup, StaticSite.Current(s), req)
  {
    hide Runs, Inv, Tame, Versions, CacheAgrees;
    var arrive := Arrive(id, req);
    var next := Apply(setup, s, arrive);
    OneStep(setup, s, arrive);
    Then(setup, StaticSite.Start(fs), events, s, [arrive], next);
    assert WritesOf(events + [arrive]) == WritesOf(events);
    InvHolds(setup, fs, events + [arrive], next);
    TameThroughout(setup, fs, writes, events + [arrive], next);
    TameCacheAgrees(setup, next);
    var rest;
    rest, s' := UndisturbedAnswer(setup, next, id);
    Then(setup, StaticSite.Start(fs), events + [arrive], next, rest, s');
    more := [arrive] + rest;
    assert events + more == events + [arrive] + rest;
  }

  /** A request that nothing disturbs is answered, in at most six steps, as by a service
      without a cache. */
  lemma {:induction false} UndisturbedAnswer(setup: Setup, s: System, id: nat) returns (events: seq<Event>, s': System)
    requires s.hist != [] && CacheAgrees(s) && id in s.procs
    requires OnCourse(setup, StaticSite.Current(s), s.procs[id].req, s.procs[id].phase)
    ensures |events| <= Rank(s.procs[id].phase) && Runs(setup, s, events, s') && WritesOf(events) == []
    ensures id in s'.procs && s'.procs[id].phase.Done?
    ensures View(setup, s'.procs[id].phase.response) == Uncached(setup, StaticSite.Current(s), s.procs[id].req)
    decreases Rank(s.procs[id].phase)
  {
    if s.procs[id].phase.Done? {
      return [], s;
    }
    var step := Step(id, false);
    var next := Apply(setup, s, step);
    StepStaysOnCourse(setup, s, s.procs[id]);
    CacheStaysAgreed(setup, s, id);
    var rest;
    rest, s' := UndisturbedAnswer(setup, next, id);
    events := [step] + rest;
    assert events[1..] == rest;
    assert WritesOf(events) == [] + WritesOf(rest);
  }

  lemma CacheStaysAgreed(setup: Setup, s: System, id: nat)
    requires s.hist != [] && CacheAgrees(s) && id in s.procs && !s.procs[id].phase.Done?
    requires OnCourse(setup, StaticSite.Current(s), s.procs[id].req, s.procs[id].phase)
    ensures CacheAgrees(Apply(setup, s, Step(id, false)))
    ensures StaticSite.Current(Apply(setup, s, Step(id, false))) == StaticSite.Current(s)
  {
  }
}
