/** pingoo/services/http_static_site_service.rs: the file cache, with every `await` of the
    handler a point where other requests and the file system may move. */
module StaticSite {
  import opened Wrappers
  import opened ETag

  const CACHING_FILE_SIZE_LIMIT: nat := 500_000

  datatype Node = Dir | File(content: seq<Byte>, modifiedAt: Option<nat>)

  type FileSystem = map<Path, Node>

  type History = seq<FileSystem>

  /** What a metadata read saw, and at which instant. */
  datatype Meta = Meta(path: Path, size: nat, modifiedAt: Option<nat>, statAt: nat)

  /** A cache entry.  The two instants are history: the program does not store them. */
  datatype CachedFile = CachedFile(modifiedAt: nat, size: nat, data: seq<Byte>, statAt: nat, readAt: nat)

  datatype Request = Request(path: Path, getOrHead: bool, ifNoneMatch: Option<string>)

  /** `at` is the instant of the answer, `bodyAt` the instant its content was read, by this
      request or by the one that filled the cache. */
  datatype Response =
    | MethodNotAllowed | NotFound | InternalError
    | NotModified(m: Meta, at: nat)
    | Success(m: Meta, body: seq<Byte>, bodyAt: nat, at: nat)

  datatype Phase =
    | Stat(path: Path, retried: bool)
    | Lookup(m: Meta)
    | Removing(m: Meta)
    | Reading(m: Meta)
    | Inserting(m: Meta, data: seq<Byte>, readAt: nat)
    | Opening(m: Meta)
    | Done(response: Response)

  datatype Process = Process(req: Request, phase: Phase)

  /** How paths are completed, and the digest behind entity tags. */
  datatype Setup = Setup(indexOf: Path -> Path, withHtml: Path -> Path, hasExtension: Path -> bool,
                         digest: seq<Byte> -> seq<Byte>)

  /** `hist[t]` is the file system at instant `t`; the last one is current. */
  datatype System = System(hist: History, cache: map<Path, CachedFile>, procs: map<nat, Process>)

  /** A path is given a new node, or loses the one it has. */
  datatype Change = Change(path: Path, node: Option<Node>)

  /** A step of request `id` may find its file operation failing. */
  datatype Event =
    | Arrive(id: nat, req: Request)
    | Step(id: nat, fails: bool)
    | Write(change: Change)
    | Expire(path: Path)

  function Now(s: System): nat
    requires s.hist != []
  {
    |s.hist| - 1
  }

  function Current(s: System): FileSystem
    requires s.hist != []
  {
    s.hist[|s.hist| - 1]
  }

  function FileAt(h: History, t: nat, path: Path): Option<Node> {
    if t < |h| && path in h[t] then Some(h[t][path]) else None
  }

  function ContentAt(h: History, t: nat, path: Path): Option<seq<Byte>> {
    match FileAt(h, t, path) case Some(File(content, _)) => Some(content) case _ => None
  }

  function Start(fs: FileSystem): System { System([fs], map[], map[]) }

  predicate Enabled(s: System, ev: Event) {
    match ev
    case Arrive(id, _) => id !in s.procs
    case Step(id, _) => id in s.procs && !s.procs[id].phase.Done?
    case Write(_) => true
    case Expire(path) => path in s.cache
  }

  function Tag(setup: Setup, m: Meta): string
    requires m.modifiedAt.Some?
  {
    EntityTag(setup.digest, m.path, m.size, m.modifiedAt.value)
  }

  /** Lines 130-185: what the handler does with the metadata it read. */
  function AfterStat(setup: Setup, req: Request, m: Meta): Phase {
    if m.modifiedAt.None? then Opening(m)
    else if req.ifNoneMatch.Some? && Matches(Tag(setup, m), req.ifNoneMatch.value) then Done(NotModified(m, m.statAt))
    else if m.size <= CACHING_FILE_SIZE_LIMIT then Lookup(m)
    else Opening(m)
  }

  /** Lines 99-128 and 260-276: one metadata read. */
  function StatStep(setup: Setup, s: System, req: Request, path: Path, retried: bool, fails: bool): Phase
    requires s.hist != []
  {
    if fails then Done(InternalError)
    else match FileAt(s.hist, Now(s), path)
      case Some(File(content, modifiedAt)) => AfterStat(setup, req, Meta(path, |content|, modifiedAt, Now(s)))
      case Some(Dir) => if retried then Done(NotFound) else Stat(setup.indexOf(path), true)
      case None => if retried || setup.hasExtension(path) then Done(NotFound) else Stat(setup.withHtml(path), true)
  }

  predicate Hit(cache: map<Path, CachedFile>, m: Meta) {
    m.path in cache && m.modifiedAt == Some(cache[m.path].modifiedAt) && cache[m.path].size == m.size
  }

  /** The content a read or an open would see now. */
  function ReadNow(s: System, path: Path, fails: bool): Option<seq<Byte>>
    requires s.hist != []
  {
    if fails then None
    else match FileAt(s.hist, Now(s), path)
      case Some(File(content, _)) => Some(content)
      case _ => None
  }

  function NextPhase(setup: Setup, s: System, p: Process, fails: bool): Phase
    requires s.hist != [] && !p.phase.Done?
  {
    match p.phase
    case Stat(path, retried) => StatStep(setup, s, p.req, path, retried, fails)
    case Lookup(m) =>
      if Hit(s.cache, m) then Done(Success(m, s.cache[m.path].data, s.cache[m.path].readAt, Now(s)))
      else if m.path in s.cache then Removing(m)
      else Reading(m)
    case Removing(m) => Reading(m)
    case Reading(m) =>
      var data := ReadNow(s, m.path, fails);
      if data.Some? then Inserting(m, data.value, Now(s)) else Done(InternalError)
    case Inserting(m, data, readAt) => Done(Success(m, data, readAt, Now(s)))
    case Opening(m) =>
      var data := ReadNow(s, m.path, fails);
      if data.Some? then Done(Success(m, data.value, Now(s), Now(s))) else Done(InternalError)
  }

  function NextCache(cache: map<Path, CachedFile>, phase: Phase): map<Path, CachedFile> {
    match phase
    case Removing(m) => cache - {m.path}
    case Inserting(m, data, readAt) =>
      if m.modifiedAt.None? then cache
      else cache[m.path := CachedFile(m.modifiedAt.value, m.size, data, m.statAt, readAt)]
    case _ => cache
  }

  /** One step; it ends at the next instant. */
  function Apply(setup: Setup, s: System, ev: Event): (s': System)
    requires s.hist != [] && Enabled(s, ev)
    ensures s'.hist != []
  {
    match ev
    case Arrive(id, req) =>
      var phase := if req.getOrHead then Stat(req.path, false) else Done(MethodNotAllowed);
      Tick(s.(procs := s.procs[id := Process(req, phase)]), Current(s))
    case Step(id, fails) =>
      var p := s.procs[id];
      var procs := s.procs[id := p.(phase := NextPhase(setup, s, p, fails))];
      Tick(s.(cache := NextCache(s.cache, p.phase), procs := procs), Current(s))
    case Write(change) => Tick(s, Written(Current(s), change))
    case Expire(path) => Tick(s.(cache := s.cache - {path}), Current(s))
  }

  function Tick(s: System, fs: FileSystem): System { s.(hist := s.hist + [fs]) }

  function Written(fs: FileSystem, change: Change): FileSystem {
    if change.node.Some? then fs[change.path := change.node.value] else fs - {change.path}
  }

  /** `events` takes `s` to `s'`. */
  ghost predicate Runs(setup: Setup, s: System, events: seq<Event>, s': System)
    decreases events
  {
    if events == [] then s == s'
    else s.hist != [] && Enabled(s, events[0]) && Runs(setup, Apply(setup, s, events[0]), events[1..], s')
  }

  function WritesOf(events: seq<Event>): seq<Change> {
    if events == [] then []
    else (if events[0].Write? then [events[0].change] else []) + WritesOf(events[1..])
  }

  /** A run during which the files, at first `fs`, go through these changes or the first
      few of them.  Requests, failures and evictions come as they please. */
  ghost predicate RunsOver(setup: Setup, fs: FileSystem, writes: seq<Change>, events: seq<Event>, s: System) {
    Runs(setup, Start(fs), events, s) && WritesOf(events) <= writes
  }

  function After(fs: FileSystem, writes: seq<Change>): FileSystem
    decreases |writes|
  {
    if writes == [] then fs else After(Written(fs, writes[0]), writes[1..])
  }

  /** The successive file systems, before and after every change. */
  function Versions(fs: FileSystem, writes: seq<Change>): (h: History)
    ensures |h| == |writes| + 1
  {
    seq(|writes| + 1, i requires 0 <= i <= |writes| => After(fs, writes[..i]))
  }

  // Properties of a sequence of versions

  /** A changed file has a modification time that path never had before. */
  ghost predicate FreshStamps(h: History) {
    forall path, t1: nat, t2: nat :: t1 < t2 < |h| && SameStamp(h, path, t1, t2) ==>
      FileAt(h, t2, path) == FileAt(h, t2 - 1, path)
  }

  predicate SameStamp(h: History, path: Path, t1: nat, t2: nat) {
    match (FileAt(h, t1, path), FileAt(h, t2, path))
    case (Some(File(_, Some(m1))), Some(File(_, Some(m2)))) => m1 == m2
    case _ => false
  }

  /** What the cache takes for one version: the same time and the same size. */
  predicate Alike(h: History, path: Path, t1: nat, t2: nat) {
    match (FileAt(h, t1, path), FileAt(h, t2, path))
    case (Some(File(c1, Some(m1))), Some(File(c2, Some(m2)))) => m1 == m2 && |c1| == |c2| <= CACHING_FILE_SIZE_LIMIT
    case _ => false
  }

  /** From one version to one the cache takes for the same, the content a file has in
      between is that of the later one. */
  ghost predicate Tame(h: History) {
    forall path, t1: nat, t: nat, t2: nat ::
      t1 <= t <= t2 < |h| && Alike(h, path, t1, t2) && ContentAt(h, t, path).Some? ==>
        ContentAt(h, t, path) == ContentAt(h, t2, path)
  }

  /** No path ever has two files of different size. */
  ghost predicate OneSize(h: History) {
    forall path, t1: nat, t2: nat :: ContentAt(h, t1, path).Some? && ContentAt(h, t2, path).Some? ==>
      |ContentAt(h, t1, path).value| == |ContentAt(h, t2, path).value|
  }

  /** Files with one stamp are one file, also at every instant in between. */
  lemma {:induction false} OneStampOneFile(h: History, path: Path, t1: nat, t: nat, t2: nat)
    requires FreshStamps(h) && t1 <= t <= t2 < |h| && SameStamp(h, path, t1, t2)
    ensures FileAt(h, t, path) == FileAt(h, t2, path)
    decreases t2 - t
  {
    if t < t2 {
      OneStampOneFile(h, path, t1, t, t2 - 1);
    }
  }

  lemma FreshIsTame(h: History)
    requires FreshStamps(h)
    ensures Tame(h)
  {
    forall path, t1: nat, t: nat, t2: nat | t1 <= t <= t2 < |h| && Alike(h, path, t1, t2)
      ensures ContentAt(h, t, path) == ContentAt(h, t2, path)
    {
      OneStampOneFile(h, path, t1, t, t2);
    }
  }

  // Invariants of every run

  predicate Holds(h: History, t: nat, path: Path, content: seq<Byte>) { ContentAt(h, t, path) == Some(content) }

  /** The metadata is what the file had at `statAt`. */
  predicate Seen(h: History, m: Meta) {
    match FileAt(h, m.statAt, m.path)
    case Some(File(content, modifiedAt)) => |content| == m.size && modifiedAt == m.modifiedAt
    case _ => false
  }

  predicate Cacheable(h: History, m: Meta) { Seen(h, m) && m.modifiedAt.Some? && m.size <= CACHING_FILE_SIZE_LIMIT }

  /** The data may be newer than the stamp beside it, never older. */
  predicate Faithful(h: History, path: Path, c: CachedFile) {
    Cacheable(h, Meta(path, c.size, Some(c.modifiedAt), c.statAt)) && c.statAt <= c.readAt
      && Holds(h, c.readAt, path, c.data)
  }

  /** The body was read after the metadata, or after metadata that looked the same. */
  ghost predicate Sourced(h: History, m: Meta, body: seq<Byte>, bodyAt: nat) {
    && Holds(h, bodyAt, m.path, body)
    && (m.statAt <= bodyAt || exists t1: nat :: t1 <= bodyAt && Alike(h, m.path, t1, m.statAt))
  }

  /** The paths a request may be answered from: its own, its index and its `.html` twin. */
  predicate Aims(setup: Setup, req: Request, path: Path) {
    path == req.path || path == setup.indexOf(req.path) || path == setup.withHtml(req.path)
  }

  /** The request is after this file and does not have it already. */
  predicate Wants(setup: Setup, req: Request, m: Meta) {
    && Aims(setup, req, m.path)
    && (m.modifiedAt.Some? && req.ifNoneMatch.Some? ==> !Matches(Tag(setup, m), req.ifNoneMatch.value))
  }

  ghost predicate Proper(setup: Setup, h: History, p: Process) {
    match p.phase
    case Stat(path, retried) => if retried then Aims(setup, p.req, path) else path == p.req.path
    case Lookup(m) => Wants(setup, p.req, m) && Cacheable(h, m)
    case Removing(m) => Wants(setup, p.req, m) && Cacheable(h, m)
    case Reading(m) => Wants(setup, p.req, m) && Cacheable(h, m)
    case Inserting(m, data, readAt) =>
      Wants(setup, p.req, m) && Cacheable(h, m) && m.statAt <= readAt && Holds(h, readAt, m.path, data)
    case Opening(m) => Wants(setup, p.req, m) && Seen(h, m)
    case Done(Success(m, body, bodyAt, at)) =>
      Wants(setup, p.req, m) && Seen(h, m) && m.statAt <= at < |h| && bodyAt <= at && Sourced(h, m, body, bodyAt)
    case Done(NotModified(m, at)) =>
      Aims(setup, p.req, m.path) && Seen(h, m) && m.statAt == at && m.modifiedAt.Some? && p.req.ifNoneMatch.Some?
        && Matches(Tag(setup, m), p.req.ifNoneMatch.value)
    case Done(_) => true
  }

  ghost predicate Inv(setup: Setup, s: System) {
    && s.hist != []
    && (forall path :: path in s.cache ==> Faithful(s.hist, path, s.cache[path]))
    && (forall id :: id in s.procs ==> Proper(setup, s.hist, s.procs[id]))
  }

  lemma HistoryGrows(h: History, h': History)
    requires h <= h'
    ensures forall t: nat, path :: t < |h| ==> FileAt(h', t, path) == FileAt(h, t, path)
    ensures forall m :: Seen(h, m) ==> Seen(h', m)
    ensures forall t, path, content :: Holds(h, t, path, content) ==> Holds(h', t, path, content)
    ensures forall m, body, bodyAt :: Sourced(h, m, body, bodyAt) ==> Sourced(h', m, body, bodyAt)
  {
    forall m, body, bodyAt | Sourced(h, m, body, bodyAt) ensures Sourced(h', m, body, bodyAt) {
      if m.statAt > bodyAt {
        var t1: nat :| t1 <= bodyAt && Alike(h, m.path, t1, m.statAt);
        assert Alike(h', m.path, t1, m.statAt);
      }
    }
  }

  /** A hit hands out data read under metadata that looks like what this request saw. */
  lemma HitIsSourced(setup: Setup, s: System, m: Meta)
    requires Inv(setup, s) && Cacheable(s.hist, m) && Hit(s.cache, m)
    ensures Sourced(s.hist, m, s.cache[m.path].data, s.cache[m.path].readAt)
  {
    var c := s.cache[m.path];
    assert Faithful(s.hist, m.path, c);
    assert Alike(s.hist, m.path, c.statAt, m.statAt);
  }

  lemma StepProper(setup: Setup, s: System, p: Process, fails: bool, s': System)
    requires Inv(setup, s) && Proper(setup, s.hist, p) && !p.phase.Done? && s.hist < s'.hist
    ensures Proper(setup, s'.hist, p.(phase := NextPhase(setup, s, p, fails)))
  {
    hide EntityTag, Matches;
    HistoryGrows(s.hist, s'.hist);
    if p.phase.Lookup? && Hit(s.cache, p.phase.m) {
      HitIsSourced(setup, s, p.phase.m);
      assert Faithful(s.hist, p.phase.m.path, s.cache[p.phase.m.path]);
    }
  }

  lemma CacheKept(setup: Setup, s: System, ev: Event)
    requires Inv(setup, s) && Enabled(s, ev)
    ensures var s' := Apply(setup, s, ev); forall path :: path in s'.cache ==> Faithful(s'.hist, path, s'.cache[path])
  {
    var s' := Apply(setup, s, ev);
    HistoryGrows(s.hist, s'.hist);
    forall path | path in s'.cache ensures Faithful(s'.hist, path, s'.cache[path]) {
      if path in s.cache && s.cache[path] == s'.cache[path] {
        assert Faithful(s.hist, path, s.cache[path]);
      } else {
        assert ev.Step? && s.procs[ev.id].phase.Inserting?;
        assert Proper(setup, s.hist, s.procs[ev.id]);
      }
    }
  }

  lemma ProcsKept(setup: Setup, s: System, ev: Event)
    requires Inv(setup, s) && Enabled(s, ev)
    ensures var s' := Apply(setup, s, ev); forall id :: id in s'.procs ==> Proper(setup, s'.hist, s'.procs[id])
  {
    hide Matches, EntityTag, Sourced;
    var s' := Apply(setup, s, ev);
    HistoryGrows(s.hist, s'.hist);
    forall id | id in s'.procs ensures Proper(setup, s'.hist, s'.procs[id]) {
      if id in s.procs {
        assert Proper(setup, s.hist, s.procs[id]);
        if ev.Step? && ev.id == id {
          StepProper(setup, s, s.procs[id], ev.fails, s');
        }
      }
    }
  }

  lemma {:induction false} InvAlong(setup: Setup, s: System, events: seq<Event>, s': System)
    requires Inv(setup, s) && Runs(setup, s, events, s')
    ensures Inv(setup, s')
    decreases events
  {
    if events != [] {
      CacheKept(setup, s, events[0]);
      ProcsKept(setup, s, events[0]);
      InvAlong(setup, Apply(setup, s, events[0]), events[1..], s');
    }
  }

  lemma InvHolds(setup: Setup, fs: FileSystem, events: seq<Event>, s: System)
    requires Runs(setup, Start(fs), events, s)
    ensures Inv(setup, s)
  {
    InvAlong(setup, Start(fs), events, s);
  }

  // The instants of a run pass through the versions in order

  lemma {:induction false} WritesAppend(a: seq<Event>, b: seq<Event>)
    ensures WritesOf(a + b) == WritesOf(a) + WritesOf(b)
  {
    if a == [] {
      assert a + b == b;
    } else {
      assert (a + b)[0] == a[0] && (a + b)[1..] == a[1..] + b;
      WritesAppend(a[1..], b);
      var first := if a[0].Write? then [a[0].change] else [];
      assert WritesOf(a + b) == first + (WritesOf(a[1..]) + WritesOf(b)) == WritesOf(a) + WritesOf(b);
    }
  }

  lemma OneEvent(setup: Setup, s: System, ev: Event)
    requires s.hist != [] && Enabled(s, ev)
    ensures Apply(setup, s, ev).hist == s.hist + [if ev.Write? then Written(Current(s), ev.change) else Current(s)]
  {
  }

  lemma FirstEvent(setup: Setup, s: System, events: seq<Event>)
    requires events != [] && s.hist != [] && Enabled(s, events[0])
    ensures After(Current(s), WritesOf(events)) == After(Current(Apply(setup, s, events[0])), WritesOf(events[1..]))
  {
    hide Enabled, Apply, Written;
    OneEvent(setup, s, events[0]);
    var rest := WritesOf(events[1..]);
    if events[0].Write? {
      assert WritesOf(events)[1..] == rest;
    } else {
      assert WritesOf(events) == rest;
    }
  }

  /** Instant `t` shows the files after the writes among the first `t` events. */
  lemma {:induction false} InstantIsVersion(setup: Setup, s: System, events: seq<Event>, s': System, t: nat)
    requires s.hist != [] && Runs(setup, s, events, s') && t <= |events|
    ensures s.hist <= s'.hist && |s'.hist| == |s.hist| + |events|
    ensures s'.hist[|s.hist| - 1 + t] == After(Current(s), WritesOf(events[..t]))
    decreases events
  {
    if events != [] {
      var next := Apply(setup, s, events[0]);
      InstantIsVersion(setup, next, events[1..], s', if t > 0 then t - 1 else 0);
      if t == 0 {
        assert events[..t] == [];
      } else {
        assert events[..t][1..] == events[1..][..t - 1];
        FirstEvent(setup, s, events[..t]);
      }
    }
  }

  /** Instant `t` of a run over `writes` is version `VersionAt(events, t)`. */
  function VersionAt(events: seq<Event>, t: nat): nat
    requires t <= |events|
  {
    |WritesOf(events[..t])|
  }

  lemma VersionsInOrder(events: seq<Event>, t1: nat, t2: nat)
    requires t1 <= t2 <= |events|
    ensures VersionAt(events, t1) <= VersionAt(events, t2) <= |WritesOf(events)|
  {
    assert events[..t2] == events[..t1] + events[t1..t2] && events == events[..t2] + events[t2..];
    WritesAppend(events[..t1], events[t1..t2]);
    WritesAppend(events[..t2], events[t2..]);
  }

  lemma InstantsAreVersions(setup: Setup, fs: FileSystem, writes: seq<Change>, events: seq<Event>, s: System)
    requires RunsOver(setup, fs, writes, events, s)
    ensures |s.hist| == |events| + 1
    ensures forall t :: 0 <= t < |s.hist| ==>
              VersionAt(events, t) <= |writes| && s.hist[t] == Versions(fs, writes)[VersionAt(events, t)]
    ensures forall t1, t2 :: 0 <= t1 <= t2 < |s.hist| ==> VersionAt(events, t1) <= VersionAt(events, t2)
  {
    InstantIsVersion(setup, Start(fs), events, s, 0);
    forall t | 0 <= t < |s.hist|
      ensures VersionAt(events, t) <= |writes| && s.hist[t] == Versions(fs, writes)[VersionAt(events, t)]
    {
      InstantIsVersion(setup, Start(fs), events, s, t);
      VersionsInOrder(events, t, |events|);
      assert events == events[..t] + events[t..];
      WritesAppend(events[..t], events[t..]);
      assert WritesOf(events[..t]) == writes[..VersionAt(events, t)];
    }
    forall t1, t2 | 0 <= t1 <= t2 < |s.hist| ensures VersionAt(events, t1) <= VersionAt(events, t2) {
      VersionsInOrder(events, t1, t2);
    }
  }

  lemma TameThroughout(setup: Setup, fs: FileSystem, writes: seq<Change>, events: seq<Event>, s: System)
    requires RunsOver(setup, fs, writes, events, s) && Tame(Versions(fs, writes))
    ensures Tame(s.hist)
  {
    InstantsAreVersions(setup, fs, writes, events, s);
    var v := Versions(fs, writes);
    forall path, t1: nat, t: nat, t2: nat
      | t1 <= t <= t2 < |s.hist| && Alike(s.hist, path, t1, t2) && ContentAt(s.hist, t, path).Some?
      ensures ContentAt(s.hist, t, path) == ContentAt(s.hist, t2, path)
    {
      var i, j, k := VersionAt(events, t1), VersionAt(events, t), VersionAt(events, t2);
      assert i <= j <= k;
      assert Alike(v, path, i, k) && ContentAt(v, j, path).Some?;
      assert ContentAt(v, j, path) == ContentAt(v, k, path);
    }
  }

  lemma OneStampThroughout(setup: Setup, fs: FileSystem, writes: seq<Change>, events: seq<Event>, s: System,
                           path: Path, t1: nat, t: nat, t2: nat)
    requires RunsOver(setup, fs, writes, events, s) && FreshStamps(Versions(fs, writes))
    requires t1 <= t <= t2 < |s.hist| && SameStamp(s.hist, path, t1, t2)
    ensures FileAt(s.hist, t, path) == FileAt(s.hist, t2, path)
  {
    InstantsAreVersions(setup, fs, writes, events, s);
    OneStampOneFile(Versions(fs, writes), path, VersionAt(events, t1), VersionAt(events, t), VersionAt(events, t2));
  }

  // What every interleaving of requests, atomic writes and evictions guarantees

  predicate Served(s: System, id: nat) {
    id in s.procs && s.procs[id].phase.Done? && s.procs[id].phase.response.Success?
  }

  /** The body was the file's content at an instant between metadata read and answer. */
  ghost predicate WasCurrent(h: History, r: Response)
    requires r.Success?
  {
    exists t: nat :: r.m.statAt <= t <= r.at < |h| && Holds(h, t, r.m.path, r.body)
  }

  ghost predicate ServesCurrent(s: System) {
    forall id :: Served(s, id) ==> WasCurrent(s.hist, s.procs[id].phase.response)
  }

  ghost predicate AnnouncesLength(s: System) {
    forall id :: Served(s, id) ==> |s.procs[id].phase.response.body| == s.procs[id].phase.response.m.size
  }

  lemma SourcedIsCurrent(h: History, m: Meta, body: seq<Byte>, bodyAt: nat) returns (t: nat)
    requires Tame(h) && Seen(h, m) && Sourced(h, m, body, bodyAt)
    ensures t == (if m.statAt <= bodyAt then bodyAt else m.statAt) && Holds(h, t, m.path, body)
  {
    t := bodyAt;
    if bodyAt < m.statAt {
      var t1: nat :| t1 <= bodyAt && Alike(h, m.path, t1, m.statAt);
      t := m.statAt;
    }
  }

  lemma TameServesCurrent(setup: Setup, s: System)
    requires Inv(setup, s) && Tame(s.hist)
    ensures ServesCurrent(s)
  {
    forall id | Served(s, id) ensures WasCurrent(s.hist, s.procs[id].phase.response) {
      var r := s.procs[id].phase.response;
      assert Proper(setup, s.hist, s.procs[id]);
      var t := SourcedIsCurrent(s.hist, r.m, r.body, r.bodyAt);
    }
  }

  /** A cache hit hands out content that was current at some instant since the request
      looked at the file, although its stamp may be that of an older version. */
  lemma HitIsCurrent(setup: Setup, s: System, m: Meta)
    requires Inv(setup, s) && Tame(s.hist) && Cacheable(s.hist, m) && Hit(s.cache, m)
    ensures exists t: nat :: m.statAt <= t < |s.hist| && Holds(s.hist, t, m.path, s.cache[m.path].data)
  {
    HitIsSourced(setup, s, m);
    var t := SourcedIsCurrent(s.hist, m, s.cache[m.path].data, s.cache[m.path].readAt);
  }

  /** Every 200 of every run over these writes carries content that was current during its
      request, exactly when the versions the cache cannot tell apart are tame. */
  lemma CurrentExactlyWhen(setup: Setup, fs: FileSystem, writes: seq<Change>)
    ensures (forall events, s :: RunsOver(setup, fs, writes, events, s) ==> ServesCurrent(s))
       <==> Tame(Versions(fs, writes))
  {
    var v := Versions(fs, writes);
    if Tame(v) {
      forall events, s | RunsOver(setup, fs, writes, events, s) ensures ServesCurrent(s) {
        InvHolds(setup, fs, events, s);
        TameThroughout(setup, fs, writes, events, s);
        TameServesCurrent(setup, s);
      }
    } else {
      var path, i: nat, j: nat, k: nat :| i <= j <= k < |v| && Alike(v, path, i, k) && ContentAt(v, j, path).Some?
                                          && ContentAt(v, j, path) != ContentAt(v, k, path);
      var events, s := ServesStale(setup, fs, writes, path, i, j, k);
      assert Served(s, 1);
    }
  }

  /** Every 200 of every run over these writes announces the length of its body, exactly
      when no path ever has files of two sizes. */
  lemma LengthExactlyWhen(setup: Setup, fs: FileSystem, writes: seq<Change>)
    ensures (forall events, s :: RunsOver(setup, fs, writes, events, s) ==> AnnouncesLength(s))
       <==> OneSize(Versions(fs, writes))
  {
    var v := Versions(fs, writes);
    if OneSize(v) {
      forall events, s | RunsOver(setup, fs, writes, events, s) ensures AnnouncesLength(s) {
        SizedThroughout(setup, fs, writes, events, s);
      }
    } else {
      var path, i: nat, j: nat :| ContentAt(v, i, path).Some? && ContentAt(v, j, path).Some?
                                  && |ContentAt(v, i, path).value| != |ContentAt(v, j, path).value|;
      var events, s := AnnouncesWrongly(setup, fs, writes, path, if i < j then i else j, if i < j then j else i);
      assert Served(s, 0);
    }
  }

  lemma SizedThroughout(setup: Setup, fs: FileSystem, writes: seq<Change>, events: seq<Event>, s: System)
    requires RunsOver(setup, fs, writes, events, s) && OneSize(Versions(fs, writes))
    ensures AnnouncesLength(s)
  {
    InvHolds(setup, fs, events, s);
    InstantsAreVersions(setup, fs, writes, events, s);
    forall id | Served(s, id) ensures |s.procs[id].phase.response.body| == s.procs[id].phase.response.m.size {
      var r := s.procs[id].phase.response;
      assert Proper(setup, s.hist, s.procs[id]);
      var v, i, j := Versions(fs, writes), VersionAt(events, r.m.statAt), VersionAt(events, r.bodyAt);
      assert ContentAt(v, i, r.m.path) == ContentAt(s.hist, r.m.statAt, r.m.path);
      assert ContentAt(v, j, r.m.path) == ContentAt(s.hist, r.bodyAt, r.m.path);
    }
  }

  /** With fresh modification times the body of a 200 was the file's content at some instant
      between the request's metadata read and its answer. */
  lemma BodyWasCurrent(setup: Setup, fs: FileSystem, writes: seq<Change>, events: seq<Event>, s: System, id: nat)
    requires RunsOver(setup, fs, writes, events, s) && FreshStamps(Versions(fs, writes)) && Served(s, id)
    ensures WasCurrent(s.hist, s.procs[id].phase.response)
  {
    FreshIsTame(Versions(fs, writes));
    CurrentExactlyWhen(setup, fs, writes);
  }

  /** ... and if the file has one stamp from the metadata read to the answer, then length,
      tag and body are all of one version. */
  lemma SameVersionSameBody(setup: Setup, fs: FileSystem, writes: seq<Change>, events: seq<Event>, s: System, id: nat)
    requires RunsOver(setup, fs, writes, events, s) && FreshStamps(Versions(fs, writes)) && Served(s, id)
    requires var r := s.procs[id].phase.response; SameStamp(s.hist, r.m.path, r.m.statAt, r.at)
    ensures var r := s.procs[id].phase.response; |r.body| == r.m.size && Holds(s.hist, r.m.statAt, r.m.path, r.body)
  {
    InvHolds(setup, fs, events, s);
    assert Proper(setup, s.hist, s.procs[id]);
    BodyWasCurrent(setup, fs, writes, events, s, id);
    var r := s.procs[id].phase.response;
    var t: nat :| r.m.statAt <= t <= r.at < |s.hist| && Holds(s.hist, t, r.m.path, r.body);
    OneStampThroughout(setup, fs, writes, events, s, r.m.path, r.m.statAt, t, r.at);
    OneStampThroughout(setup, fs, writes, events, s, r.m.path, r.m.statAt, r.m.statAt, r.at);
  }

  // Runs that show what is not guaranteed

  lemma {:induction false} Then(setup: Setup, s: System, a: seq<Event>, s1: System, b: seq<Event>, s2: System)
    requires Runs(setup, s, a, s1) && Runs(setup, s1, b, s2)
    ensures Runs(setup, s, a + b, s2) && WritesOf(a + b) == WritesOf(a) + WritesOf(b)
    decreases a
  {
    WritesAppend(a, b);
    if a == [] {
      assert a + b == b;
    } else {
      assert (a + b)[1..] == a[1..] + b;
      Then(setup, Apply(setup, s, a[0]), a[1..], s1, b, s2);
    }
  }

  lemma OneStep(setup: Setup, s: System, ev: Event)
    requires s.hist != [] && Enabled(s, ev) && !ev.Write?
    ensures Runs(setup, s, [ev], Apply(setup, s, ev)) && WritesOf([ev]) == []
  {
    assert [ev][1..] == [];
    assert WritesOf([ev]) == [] + WritesOf([]);
  }

  /** Two steps in which nothing is written. */
  lemma TwoSteps(setup: Setup, s: System, a: Event, b: Event)
    requires s.hist != [] && Enabled(s, a) && Enabled(Apply(setup, s, a), b) && !a.Write? && !b.Write?
    ensures Runs(setup, s, [a, b], Apply(setup, Apply(setup, s, a), b)) && WritesOf([a, b]) == []
    ensures Apply(setup, Apply(setup, s, a), b).hist == s.hist + [Current(s), Current(s)]
  {
    assert [a, b][1..] == [b] && [b][1..] == [];
    assert WritesOf([b]) == [] + WritesOf([]);
  }

  function Get(path: Path): Request { Request(path, true, None) }

  /** Only writes happen. */
  lemma {:induction false} WritesAll(setup: Setup, s: System, writes: seq<Change>)
    returns (events: seq<Event>, s': System)
    requires s.hist != []
    ensures Runs(setup, s, events, s') && WritesOf(events) == writes
    ensures s'.hist != [] && Current(s') == After(Current(s), writes) && s'.cache == s.cache && s'.procs == s.procs
    decreases |writes|
  {
    events, s' := [], s;
    if writes != [] {
      var rest;
      rest, s' := WritesAll(setup, Apply(setup, s, Write(writes[0])), writes[1..]);
      events := [Write(writes[0])] + rest;
      assert events[1..] == rest;
    }
  }

  lemma {:induction false} AfterAppend(fs: FileSystem, a: seq<Change>, b: seq<Change>)
    ensures After(fs, a + b) == After(After(fs, a), b)
    decreases |a|
  {
    if a == [] {
      assert a + b == b;
    } else {
      assert (a + b)[1..] == a[1..] + b;
      AfterAppend(Written(fs, a[0]), a[1..], b);
    }
  }

  /** From version `i` of the files to version `j`. */
  lemma Proceeds(setup: Setup, s: System, fs: FileSystem, writes: seq<Change>, i: nat, j: nat)
    returns (events: seq<Event>, s': System)
    requires i <= j <= |writes| && s.hist != [] && Current(s) == Versions(fs, writes)[i]
    ensures Runs(setup, s, events, s') && WritesOf(events) == writes[i..j]
    ensures s'.hist != [] && Current(s') == Versions(fs, writes)[j] && s'.cache == s.cache && s'.procs == s.procs
  {
    events, s' := WritesAll(setup, s, writes[i..j]);
    assert writes[..j] == writes[..i] + writes[i..j];
    AfterAppend(fs, writes[..i], writes[i..j]);
  }

  /** Request `id` comes in and reads the metadata of a file. */
  lemma Looks(setup: Setup, s: System, id: nat, req: Request) returns (events: seq<Event>, s': System)
    requires s.hist != [] && id !in s.procs && req.getOrHead && ContentAt(s.hist, Now(s), req.path).Some?
    ensures Runs(setup, s, events, s') && WritesOf(events) == []
    ensures s'.hist == s.hist + [Current(s), Current(s)] && s'.cache == s.cache
    ensures var file := Current(s)[req.path];
            var m := Meta(req.path, |file.content|, file.modifiedAt, |s.hist|);
            s'.procs == s.procs[id := Process(req, AfterStat(setup, req, m))]
  {
    var a, b := Arrive(id, req), Step(id, false);
    TwoSteps(setup, s, a, b);
    events, s' := [a, b], Apply(setup, Apply(setup, s, a), b);
  }

  /** What a first request of version `i` answers when it reads the file at version `j`. */
  lemma AnswersLate(setup: Setup, fs: FileSystem, writes: seq<Change>, path: Path, i: nat, j: nat)
    returns (events: seq<Event>, s: System, m: Meta)
    requires i <= j <= |writes|
    requires ContentAt(Versions(fs, writes), i, path).Some? && ContentAt(Versions(fs, writes), j, path).Some?
    ensures Runs(setup, Start(fs), events, s) && WritesOf(events) == writes[..j]
    ensures s.hist != [] && Current(s) == Versions(fs, writes)[j] && s.procs.Keys == {0} && Served(s, 0)
    ensures var file := Versions(fs, writes)[i][path];
            m.path == path && m.size == |file.content| && m.modifiedAt == file.modifiedAt
    ensures var r := s.procs[0].phase.response; r.m == m && r.body == Versions(fs, writes)[j][path].content
    ensures m.modifiedAt.Some? && m.size <= CACHING_FILE_SIZE_LIMIT ==>
              path in s.cache && Hit(s.cache, m) && s.cache[path].data == Versions(fs, writes)[j][path].content
  {
    hide Runs, Versions, WritesOf, After;
    var e1, s1 := AsksAt(setup, fs, writes, path, i);
    m := s1.procs[0].phase.m;
    var e2, s2 := Proceeds(setup, s1, fs, writes, i, j);
    var e3, s3 := Reads(setup, s2, m);
    Then(setup, Start(fs), e1, s1, e2, s2);
    Then(setup, Start(fs), e1 + e2, s2, e3, s3);
    events, s := e1 + e2 + e3, s3;
    assert writes[..i] + writes[i..j] == writes[..j];
  }

  /** The first request of version `i`, up to where it is about to read the file. */
  lemma AsksAt(setup: Setup, fs: FileSystem, writes: seq<Change>, path: Path, i: nat)
    returns (events: seq<Event>, s: System)
    requires i <= |writes| && ContentAt(Versions(fs, writes), i, path).Some?
    ensures Runs(setup, Start(fs), events, s) && WritesOf(events) == writes[..i]
    ensures s.hist != [] && Current(s) == Versions(fs, writes)[i] && s.cache == map[] && s.procs.Keys == {0}
    ensures var p := s.procs[0];
      && p.req == Get(path) && (p.phase.Reading? || p.phase.Opening?)
      && p.phase == (if Caches(p.phase.m) then Reading(p.phase.m) else Opening(p.phase.m))
      && var file := Versions(fs, writes)[i][path];
         p.phase.m.path == path && p.phase.m.size == |file.content| && p.phase.m.modifiedAt == file.modifiedAt
  {
    hide Runs, WritesOf;
    assert writes[..0] == [];
    assert Current(Start(fs)) == Versions(fs, writes)[0];
    var e1, s1 := Proceeds(setup, Start(fs), fs, writes, 0, i);
    var e2, s2 := Looks(setup, s1, 0, Get(path));
    var m := Meta(path, |Current(s1)[path].content|, Current(s1)[path].modifiedAt, |s1.hist|);
    var e3, s3 := Misses(setup, s2, m);
    Then(setup, Start(fs), e1, s1, e2, s2);
    Then(setup, Start(fs), e1 + e2, s2, e3, s3);
    events, s := e1 + e2 + e3, s3;
  }

  predicate Caches(m: Meta) { m.modifiedAt.Some? && m.size <= CACHING_FILE_SIZE_LIMIT }

  /** With an empty cache, a request that knows the metadata is about to read the file. */
  lemma Misses(setup: Setup, s: System, m: Meta) returns (events: seq<Event>, s': System)
    requires s.hist != [] && s.cache == map[]
    requires s.procs == map[0 := Process(Get(m.path), AfterStat(setup, Get(m.path), m))]
    ensures Runs(setup, s, events, s') && WritesOf(events) == []
    ensures s'.hist != [] && Current(s') == Current(s) && s'.cache == map[]
    ensures s'.procs == map[0 := Process(Get(m.path), if Caches(m) then Reading(m) else Opening(m))]
  {
    events, s' := [], s;
    if Caches(m) {
      events, s' := [Step(0, false)], Apply(setup, s, Step(0, false));
    }
  }

  lemma Reads(setup: Setup, s: System, m: Meta) returns (events: seq<Event>, s': System)
    requires s.hist != [] && s.cache == map[] && ContentAt(s.hist, Now(s), m.path).Some?
    requires s.procs == map[0 := Process(Get(m.path), if Caches(m) then Reading(m) else Opening(m))]
    ensures Runs(setup, s, events, s') && WritesOf(events) == []
    ensures s'.hist != [] && Current(s') == Current(s) && s'.procs.Keys == {0} && Served(s', 0)
    ensures var r := s'.procs[0].phase.response; r.m == m && r.body == Current(s)[m.path].content
    ensures Caches(m) ==> Hit(s'.cache, m) && s'.cache[m.path].data == Current(s)[m.path].content
  {
    var step := Step(0, false);
    if Caches(m) {
      TwoSteps(setup, s, step, step);
      events, s' := [step, step], Apply(setup, Apply(setup, s, step), step);
    } else {
      events, s' := [step], Apply(setup, s, step);
    }
  }

  lemma AnnouncesWrongly(setup: Setup, fs: FileSystem, writes: seq<Change>, path: Path, i: nat, j: nat)
    returns (events: seq<Event>, s: System)
    requires i <= j <= |writes|
    requires var v := Versions(fs, writes);
      && ContentAt(v, i, path).Some? && ContentAt(v, j, path).Some?
      && |ContentAt(v, i, path).value| != |ContentAt(v, j, path).value|
    ensures RunsOver(setup, fs, writes, events, s) && Served(s, 0)
    ensures var r := s.procs[0].phase.response; |r.body| != r.m.size
  {
    var m;
    events, s, m := AnswersLate(setup, fs, writes, path, i, j);
  }

  /** A request of version `i` fills the cache with version `j`; one of version `k`, which
      looks like `i`, is answered from it. */
  lemma ServesStale(setup: Setup, fs: FileSystem, writes: seq<Change>, path: Path, i: nat, j: nat, k: nat)
    returns (events: seq<Event>, s: System)
    requires i <= j <= k <= |writes|
    requires var v := Versions(fs, writes);
      && Alike(v, path, i, k) && ContentAt(v, j, path).Some? && ContentAt(v, j, path) != ContentAt(v, k, path)
    ensures RunsOver(setup, fs, writes, events, s) && Served(s, 1) && !WasCurrent(s.hist, s.procs[1].phase.response)
  {
    hide Runs;
    var e1, s1, m := AnswersLate(setup, fs, writes, path, i, j);
    var e2, s2 := Proceeds(setup, s1, fs, writes, j, k);
    var e3, s3 := Looks(setup, s2, 1, Get(path));
    var m' := m.(statAt := |s2.hist|);
    var e4, s4 := HitsOnce(setup, s3, 1, m');
    Then(setup, Start(fs), e1, s1, e2, s2);
    Then(setup, Start(fs), e1 + e2, s2, e3, s3);
    Then(setup, Start(fs), e1 + e2 + e3, s3, e4, s4);
    events, s := e1 + e2 + e3 + e4, s4;
    assert writes[..j] + writes[j..k] == writes[..k];
  }

  lemma HitsOnce(setup: Setup, s: System, id: nat, m: Meta) returns (events: seq<Event>, s': System)
    requires s.hist != [] && id in s.procs && s.procs[id].phase == Lookup(m) && Hit(s.cache, m)
    ensures Runs(setup, s, events, s') && WritesOf(events) == []
    ensures s'.hist == s.hist + [Current(s)]
    ensures Served(s', id)
            && s'.procs[id].phase.response == Success(m, s.cache[m.path].data, s.cache[m.path].readAt, Now(s))
  {
    events, s' := [Step(id, false)], Apply(setup, s, Step(id, false));
  }

  const PAGE: Path := [97]

  function Put(content: seq<Byte>, stamp: nat): Change { Change(PAGE, Some(File(content, Some(stamp)))) }

  lemma PutAt(writes: seq<Change>, i: nat, content: seq<Byte>, stamp: nat)
    requires i < |writes| && writes[i] == Put(content, stamp)
    ensures Versions(map[], writes)[i + 1] == Versions(map[], writes)[i][PAGE := File(content, Some(stamp))]
  {
    assert writes[..i + 1] == writes[..i] + [writes[i]];
    AfterAppend(map[], writes[..i], [writes[i]]);
    assert [writes[i]][1..] == [];
  }

  const GROWN: seq<Change> := [Put([1], 1), Put([1, 2], 2)]

  lemma GrownVersions()
    ensures Versions(map[], GROWN) == [map[], map[PAGE := File([1], Some(1))], map[PAGE := File([1, 2], Some(2))]]
  {
    var v := Versions(map[], GROWN);
    PutAt(GROWN, 0, [1], 1);
    PutAt(GROWN, 1, [1, 2], 2);
    assert v[0] == map[] by { assert GROWN[..0] == []; }
    assert v[1] == map[PAGE := File([1], Some(1))];
    assert v[2] == map[PAGE := File([1, 2], Some(2))];
    assert v == [v[0], v[1], v[2]];
  }

  /** A write between the metadata read and the file read: fresh modification times do not
      keep an answer from announcing one length and carrying a body of another. */
  lemma LengthMayBeWrong(setup: Setup)
    ensures FreshStamps(Versions(map[], GROWN)) && !OneSize(Versions(map[], GROWN))
    ensures exists events, s :: RunsOver(setup, map[], GROWN, events, s) && !AnnouncesLength(s)
  {
    hide Versions, RunsOver, AnnouncesLength;
    GrownVersions();
    var v := Versions(map[], GROWN);
    assert ContentAt(v, 1, PAGE) == Some([1]) && ContentAt(v, 2, PAGE) == Some([1, 2]);
    LengthExactlyWhen(setup, map[], GROWN);
  }

  /** Two versions of one size and one modification time: the second is never served. */
  lemma StaleWithoutFreshStamps(setup: Setup)
    ensures exists events, s :: RunsOver(setup, map[], [Put([1], 1), Put([2], 1)], events, s) && !ServesCurrent(s)
  {
    var writes := [Put([1], 1), Put([2], 1)];
    var v := Versions(map[], writes);
    PutAt(writes, 0, [1], 1);
    PutAt(writes, 1, [2], 1);
    assert ContentAt(v, 1, PAGE) == Some([1]) && ContentAt(v, 2, PAGE) == Some([2]);
    assert Alike(v, PAGE, 1, 2);
    CurrentExactlyWhen(setup, map[], writes);
  }

  const ROLLED_BACK: seq<Change> := [Put([1], 1), Put([2], 2), Put([1], 1)]

  /** A file that is rolled back with its old modification time: no two different versions
      share size and time, and yet the one in between is served in place of the old one. */
  lemma StaleAfterRollback(setup: Setup)
    ensures forall i: nat, j: nat :: Alike(Versions(map[], ROLLED_BACK), PAGE, i, j) ==>
              FileAt(Versions(map[], ROLLED_BACK), i, PAGE) == FileAt(Versions(map[], ROLLED_BACK), j, PAGE)
    ensures exists events, s :: RunsOver(setup, map[], ROLLED_BACK, events, s) && !ServesCurrent(s)
  {
    hide RunsOver, ServesCurrent;
    var v := Versions(map[], ROLLED_BACK);
    PutAt(ROLLED_BACK, 0, [1], 1);
    PutAt(ROLLED_BACK, 1, [2], 2);
    PutAt(ROLLED_BACK, 2, [1], 1);
    assert v[0] == map[] by { assert ROLLED_BACK[..0] == []; }
    assert ContentAt(v, 1, PAGE) == Some([1]) && ContentAt(v, 2, PAGE) == Some([2])
           && ContentAt(v, 3, PAGE) == Some([1]);
    assert Alike(v, PAGE, 1, 3);
    CurrentExactlyWhen(setup, map[], ROLLED_BACK);
  }
}
