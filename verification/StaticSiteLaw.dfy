/** Which answer a request for a static file gets, for every header it may carry. */
module StaticSiteLaw {
  import opened Wrappers
  import opened ETag
  import opened ETagLaw
  import opened StaticSite
  import opened StaticSiteService

  /** What a file is answered with: 304 without a body if it has a modification time and the
      client names the hash of this version, else 200 with the whole content. */
  function FileReply(setup: Setup, req: Request, path: Path, file: Node, named: bool): Reply
    requires file.File?
  {
    var length := Some(|file.content|);
    if file.modifiedAt.None? then Reply(200, length, None, file.content)
    else
      var etag := Some("\"" + HashOf(setup.digest, path, |file.content|, file.modifiedAt.value) + "\"");
      if named then Reply(304, length, etag, []) else Reply(200, length, etag, file.content)
  }

  /** The client names the hash of this version of the file. */
  ghost predicate Named(setup: Setup, req: Request, path: Path, file: Node) {
    && file.File? && file.modifiedAt.Some? && req.ifNoneMatch.Some?
    && Names(req.ifNoneMatch.value, HashOf(setup.digest, path, |file.content|, file.modifiedAt.value))
  }

  /** A service without a cache: only GET and HEAD; the path itself, a directory by its index,
      a missing path without an extension by its `.html` twin; and nothing else. */
  lemma UncachedIs(setup: Setup, fs: FileSystem, req: Request)
    ensures var path := if req.path in fs then if fs[req.path].Dir? then setup.indexOf(req.path) else req.path
                        else if setup.hasExtension(req.path) then req.path else setup.withHtml(req.path);
            var reply := Uncached(setup, fs, req);
            if !req.getOrHead then reply == Reply(405, None, None, [])
            else if path in fs && fs[path].File? then
              reply == FileReply(setup, req, path, fs[path], Named(setup, req, path, fs[path]))
            else reply == Reply(404, None, None, [])
  {
    hide EntityTag, Matches, HashOf, Names;
    var path := Target(setup, fs, req.path);
    if path in fs && fs[path].File? && fs[path].modifiedAt.Some? {
      var header := if req.ifNoneMatch.Some? then req.ifNoneMatch.value else "";
      MatchesExactlyWhen(setup.digest, path, |fs[path].content|, fs[path].modifiedAt.value, header);
    }
  }

  /** However requests, writes and evictions interleave, a request that got as far as a file is
      told 304 exactly when the file had a modification time and the client named the hash of
      the version it had when the request looked; else it gets the content. */
  lemma AnsweredExactlyWhen(setup: Setup, fs: FileSystem, events: seq<Event>, s: System, id: nat)
    requires Runs(setup, Start(fs), events, s) && id in s.procs && s.procs[id].phase.Done?
    requires var r := s.procs[id].phase.response; r.Success? || r.NotModified?
    ensures var (req, r) := (s.procs[id].req, s.procs[id].phase.response);
      && (r.m.path == req.path || r.m.path == setup.indexOf(req.path) || r.m.path == setup.withHtml(req.path))
      && ContentAt(s.hist, r.m.statAt, r.m.path).Some?
      && (r.NotModified? <==> Named(setup, req, r.m.path, s.hist[r.m.statAt][r.m.path]))
  {
    hide EntityTag, HashOf, Names, Runs;
    InvHolds(setup, fs, events, s);
    assert Proper(setup, s.hist, s.procs[id]);
    var req, m := s.procs[id].req, s.procs[id].phase.response.m;
    if m.modifiedAt.Some? && req.ifNoneMatch.Some? {
      MatchesExactlyWhen(setup.digest, m.path, m.size, m.modifiedAt.value, req.ifNoneMatch.value);
    }
  }

  /** A metadata read, a file read or an open that fails ends the request with an error, and no
      other step can fail. */
  lemma FailureIsAnswered(setup: Setup, s: System, id: nat)
    requires s.hist != [] && Enabled(s, Step(id, true))
    ensures var (before, after) := (s.procs[id].phase, Apply(setup, s, Step(id, true)).procs[id].phase);
            if before.Stat? || before.Reading? || before.Opening? then after == Done(InternalError)
            else after == Apply(setup, s, Step(id, false)).procs[id].phase
  {
  }

  /** An entry that is not up to date is gone before the file is read again, and a file is
      cached only by a request that saw a modification time and at most 500 000 bytes. */
  lemma CacheSteps(setup: Setup, s: System, id: nat, fails: bool)
    requires s.hist != [] && Inv(setup, s) && Enabled(s, Step(id, fails))
    ensures var (phase, cache) := (s.procs[id].phase, Apply(setup, s, Step(id, fails)).cache);
            match phase
            case Removing(m) => cache == s.cache - {m.path}
            case Inserting(m, data, _) =>
              && m.modifiedAt.Some? && m.size <= 500_000 && m.path in cache && cache - {m.path} == s.cache - {m.path}
              && cache[m.path].modifiedAt == m.modifiedAt.value && cache[m.path].size == m.size
              && cache[m.path].data == data
            case _ => cache == s.cache
  {
    assert Proper(setup, s.hist, s.procs[id]);
  }
}
