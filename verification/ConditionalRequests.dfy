/** When the static site answers 304: what a client that sends back the tag of an earlier
    answer may conclude. */
module ConditionalRequests {
  import opened Wrappers
  import opened ETag
  import opened StaticSite

  /** The numbers fit the 64 and 128 bits they are hashed in. */
  predicate Representable(m: Meta) {
    m.size < Pow256(8) && m.modifiedAt.Some? && m.modifiedAt.value < Pow256(16)
  }

  /** What gets one tag: the same time and the same size, however large. */
  predicate OneTag(h: History, path: Path, t1: nat, t2: nat) {
    match (FileAt(h, t1, path), FileAt(h, t2, path))
    case (Some(File(c1, Some(m1))), Some(File(c2, Some(m2)))) =>
      m1 == m2 < Pow256(16) && |c1| == |c2| < Pow256(8)
    case _ => false
  }

  /** From one version to one with the same tag, the content a file has in between is that of
      the later one. */
  ghost predicate TameTags(h: History) {
    forall path, t1: nat, t: nat, t2: nat ::
      t1 <= t <= t2 < |h| && OneTag(h, path, t1, t2) && ContentAt(h, t, path).Some? ==>
        ContentAt(h, t, path) == ContentAt(h, t2, path)
  }

  predicate HasTag(h: History, t: nat, path: Path) {
    FileAt(h, t, path).Some? && FileAt(h, t, path).value.File? && FileAt(h, t, path).value.modifiedAt.Some?
  }

  /** What is hashed into the tag of a file. */
  function Hashed(h: History, t: nat, path: Path): seq<Byte>
    requires HasTag(h, t, path)
  {
    Preimage(path, |FileAt(h, t, path).value.content|, FileAt(h, t, path).value.modifiedAt.value)
  }

  /** No two files that ever were there collide. */
  ghost predicate TagsApart(digest: seq<Byte> -> seq<Byte>, h: History) {
    forall t1, path1, t2, path2 :: HasTag(h, t1, path1) && HasTag(h, t2, path2) ==>
      TellsApart(digest, Hashed(h, t1, path1), Hashed(h, t2, path2))
  }

  predicate Unmodified(s: System, id: nat) {
    id in s.procs && s.procs[id].phase.Done? && s.procs[id].phase.response.NotModified?
  }

  /** Request `second` is told 304 after it sent back the tag `first` was served with. */
  predicate Confirms(setup: Setup, s: System, first: nat, second: nat) {
    && Served(s, first) && Unmodified(s, second)
    && var (r1, r2) := (s.procs[first].phase.response, s.procs[second].phase.response);
    && Representable(r1.m) && Representable(r2.m) && r1.at <= r2.m.statAt
    && s.procs[second].req.ifNoneMatch in {Some(Tag(setup, r1.m)), Some("W/" + Tag(setup, r1.m))}
  }

  /** ... while the body that came with the tag is the content of the file. */
  predicate Rightly(s: System, first: nat, second: nat)
    requires Served(s, first) && Unmodified(s, second)
  {
    var (r1, r2) := (s.procs[first].phase.response, s.procs[second].phase.response);
    Holds(s.hist, r2.m.statAt, r1.m.path, r1.body)
  }

  ghost predicate ConfirmsRightly(setup: Setup, s: System) {
    forall first, second :: Confirms(setup, s, first, second) ==> Rightly(s, first, second)
  }

  /** A tag comes back for the same path, size and time only. */
  lemma ConfirmsSameVersion(setup: Setup, s: System, first: nat, second: nat)
    requires TagsApart(setup.digest, s.hist) && Inv(setup, s) && Confirms(setup, s, first, second)
    ensures var (r1, r2) := (s.procs[first].phase.response, s.procs[second].phase.response);
            r2.m == r1.m.(statAt := r2.m.statAt) && OneTag(s.hist, r1.m.path, r1.m.statAt, r2.m.statAt)
  {
    hide EntityTag, Matches, Pow256, Preimage;
    assert Proper(setup, s.hist, s.procs[first]) && Proper(setup, s.hist, s.procs[second]);
    var m1, m2 := s.procs[first].phase.response.m, s.procs[second].phase.response.m;
    assert HasTag(s.hist, m1.statAt, m1.path) && HasTag(s.hist, m2.statAt, m2.path);
    WeakTagSameVersion(setup.digest, m2.path, m2.size, m2.modifiedAt.value, m1.path, m1.size, m1.modifiedAt.value,
                       s.procs[second].req.ifNoneMatch.value);
  }

  lemma TameConfirmsRightly(setup: Setup, s: System)
    requires TagsApart(setup.digest, s.hist) && Inv(setup, s) && TameTags(s.hist)
    ensures ConfirmsRightly(setup, s)
  {
    hide Matches, EntityTag, Representable;
    forall first, second | Confirms(setup, s, first, second) ensures Rightly(s, first, second) {
      ConfirmsSameVersion(setup, s, first, second);
      var r1, r2 := s.procs[first].phase.response, s.procs[second].phase.response;
      assert Proper(setup, s.hist, s.procs[first]) && Proper(setup, s.hist, s.procs[second]);
      if r1.bodyAt < r1.m.statAt {
        var t1: nat :| t1 <= r1.bodyAt && Alike(s.hist, r1.m.path, t1, r1.m.statAt);
        assert OneTag(s.hist, r1.m.path, t1, r2.m.statAt);
      }
      assert ContentAt(s.hist, r1.bodyAt, r1.m.path) == ContentAt(s.hist, r2.m.statAt, r1.m.path);
    }
  }

  lemma TameTagsThroughout(setup: Setup, fs: FileSystem, writes: seq<Change>, events: seq<Event>, s: System)
    requires RunsOver(setup, fs, writes, events, s) && TameTags(Versions(fs, writes))
    ensures TameTags(s.hist)
  {
    InstantsAreVersions(setup, fs, writes, events, s);
    var v := Versions(fs, writes);
    forall path, t1: nat, t: nat, t2: nat
      | t1 <= t <= t2 < |s.hist| && OneTag(s.hist, path, t1, t2) && ContentAt(s.hist, t, path).Some?
      ensures ContentAt(s.hist, t, path) == ContentAt(s.hist, t2, path)
    {
      var i, j, k := VersionAt(events, t1), VersionAt(events, t), VersionAt(events, t2);
      assert i <= j <= k;
      assert OneTag(v, path, i, k) && ContentAt(v, j, path).Some?;
      assert ContentAt(v, j, path) == ContentAt(v, k, path);
    }
  }

  lemma TagsApartThroughout(setup: Setup, fs: FileSystem, writes: seq<Change>, events: seq<Event>, s: System)
    requires RunsOver(setup, fs, writes, events, s) && TagsApart(setup.digest, Versions(fs, writes))
    ensures TagsApart(setup.digest, s.hist)
  {
    InstantsAreVersions(setup, fs, writes, events, s);
    var v := Versions(fs, writes);
    forall t1, path1, t2, path2 | HasTag(s.hist, t1, path1) && HasTag(s.hist, t2, path2)
      ensures TellsApart(setup.digest, Hashed(s.hist, t1, path1), Hashed(s.hist, t2, path2))
    {
      var i, j := VersionAt(events, t1), VersionAt(events, t2);
      assert HasTag(v, i, path1) && HasTag(v, j, path2);
      assert Hashed(v, i, path1) == Hashed(s.hist, t1, path1) && Hashed(v, j, path2) == Hashed(s.hist, t2, path2);
    }
  }

  /** Every 304 of every run over these writes that answers the tag of an earlier 200 finds
      the body of that 200 current, exactly when the versions with one tag are tame. */
  lemma NotModifiedExactlyWhen(setup: Setup, fs: FileSystem, writes: seq<Change>)
    requires TagsApart(setup.digest, Versions(fs, writes))
    ensures (forall events, s :: RunsOver(setup, fs, writes, events, s) ==> ConfirmsRightly(setup, s))
       <==> TameTags(Versions(fs, writes))
  {
    var v := Versions(fs, writes);
    if TameTags(v) {
      forall events, s | RunsOver(setup, fs, writes, events, s) ensures ConfirmsRightly(setup, s) {
        InvHolds(setup, fs, events, s);
        TameTagsThroughout(setup, fs, writes, events, s);
        TagsApartThroughout(setup, fs, writes, events, s);
        TameConfirmsRightly(setup, s);
      }
    } else {
      var path, i: nat, j: nat, k: nat :| i <= j <= k < |v| && OneTag(v, path, i, k) && ContentAt(v, j, path).Some?
                                          && ContentAt(v, j, path) != ContentAt(v, k, path);
      var events, s := ConfirmsStale(setup, fs, writes, path, i, j, k);
    }
  }

  /** Versions with one tag are tame when modification times never come back. */
  lemma FreshTagsAreTame(h: History)
    requires FreshStamps(h)
    ensures TameTags(h)
  {
    forall path, t1: nat, t: nat, t2: nat | t1 <= t <= t2 < |h| && OneTag(h, path, t1, t2)
      ensures ContentAt(h, t, path) == ContentAt(h, t2, path)
    {
      OneStampOneFile(h, path, t1, t, t2);
    }
  }

  /** With fresh modification times a client that presents the tag of an earlier 200, strong
      or weak, is told 304 only if the body it holds was current all the while since that
      answer's headers were made, even if it was newer than they. */
  lemma NotModifiedIsSound(setup: Setup, fs: FileSystem, writes: seq<Change>, events: seq<Event>, s: System,
                           first: nat, second: nat)
    requires RunsOver(setup, fs, writes, events, s) && FreshStamps(Versions(fs, writes))
    requires TagsApart(setup.digest, Versions(fs, writes)) && Confirms(setup, s, first, second)
    ensures var (r1, r2) := (s.procs[first].phase.response, s.procs[second].phase.response);
      && r1.m.path == r2.m.path
      && forall t: nat :: r1.m.statAt <= t <= r2.m.statAt ==> Holds(s.hist, t, r1.m.path, r1.body)
  {
    hide EntityTag, Matches, Pow256, Runs, WritesOf;
    FreshTagsAreTame(Versions(fs, writes));
    NotModifiedExactlyWhen(setup, fs, writes);
    assert Rightly(s, first, second);
    InvHolds(setup, fs, events, s);
    TagsApartThroughout(setup, fs, writes, events, s);
    ConfirmsSameVersion(setup, s, first, second);
    var r1, r2 := s.procs[first].phase.response, s.procs[second].phase.response;
    forall t: nat | r1.m.statAt <= t <= r2.m.statAt ensures Holds(s.hist, t, r1.m.path, r1.body) {
      OneStampThroughout(setup, fs, writes, events, s, r1.m.path, r1.m.statAt, t, r2.m.statAt);
    }
  }

  // The run that shows it

  /** The tag an answer carries matches itself. */
  lemma TagMatches(setup: Setup, m: Meta)
    requires m.modifiedAt.Some?
    ensures Matches(Tag(setup, m), Tag(setup, m))
  {
    var hash := setup.digest(Preimage(m.path, m.size, m.modifiedAt.value));
    EncodePlain(hash);
    UnquoteQuoted(H.Encode(hash));
    OpaqueOfQuoted(H.Encode(hash));
  }

  /** Request 1 sends back the tag of a version that looks like the current one. */
  lemma Rechecks(setup: Setup, s: System, m: Meta) returns (events: seq<Event>, s': System)
    requires s.hist != [] && 1 !in s.procs && m.modifiedAt.Some?
    requires Seen(s.hist, m.(statAt := Now(s)))
    ensures Runs(setup, s, events, s') && WritesOf(events) == [] && s'.hist == s.hist + [Current(s), Current(s)]
    ensures var req := Request(m.path, true, Some(Tag(setup, m)));
            s'.procs == s.procs[1 := Process(req, Done(NotModified(m.(statAt := |s.hist|), |s.hist|)))]
  {
    hide Runs, WritesOf, EntityTag, Matches;
    TagMatches(setup, m);
    var m' := m.(statAt := |s.hist|);
    assert Tag(setup, m') == Tag(setup, m);
    events, s' := Looks(setup, s, 1, Request(m.path, true, Some(Tag(setup, m))));
  }

  lemma AnsweredBefore(setup: Setup, fs: FileSystem, events: seq<Event>, s: System, id: nat)
    requires Runs(setup, Start(fs), events, s) && Served(s, id)
    ensures s.procs[id].phase.response.at < |s.hist|
  {
    InvHolds(setup, fs, events, s);
    assert Proper(setup, s.hist, s.procs[id]);
  }

  lemma StaleAfterAll(setup: Setup, s1: System, s2: System, s: System, m: Meta, body: seq<Byte>)
    requires Served(s1, 0) && s1.procs[0].phase.response.m == m && s1.procs[0].phase.response.body == body
    requires s1.procs[0].phase.response.at < |s1.hist| <= |s2.hist| && Representable(m)
    requires s.hist == s2.hist + [Current(s2), Current(s2)]
    requires ContentAt(s2.hist, Now(s2), m.path) != Some(body)
    requires var req := Request(m.path, true, Some(Tag(setup, m)));
             s.procs == s1.procs[1 := Process(req, Done(NotModified(m.(statAt := |s2.hist|), |s2.hist|)))]
    ensures Confirms(setup, s, 0, 1) && !Rightly(s, 0, 1)
  {
    assert s.hist[|s2.hist|] == Current(s2);
  }

  /** A request of version `i` is answered with the body of version `j`; its tag is then
      confirmed at version `k`. */
  lemma ConfirmsStale(setup: Setup, fs: FileSystem, writes: seq<Change>, path: Path, i: nat, j: nat, k: nat)
    returns (events: seq<Event>, s: System)
    requires i <= j <= k <= |writes|
    requires var v := Versions(fs, writes);
      && OneTag(v, path, i, k) && ContentAt(v, j, path).Some? && ContentAt(v, j, path) != ContentAt(v, k, path)
    ensures RunsOver(setup, fs, writes, events, s) && Confirms(setup, s, 0, 1) && !Rightly(s, 0, 1)
  {
    hide Runs, Versions, WritesOf, Tag, Confirms, Rightly, Hit;
    var e1, s1, m := AnswersLate(setup, fs, writes, path, i, j);
    AnsweredBefore(setup, fs, e1, s1, 0);
    var e2, s2 := Proceeds(setup, s1, fs, writes, j, k);
    InstantIsVersion(setup, s1, e2, s2, 0);
    var e3, s3 := Rechecks(setup, s2, m);
    Then(setup, Start(fs), e1, s1, e2, s2);
    Then(setup, Start(fs), e1 + e2, s2, e3, s3);
    events, s := e1 + e2 + e3, s3;
    assert writes[..j] + writes[j..k] == writes[..k];
    StaleAfterAll(setup, s1, s2, s, m, ContentAt(Versions(fs, writes), j, path).value);
  }
}
