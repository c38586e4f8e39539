/** pingoo/service_discovery/service_registry.rs: the registry follows what is discovered. */
module ServiceRegistry {
  import opened Wrappers

  datatype Upstream = Upstream(socketAddress: string, hostname: string, tls: bool)

  datatype UpstreamConfig = IPAddress(upstream: Upstream) | Domain(name: string)

  datatype ServiceConfig = ServiceConfig(name: string, httpProxy: Option<seq<UpstreamConfig>>,
                                         tcpProxy: Option<seq<UpstreamConfig>>)

  type Registry = map<string, seq<Upstream>>

  /** What a discoverer found, or its failure. */
  type Discovery = Result<Registry, ()>

  function Listed(r: Registry, service: string): seq<Upstream> { if service in r then r[service] else [] }

  function Addresses(configs: seq<UpstreamConfig>): seq<Upstream> {
    if configs == [] then []
    else (if configs[0].IPAddress? then [configs[0].upstream] else []) + Addresses(configs[1..])
  }

  function StaticOf(config: ServiceConfig): seq<Upstream> {
    if config.httpProxy.Some? then Addresses(config.httpProxy.value)
    else if config.tcpProxy.Some? then Addresses(config.tcpProxy.value)
    else []
  }

  /** Of two services with one name the later one stays. */
  function StaticUpstreams(configs: seq<ServiceConfig>): Registry {
    if configs == [] then map[]
    else StaticUpstreams(configs[..|configs| - 1])[configs[|configs| - 1].name := StaticOf(configs[|configs| - 1])]
  }

  /** Both registries, service by service. */
  function Extend(base: Registry, extra: Registry): Registry {
    map k | k in base.Keys + extra.Keys :: Listed(base, k) + Listed(extra, k)
  }

  function Merged(fixed: Registry, found: seq<Discovery>): Registry {
    if found == [] then fixed
    else
      var before := Merged(fixed, found[..|found| - 1]);
      match found[|found| - 1] case Ok(r) => Extend(before, r) case Err(_) => before
  }

  predicate Gains(old_: Registry, new_: Registry, k: string)
    requires k in new_
  {
    k !in old_ || exists u :: u in new_[k] && u !in old_[k]
  }

  predicate Loses(old_: Registry, new_: Registry, k: string)
    requires k in old_
  {
    k !in new_ || exists u :: u in old_[k] && u !in new_[k]
  }

  function Updated(old_: Registry, new_: Registry): set<string> { set k | k in new_ && Gains(old_, new_, k) }

  function Deleted(old_: Registry, new_: Registry): set<string> { set k | k in old_ && Loses(old_, new_, k) }

  /** One round: gaining services are written first, then losing services are removed. */
  function Round(old_: Registry, new_: Registry): Registry {
    (old_ + (map k | k in Updated(old_, new_) :: new_[k])) - Deleted(old_, new_)
  }

  /** A reader in the middle of a round finds the old list, the new list or nothing. */
  ghost predicate Between(old_: Registry, new_: Registry, r: Registry) {
    forall k :: k in r ==> (k in old_ && r[k] == old_[k]) || (k in new_ && r[k] == new_[k])
  }

  class ServiceRegistry {
    var upstreams: Registry
    const staticUpstreams: Registry

    constructor (configs: seq<ServiceConfig>)
      ensures staticUpstreams == StaticUpstreams(configs) && upstreams == staticUpstreams
    {
      staticUpstreams := StaticUpstreams(configs);
      upstreams := staticUpstreams;
    }

    method GetUpstreams(service: string) returns (r: seq<Upstream>)
      ensures r == Listed(upstreams, service)
    {
      if service in upstreams {
        return upstreams[service];
      }
      return [];
    }

    /** One round of discovery.  `trail` holds the registry before and after every write. */
    method Discover(found: seq<Discovery>) returns (ghost trail: seq<Registry>)
      modifies this`upstreams
      ensures upstreams == Round(old(upstreams), Merged(staticUpstreams, found))
      ensures |trail| > 0 && trail[0] == old(upstreams) && trail[|trail| - 1] == upstreams
      ensures forall r :: r in trail ==> Between(old(upstreams), Merged(staticUpstreams, found), r)
    {
      var newUpstreams := MergeAll(staticUpstreams, found);
      var updated, deleted := DiffUpstreams(upstreams, newUpstreams);
      ghost var more;
      trail := Insert(newUpstreams, updated, upstreams);
      more := Remove(newUpstreams, deleted, old(upstreams));
      trail := trail + more;
    }

    /** Lines 131-136. */
    method Insert(newUpstreams: Registry, updated: set<string>, ghost before: Registry)
      returns (ghost trail: seq<Registry>)
      requires updated <= newUpstreams.Keys && before == upstreams
      modifies this`upstreams
      ensures upstreams == before + (map k | k in updated :: newUpstreams[k])
      ensures |trail| > 0 && trail[0] == before && trail[|trail| - 1] == upstreams
      ensures forall r :: r in trail ==> Between(before, newUpstreams, r)
    {
      trail := [upstreams];
      var rest := updated;
      while rest != {}
        invariant rest <= updated
        invariant upstreams.Keys == before.Keys + (updated - rest)
        invariant forall k :: k in upstreams ==>
                  upstreams[k] == if k in updated - rest then newUpstreams[k] else before[k]
        invariant |trail| > 0 && trail[0] == before && trail[|trail| - 1] == upstreams
        invariant forall r :: r in trail ==> Between(before, newUpstreams, r)
      {
        var name :| name in rest;
        upstreams := upstreams[name := newUpstreams[name]];
        trail := trail + [upstreams];
        rest := rest - {name};
      }
    }

    /** Lines 138-141. */
    method Remove(ghost newUpstreams: Registry, deleted: set<string>, ghost before: Registry)
      returns (ghost trail: seq<Registry>)
      requires Between(before, newUpstreams, upstreams)
      modifies this`upstreams
      ensures upstreams == old(upstreams) - deleted
      ensures |trail| > 0 && trail[|trail| - 1] == upstreams
      ensures forall r :: r in trail ==> Between(before, newUpstreams, r)
    {
      trail := [upstreams];
      var rest := deleted;
      while rest != {}
        invariant rest <= deleted
        invariant upstreams == old(upstreams) - (deleted - rest)
        invariant |trail| > 0 && trail[|trail| - 1] == upstreams
        invariant forall r :: r in trail ==> Between(before, newUpstreams, r)
      {
        var name :| name in rest;
        upstreams := upstreams - {name};
        trail := trail + [upstreams];
        rest := rest - {name};
      }
    }
  }

  /** Static upstreams, then what each discoverer found; one that failed adds nothing. */
  method MergeAll(fixed: Registry, found: seq<Discovery>) returns (merged: Registry)
    ensures merged == Merged(fixed, found)
  {
    merged := fixed;
    var i := 0;
    assert found[..0] == [];
    while i < |found|
      invariant 0 <= i <= |found|
      invariant merged == Merged(fixed, found[..i])
    {
      assert found[..i + 1][..i] == found[..i];
      if found[i].Ok? {
        merged := MergeInto(merged, found[i].value);
      }
      i := i + 1;
    }
    assert found[..|found|] == found;
  }

  method MergeInto(base: Registry, extra: Registry) returns (merged: Registry)
    ensures merged == Extend(base, extra)
  {
    merged := base;
    var rest := extra.Keys;
    while rest != {}
      invariant rest <= extra.Keys
      invariant merged.Keys == base.Keys + (extra.Keys - rest)
      invariant forall k :: k in merged ==>
                merged[k] == if k in rest then base[k] else Listed(base, k) + Listed(extra, k)
    {
      var name :| name in rest;
      var list := if name in merged then merged[name] else [];
      merged := merged[name := list + extra[name]];
      rest := rest - {name};
    }
  }

  method DiffUpstreams(old_: Registry, new_: Registry) returns (updated: set<string>, deleted: set<string>)
    ensures updated == Updated(old_, new_) && deleted == Deleted(old_, new_)
  {
    updated, deleted := {}, {};
    var rest := new_.Keys;
    while rest != {}
      invariant rest <= new_.Keys
      invariant updated == set k | k in new_.Keys - rest && Gains(old_, new_, k)
      invariant deleted == set k | k in new_.Keys - rest && k in old_ && Loses(old_, new_, k)
    {
      var name :| name in rest;
      if name in old_ {
        var loses := HasMissing(old_[name], new_[name]);
        if loses {
          deleted := deleted + {name};
        }
        var gains := HasMissing(new_[name], old_[name]);
        if gains {
          updated := updated + {name};
        }
      } else {
        updated := updated + {name};
      }
      rest := rest - {name};
    }
    rest := old_.Keys;
    while rest != {}
      invariant rest <= old_.Keys
      invariant deleted == set k | k in old_ && (k in new_ || k in old_.Keys - rest) && Loses(old_, new_, k)
    {
      var name :| name in rest;
      if name !in new_ {
        deleted := deleted + {name};
      }
      rest := rest - {name};
    }
  }

  /** Whether some element of `xs` is not in `ys`. */
  method HasMissing(xs: seq<Upstream>, ys: seq<Upstream>) returns (b: bool)
    ensures b <==> exists u :: u in xs && u !in ys
  {
    b := false;
    for i := 0 to |xs|
      invariant b <==> exists u :: u in xs[..i] && u !in ys
    {
      assert xs[..i + 1] == xs[..i] + [xs[i]];
      if xs[i] !in ys {
        b := true;
      }
    }
    assert xs[..|xs|] == xs;
  }

  // Rounds

  predicate SameMembers(a: seq<Upstream>, b: seq<Upstream>) {
    (forall u :: u in a ==> u in b) && (forall u :: u in b ==> u in a)
  }

  /** Same services, same upstreams in any order. */
  ghost predicate Follows(r: Registry, found: Registry) {
    r.Keys == found.Keys && forall k :: k in r ==> SameMembers(r[k], found[k])
  }

  /** After a round, whatever is still registered is what was discovered. */
  lemma RoundIsSound(old_: Registry, new_: Registry)
    ensures forall k :: k in Round(old_, new_) ==> k in new_ && SameMembers(Round(old_, new_)[k], new_[k])
  {
  }

  /** The registry follows a single round exactly for the services that lost nothing: one
      that lost an upstream is gone until the next round. */
  lemma PresentExactlyWhen(old_: Registry, new_: Registry, k: string)
    ensures k in Round(old_, new_) <==> k in new_ && (k in old_ ==> forall u :: u in old_[k] ==> u in new_[k])
  {
  }

  lemma FollowsExactlyWhenNothingIsLost(old_: Registry, new_: Registry)
    ensures Follows(Round(old_, new_), new_)
       <==> forall k :: k in old_ && k in new_ ==> forall u :: u in old_[k] ==> u in new_[k]
  {
    RoundIsSound(old_, new_);
    forall k
      ensures k in Round(old_, new_) <==> k in new_ && (k in old_ ==> forall u :: u in old_[k] ==> u in new_[k])
    {
      PresentExactlyWhen(old_, new_, k);
    }
  }

  /** Two rounds that discover the same are enough, from any registry. */
  lemma TwoRoundsConverge(start: Registry, found: Registry, again: Registry)
    requires Follows(again, found)
    ensures Follows(Round(Round(start, found), again), found)
  {
    var one := Round(start, found);
    RoundIsSound(start, found);
    RoundIsSound(one, again);
    forall k ensures k in Round(one, again) <==> k in found {
      PresentExactlyWhen(one, again, k);
    }
  }

  /** A registry that follows is left alone, element by element. */
  lemma SettledIsUnchanged(r: Registry, found: Registry)
    requires Follows(r, found)
    ensures Round(r, found) == r
  {
    assert Updated(r, found) == {} && Deleted(r, found) == {};
  }

  /** The registry after any number of rounds, each with its own discoveries. */
  function After(fixed: Registry, rounds: seq<seq<Discovery>>): Registry {
    if rounds == [] then fixed
    else Round(After(fixed, rounds[..|rounds| - 1]), Merged(fixed, rounds[|rounds| - 1]))
  }

  /** Every static upstream of a registered service is registered. */
  ghost predicate KeepsStatic(fixed: Registry, r: Registry) {
    forall k, u :: k in r && u in Listed(fixed, k) ==> u in r[k]
  }

  lemma {:induction false} MergedKeepsStatic(fixed: Registry, found: seq<Discovery>)
    ensures fixed.Keys <= Merged(fixed, found).Keys && KeepsStatic(fixed, Merged(fixed, found))
  {
    if found != [] {
      MergedKeepsStatic(fixed, found[..|found| - 1]);
    }
  }

  /** In every run, whichever discoverers fail, a registered service has all its static
      upstreams. */
  lemma {:induction false} StaticUpstreamsStay(fixed: Registry, rounds: seq<seq<Discovery>>)
    ensures KeepsStatic(fixed, After(fixed, rounds))
  {
    if rounds != [] {
      var n := |rounds| - 1;
      var new_ := Merged(fixed, rounds[n]);
      StaticUpstreamsStay(fixed, rounds[..n]);
      MergedKeepsStatic(fixed, rounds[n]);
      RoundIsSound(After(fixed, rounds[..n]), new_);
    }
  }

  /** ... and so has whatever a reader finds in the middle of a round. */
  lemma ReadersSeeStatic(fixed: Registry, rounds: seq<seq<Discovery>>, found: seq<Discovery>, r: Registry)
    requires Between(After(fixed, rounds), Merged(fixed, found), r)
    ensures KeepsStatic(fixed, r)
  {
    StaticUpstreamsStay(fixed, rounds);
    MergedKeepsStatic(fixed, found);
  }
}
