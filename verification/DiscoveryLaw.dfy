/** What the registry holds, upstream by upstream: what is configured and what discoverers
    found, and nothing else. */
module DiscoveryLaw {
  import opened Wrappers
  import opened ServiceRegistry

  /** Some successful discoverer found this upstream for this service. */
  predicate Found(found: seq<Discovery>, service: string, u: Upstream) {
    exists i :: 0 <= i < |found| && found[i].Ok? && service in found[i].value && u in found[i].value[service]
  }

  /** Some successful discoverer knows this service. */
  predicate Mentioned(found: seq<Discovery>, service: string) {
    exists i :: 0 <= i < |found| && found[i].Ok? && service in found[i].value
  }

  predicate Configured(fixed: Registry, service: string, u: Upstream) { service in fixed && u in fixed[service] }

  /** What is merged for a service is what is static for it and what was found for it. */
  lemma {:induction false} MergedExactlyWhen(fixed: Registry, found: seq<Discovery>, service: string, u: Upstream)
    ensures Configured(Merged(fixed, found), service, u) <==> Configured(fixed, service, u) || Found(found, service, u)
    ensures service in Merged(fixed, found) <==> service in fixed || Mentioned(found, service)
  {
    if found != [] {
      var n := |found| - 1;
      MergedExactlyWhen(fixed, found[..n], service, u);
      assert Found(found, service, u) <==>
        Found(found[..n], service, u) || (found[n].Ok? && service in found[n].value && u in found[n].value[service]);
      assert Mentioned(found, service) <==>
        Mentioned(found[..n], service) || (found[n].Ok? && service in found[n].value);
    }
  }

  /** The lists of the discoverers, one after the other. */
  function FoundList(found: seq<Discovery>, service: string): seq<Upstream> {
    if found == [] then []
    else if found[0].Ok? && service in found[0].value then found[0].value[service] + FoundList(found[1..], service)
    else FoundList(found[1..], service)
  }

  lemma {:induction false} FoundListSnoc(found: seq<Discovery>, last: Discovery, service: string)
    ensures FoundList(found + [last], service)
         == FoundList(found, service) + if last.Ok? && service in last.value then last.value[service] else []
  {
    if found == [] {
      assert (found + [last])[1..] == [];
    } else {
      assert (found + [last])[1..] == found[1..] + [last];
      FoundListSnoc(found[1..], last, service);
    }
  }

  /** The order of a merged list: static upstreams, then each discoverer's in turn. */
  lemma {:induction false} MergedInOrder(fixed: Registry, found: seq<Discovery>, service: string)
    requires service in Merged(fixed, found)
    ensures var own := if service in fixed then fixed[service] else [];
            Merged(fixed, found)[service] == own + FoundList(found, service)
  {
    if found != [] {
      var n := |found| - 1;
      assert found == found[..n] + [found[n]];
      FoundListSnoc(found[..n], found[n], service);
      if service in Merged(fixed, found[..n]) {
        MergedInOrder(fixed, found[..n], service);
      } else {
        NotMerged(fixed, found[..n], service);
      }
    }
  }

  lemma {:induction false} NotMerged(fixed: Registry, found: seq<Discovery>, service: string)
    requires service !in Merged(fixed, found)
    ensures service !in fixed && FoundList(found, service) == []
  {
    if found != [] {
      var n := |found| - 1;
      assert found == found[..n] + [found[n]];
      FoundListSnoc(found[..n], found[n], service);
      NotMerged(fixed, found[..n], service);
    }
  }

  /** One service after two rounds that found the same: every upstream that is configured or
      was found, and no other. */
  method ReadAfterTwoRounds(registry: ServiceRegistry, found: seq<Discovery>, service: string)
    returns (r: seq<Upstream>)
    modifies registry`upstreams
    ensures forall u :: u in r <==> Configured(registry.staticUpstreams, service, u) || Found(found, service, u)
  {
    var trail := registry.Discover(found);
    trail := registry.Discover(found);
    r := registry.GetUpstreams(service);
    ghost var merged := Merged(registry.staticUpstreams, found);
    TwoRoundsConverge(old(registry.upstreams), merged, merged);
    forall u ensures u in r <==> Configured(registry.staticUpstreams, service, u) || Found(found, service, u) {
      MergedExactlyWhen(registry.staticUpstreams, found, service, u);
    }
  }

  /** One service after one round: nothing if it lost an upstream, else the same. */
  method ReadAfterOneRound(registry: ServiceRegistry, found: seq<Discovery>, service: string) returns (r: seq<Upstream>)
    modifies registry`upstreams
    ensures forall u :: u in r <==>
              && (Configured(registry.staticUpstreams, service, u) || Found(found, service, u))
              && (service in old(registry.upstreams) ==> forall v :: v in old(registry.upstreams)[service] ==>
                    Configured(registry.staticUpstreams, service, v) || Found(found, service, v))
  {
    var trail := registry.Discover(found);
    r := registry.GetUpstreams(service);
    ghost var merged := Merged(registry.staticUpstreams, found);
    forall u {
      MergedExactlyWhen(registry.staticUpstreams, found, service, u);
    }
    RoundIsSound(old(registry.upstreams), merged);
    PresentExactlyWhen(old(registry.upstreams), merged, service);
  }

  // What is configured

  /** Service `i` is the last one of its name. */
  predicate IsLast(configs: seq<ServiceConfig>, i: nat) {
    i < |configs| && forall j :: i < j < |configs| ==> configs[j].name != configs[i].name
  }

  /** The service proxies to this address: over HTTP if it is an HTTP proxy, else over TCP. */
  predicate ProxiesTo(config: ServiceConfig, u: Upstream) {
    match (config.httpProxy, config.tcpProxy)
    case (Some(http), _) => IPAddress(u) in http
    case (None, Some(tcp)) => IPAddress(u) in tcp
    case (None, None) => false
  }

  lemma {:induction false} AddressesExactlyWhen(configs: seq<UpstreamConfig>, u: Upstream)
    ensures u in Addresses(configs) <==> IPAddress(u) in configs
  {
    if configs != [] {
      AddressesExactlyWhen(configs[1..], u);
      assert configs == [configs[0]] + configs[1..];
    }
  }

  /** Addresses are taken in order, and names are passed over. */
  lemma {:induction false} AddressesInOrder(a: seq<UpstreamConfig>, b: seq<UpstreamConfig>)
    ensures Addresses(a + b) == Addresses(a) + Addresses(b)
  {
    if a == [] {
      assert a + b == b;
    } else {
      assert (a + b)[0] == a[0] && (a + b)[1..] == a[1..] + b;
      AddressesInOrder(a[1..], b);
    }
  }

  lemma AddressesOfOne(u: Upstream, name: string)
    ensures Addresses([]) == [] && Addresses([IPAddress(u)]) == [u] && Addresses([Domain(name)]) == []
  {
    assert Addresses([IPAddress(u)][1..]) == [];
  }

  /** The last service of a name has what it proxies to; every service is registered. */
  lemma {:induction false} StaticExactlyWhen(configs: seq<ServiceConfig>, i: nat, u: Upstream)
    requires IsLast(configs, i)
    ensures configs[i].name in StaticUpstreams(configs)
    ensures Configured(StaticUpstreams(configs), configs[i].name, u) <==> ProxiesTo(configs[i], u)
    ensures StaticUpstreams(configs)[configs[i].name]
         == Addresses(match (configs[i].httpProxy, configs[i].tcpProxy)
                      case (Some(http), _) => http
                      case (None, Some(tcp)) => tcp
                      case (None, None) => [])
  {
    var n := |configs| - 1;
    if i < n {
      StaticExactlyWhen(configs[..n], i, u);
    } else {
      if configs[n].httpProxy.Some? {
        AddressesExactlyWhen(configs[n].httpProxy.value, u);
      } else if configs[n].tcpProxy.Some? {
        AddressesExactlyWhen(configs[n].tcpProxy.value, u);
      }
    }
  }

  lemma {:induction false} OnlyConfigured(configs: seq<ServiceConfig>, service: string)
    ensures service in StaticUpstreams(configs) <==> exists i :: 0 <= i < |configs| && configs[i].name == service
  {
    if configs != [] {
      OnlyConfigured(configs[..|configs| - 1], service);
    }
  }
}
