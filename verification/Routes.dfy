/** The edge's routing table (internal/edge/edge.go): what authorize, claim, withdrawAll and
    lookup do to it. */
module Routes {
  import opened ByteText
  import Hosts
  import I = Identity

  /** One connected agent. The id stands for the pointer: two tunnels of one peer differ. */
  datatype Tunnel = Tunnel(id: nat, conn: nat, peerId: Bytes, pubKey: Bytes)

  datatype Route = Route(conn: nat, peerId: Bytes, owner: Tunnel)

  type Table = map<Bytes, Route>

  datatype Config = Config(meshDomains: seq<Bytes>, allowCustom: bool, sha: Bytes -> Bytes)

  ghost predicate ConfigOk(cfg: Config) { I.IsHash(cfg.sha) }

  datatype Refusal = EmptyHost | ManyLabels | WrongLabel | CustomOff | Taken(peerId: Bytes)

  function DotSuffix(domain: Bytes): Bytes { [DOT] + domain }

  /** The first listed mesh domain the host lies under. */
  function MatchingDomain(domains: seq<Bytes>, host: Bytes): Option<Bytes> {
    if domains == [] then None
    else if HasSuffix(host, DotSuffix(domains[0])) then Some(domains[0])
    else MatchingDomain(domains[1..], host)
  }

  /** The host ends in a dot and the domain. */
  predicate Under(host: Bytes, domain: Bytes) {
    |host| > |domain| && host[|host| - |domain| - 1] == 46 && host[|host| - |domain|..] == domain
  }

  lemma UnderIff(host: Bytes, domain: Bytes)
    ensures HasSuffix(host, DotSuffix(domain)) <==> Under(host, domain)
  {
    if |host| > |domain| {
      var n := |host| - |domain| - 1;
      assert host[n..] == [host[n]] + host[n + 1..];
    }
  }

  predicate FirstMatch(domains: seq<Bytes>, host: Bytes, k: nat) {
    k < |domains| && Under(host, domains[k]) && forall j :: 0 <= j < k ==> !Under(host, domains[j])
  }

  lemma {:induction false} MatchingDomainIff(domains: seq<Bytes>, host: Bytes, domain: Bytes)
    ensures MatchingDomain(domains, host) == Some(domain) <==>
              exists k: nat :: FirstMatch(domains, host, k) && domains[k] == domain
  {
    if domains == [] {
      return;
    }
    UnderIff(host, domains[0]);
    if HasSuffix(host, DotSuffix(domains[0])) {
      assert FirstMatch(domains, host, 0);
    } else {
      MatchingDomainIff(domains[1..], host, domain);
      if MatchingDomain(domains, host) == Some(domain) {
        var k: nat :| FirstMatch(domains[1..], host, k) && domains[1..][k] == domain;
        assert FirstMatch(domains, host, k + 1);
      }
      forall k: nat | FirstMatch(domains, host, k) && domains[k] == domain
        ensures FirstMatch(domains[1..], host, k - 1) && domains[1..][k - 1] == domain
      {
        forall j | 0 <= j < k - 1 ensures !Under(host, domains[1..][j]) {
          assert domains[1..][j] == domains[j + 1];
        }
      }
    }
  }

  /** What stands before the first matching mesh domain. */
  function MeshLabel(host: Bytes, domain: Bytes): Bytes { TrimSuffix(host, DotSuffix(domain)) }

  /** The answer for a host under a mesh domain: a calculation from the key. */
  function MeshRefusal(sha: Bytes -> Bytes, name: Bytes, pubKey: Bytes): Option<Refusal>
    requires I.IsHash(sha)
  {
    if DOT in name then Some(ManyLabels)
    else if !I.VerifyHostLabel(sha, name, pubKey) then Some(WrongLabel)
    else None
  }

  /** authorize: why the tunnel may not serve the host, if it may not. */
  function Refused(cfg: Config, routes: Table, tun: Tunnel, host: Bytes): Option<Refusal>
    requires ConfigOk(cfg)
  {
    match MatchingDomain(cfg.meshDomains, host)
    case Some(domain) => MeshRefusal(cfg.sha, MeshLabel(host, domain), tun.pubKey)
    case None =>
      if !cfg.allowCustom then Some(CustomOff)
      else if host in routes && routes[host].peerId != tun.peerId then Some(Taken(routes[host].peerId))
      else None
  }

  /** Under its first mesh domain a host has one label in front, which must be the key's; under
      none it must be allowed, and not be served by another peer. */
  lemma RefusedIff(cfg: Config, routes: Table, tun: Tunnel, host: Bytes, name: Bytes, domain: Bytes)
    requires ConfigOk(cfg)
    ensures MatchingDomain(cfg.meshDomains, host) == Some(domain) && host == name + [46] + domain ==>
              && (Refused(cfg, routes, tun, host) == Some(ManyLabels) <==> 46 in name)
              && (Refused(cfg, routes, tun, host) == Some(WrongLabel) <==>
                    46 !in name && !(|tun.pubKey| == 32 && InSomeCase(name, I.HostLabel(cfg.sha, tun.pubKey))))
              && (Refused(cfg, routes, tun, host) == None <==>
                    46 !in name && |tun.pubKey| == 32 && InSomeCase(name, I.HostLabel(cfg.sha, tun.pubKey)))
    ensures MatchingDomain(cfg.meshDomains, host) == None ==>
              && (Refused(cfg, routes, tun, host) == Some(CustomOff) <==> !cfg.allowCustom)
              && (Refused(cfg, routes, tun, host) == None <==>
                    cfg.allowCustom && (host in routes ==> routes[host].peerId == tun.peerId))
              && forall peer :: Refused(cfg, routes, tun, host) == Some(Taken(peer)) <==>
                    cfg.allowCustom && host in routes && routes[host].peerId == peer != tun.peerId
  {
    if host == name + [46] + domain {
      assert host[..|name|] == name && host[|name|..] == DotSuffix(domain);
      I.LabelsCollideIff(cfg.sha, name, tun.pubKey, tun.pubKey);
    }
  }

  function RouteTo(tun: Tunnel): Route { Route(tun.conn, tun.peerId, tun) }

  /** claim's verdict on one raw hostname. */
  function Verdict(cfg: Config, routes: Table, tun: Tunnel, raw: Bytes): Option<Refusal>
    requires ConfigOk(cfg)
  {
    var host := Hosts.NormalizeHost(raw);
    if host == [] then Some(EmptyHost) else Refused(cfg, routes, tun, host)
  }

  /** The names of a list that pass, normalized, in order. */
  function Accepted(cfg: Config, routes: Table, tun: Tunnel, hostnames: seq<Bytes>): seq<Bytes>
    requires ConfigOk(cfg)
  {
    if hostnames == [] then []
    else
      var last := hostnames[|hostnames| - 1];
      var init := Accepted(cfg, routes, tun, hostnames[..|hostnames| - 1]);
      if Verdict(cfg, routes, tun, last).Some? then init else init + [Hosts.NormalizeHost(last)]
  }

  /** The names that do not, with the reason; an empty one is listed as it was sent. */
  function Rejected(cfg: Config, routes: Table, tun: Tunnel, hostnames: seq<Bytes>): seq<(Bytes, Refusal)>
    requires ConfigOk(cfg)
  {
    if hostnames == [] then []
    else
      var last := hostnames[|hostnames| - 1];
      var host := Hosts.NormalizeHost(last);
      var init := Rejected(cfg, routes, tun, hostnames[..|hostnames| - 1]);
      var verdict := Verdict(cfg, routes, tun, last);
      if verdict.None? then init else init + [(if host == [] then last else host, verdict.value)]
  }

  /** The table with every one of the hosts routed to the tunnel. */
  function Routed(routes: Table, tun: Tunnel, hosts: seq<Bytes>): Table {
    if hosts == [] then routes
    else Routed(routes, tun, hosts[..|hosts| - 1])[hosts[|hosts| - 1] := RouteTo(tun)]
  }

  ghost predicate SameVerdicts(cfg: Config, a: Table, b: Table, tun: Tunnel)
    requires ConfigOk(cfg)
  {
    forall host :: Refused(cfg, a, tun, host) == Refused(cfg, b, tun, host)
  }

  /** A tunnel's own routes never stand in its way, so what it has just claimed changes no
      later verdict of the same tunnel. */
  lemma OwnRouteKeepsVerdicts(cfg: Config, start: Table, routes: Table, tun: Tunnel, host: Bytes)
    requires ConfigOk(cfg) && SameVerdicts(cfg, start, routes, tun) && Refused(cfg, routes, tun, host).None?
    ensures SameVerdicts(cfg, start, routes[host := RouteTo(tun)], tun)
  {
    forall other ensures Refused(cfg, start, tun, other) == Refused(cfg, routes[host := RouteTo(tun)], tun, other) {
      assert Refused(cfg, start, tun, other) == Refused(cfg, routes, tun, other);
    }
  }

  function Withdrawn(routes: Table, tun: Tunnel): Table {
    map host | host in routes && routes[host].owner != tun :: routes[host]
  }

  /** One more name judged. */
  lemma OneMore(cfg: Config, routes: Table, tun: Tunnel, hostnames: seq<Bytes>, i: nat)
    requires ConfigOk(cfg) && i < |hostnames|
    ensures var verdict, host := Verdict(cfg, routes, tun, hostnames[i]), Hosts.NormalizeHost(hostnames[i]);
            var accepted := Accepted(cfg, routes, tun, hostnames[..i]);
            var rejected := Rejected(cfg, routes, tun, hostnames[..i]);
            && (verdict.None? ==>
                  && Accepted(cfg, routes, tun, hostnames[..i + 1]) == accepted + [host]
                  && Rejected(cfg, routes, tun, hostnames[..i + 1]) == rejected)
            && (verdict.Some? ==>
                  && Accepted(cfg, routes, tun, hostnames[..i + 1]) == accepted
                  && Rejected(cfg, routes, tun, hostnames[..i + 1]) ==
                       rejected + [(if host == [] then hostnames[i] else host, verdict.value)])
  {
    assert hostnames[..i + 1][..i] == hostnames[..i];
  }

  lemma KeepsAccepted(cfg: Config, routes: Table, tun: Tunnel, list: seq<Bytes>, init: seq<Bytes>, host: Bytes)
    requires ConfigOk(cfg) && list != [] && init == list[..|list| - 1]
    ensures host in Accepted(cfg, routes, tun, init) ==> host in Accepted(cfg, routes, tun, list)
  {
  }

  /** The name is not empty and the policy has nothing against it. */
  predicate Passes(cfg: Config, routes: Table, tun: Tunnel, host: Bytes)
    requires ConfigOk(cfg)
  {
    host != [] && Refused(cfg, routes, tun, host).None?
  }

  lemma VerdictPasses(cfg: Config, routes: Table, tun: Tunnel, raw: Bytes)
    requires ConfigOk(cfg)
    ensures Verdict(cfg, routes, tun, raw).None? <==> Passes(cfg, routes, tun, Hosts.NormalizeHost(raw))
  {
  }

  lemma {:induction false} AcceptedPasses(cfg: Config, routes: Table, tun: Tunnel, list: seq<Bytes>, host: Bytes)
    requires ConfigOk(cfg) && host in Accepted(cfg, routes, tun, list)
    ensures Passes(cfg, routes, tun, host)
    decreases |list|
  {
    var last, init := list[|list| - 1], list[..|list| - 1];
    if host in Accepted(cfg, routes, tun, init) {
      AcceptedPasses(cfg, routes, tun, init, host);
    } else {
      VerdictPasses(cfg, routes, tun, last);
    }
  }

  lemma LastAccepted(cfg: Config, routes: Table, tun: Tunnel, list: seq<Bytes>, host: Bytes)
    requires ConfigOk(cfg) && list != [] && host == Hosts.NormalizeHost(list[|list| - 1])
    ensures Passes(cfg, routes, tun, host) ==> host in Accepted(cfg, routes, tun, list)
  {
    VerdictPasses(cfg, routes, tun, list[|list| - 1]);
  }

  lemma {:induction false} PassingAccepted(cfg: Config, routes: Table, tun: Tunnel, list: seq<Bytes>, i: nat,
                                           raw: Bytes, host: Bytes)
    requires ConfigOk(cfg) && i < |list| && list[i] == raw && host == Hosts.NormalizeHost(raw)
    requires Passes(cfg, routes, tun, host)
    ensures host in Accepted(cfg, routes, tun, list)
    decreases |list|
  {
    if i == |list| - 1 {
      LastAccepted(cfg, routes, tun, list, host);
    } else {
      var init := list[..|list| - 1];
      PassingAccepted(cfg, routes, tun, init, i, raw, host);
      KeepsAccepted(cfg, routes, tun, list, init, host);
    }
  }

  /** What a claim does for one of its names, whatever stands beside it. */
  lemma AcceptedIff(cfg: Config, routes: Table, tun: Tunnel, list: seq<Bytes>, i: nat, host: Bytes)
    requires ConfigOk(cfg) && i < |list| && host == Hosts.NormalizeHost(list[i])
    ensures host in Accepted(cfg, routes, tun, list) <==> Passes(cfg, routes, tun, host)
  {
    if Passes(cfg, routes, tun, host) {
      PassingAccepted(cfg, routes, tun, list, i, list[i], host);
    }
    if host in Accepted(cfg, routes, tun, list) {
      AcceptedPasses(cfg, routes, tun, list, host);
    }
  }

  lemma OneAccepted(cfg: Config, routes: Table, tun: Tunnel, raw: Bytes)
    requires ConfigOk(cfg)
    ensures var host := Hosts.NormalizeHost(raw);
            Accepted(cfg, routes, tun, [raw]) == if Passes(cfg, routes, tun, host) then [host] else []
  {
    VerdictPasses(cfg, routes, tun, raw);
    assert Accepted(cfg, routes, tun, [raw][..0]) == [];
  }

  /** Names are judged one by one: what a claim answers to a list is what it answers to its parts,
      in order. */
  lemma {:induction false} ClaimConcat(cfg: Config, routes: Table, tun: Tunnel, a: seq<Bytes>, b: seq<Bytes>)
    requires ConfigOk(cfg)
    ensures Accepted(cfg, routes, tun, a + b) == Accepted(cfg, routes, tun, a) + Accepted(cfg, routes, tun, b)
    ensures Rejected(cfg, routes, tun, a + b) == Rejected(cfg, routes, tun, a) + Rejected(cfg, routes, tun, b)
    decreases |b|
  {
    hide Verdict, Hosts.NormalizeHost;
    if b == [] {
      assert a + b == a;
    } else {
      var n := |b| - 1;
      ClaimConcat(cfg, routes, tun, a, b[..n]);
      assert (a + b)[..|a| + n] == a + b[..n] && (a + b)[|a| + n] == b[n];
    }
  }

  /** A rejected name is listed normalized, or as it was sent when nothing is left of it. */
  lemma OneRejected(cfg: Config, routes: Table, tun: Tunnel, raw: Bytes)
    requires ConfigOk(cfg)
    ensures var host := Hosts.NormalizeHost(raw);
            && (host == [] ==> Rejected(cfg, routes, tun, [raw]) == [(raw, EmptyHost)])
            && (host != [] && Refused(cfg, routes, tun, host).Some? ==>
                  Rejected(cfg, routes, tun, [raw]) == [(host, Refused(cfg, routes, tun, host).value)])
            && (Passes(cfg, routes, tun, host) ==> Rejected(cfg, routes, tun, [raw]) == [])
  {
    assert Rejected(cfg, routes, tun, [raw][..0]) == [];
  }

  lemma OneMoreRouted(routes: Table, tun: Tunnel, hosts: seq<Bytes>, host: Bytes)
    ensures Routed(routes, tun, hosts + [host]) == Routed(routes, tun, hosts)[host := RouteTo(tun)]
  {
    assert (hosts + [host])[..|hosts|] == hosts;
  }

  class Server {
    const cfg: Config
    var routes: Table

    constructor (cfg: Config)
      ensures this.cfg == cfg && routes == map[]
    {
      this.cfg := cfg;
      routes := map[];
    }

    method Authorize(tun: Tunnel, host: Bytes) returns (refusal: Option<Refusal>)
      requires ConfigOk(cfg)
      ensures refusal == Refused(cfg, routes, tun, host)
    {
      for i := 0 to |cfg.meshDomains|
        invariant MatchingDomain(cfg.meshDomains, host) == MatchingDomain(cfg.meshDomains[i..], host)
      {
        var suffix := DotSuffix(cfg.meshDomains[i]);
        if !HasSuffix(host, suffix) {
          continue;
        }
        var name := TrimSuffix(host, suffix);
        if DOT in name {
          return Some(ManyLabels);
        }
        if !I.VerifyHostLabel(cfg.sha, name, tun.pubKey) {
          return Some(WrongLabel);
        }
        return None;
      }
      if !cfg.allowCustom {
        return Some(CustomOff);
      }
      if host in routes && routes[host].peerId != tun.peerId {
        return Some(Taken(routes[host].peerId));
      }
      return None;
    }

    /** claim: every name is judged as if it came first, in whatever order they are sent;
        routes are added for those that pass and none is taken away. */
    method Claim(tun: Tunnel, hostnames: seq<Bytes>)
        returns (accepted: seq<Bytes>, rejected: seq<(Bytes, Refusal)>)
      requires ConfigOk(cfg)
      modifies this`routes
      ensures accepted == Accepted(cfg, old(routes), tun, hostnames)
      ensures rejected == Rejected(cfg, old(routes), tun, hostnames)
      ensures routes == Routed(old(routes), tun, accepted)
    {
      accepted, rejected := [], [];
      for i := 0 to |hostnames|
        invariant accepted == Accepted(cfg, old(routes), tun, hostnames[..i])
        invariant rejected == Rejected(cfg, old(routes), tun, hostnames[..i])
        invariant routes == Routed(old(routes), tun, accepted)
        invariant SameVerdicts(cfg, old(routes), routes, tun)
      {
        OneMore(cfg, old(routes), tun, hostnames, i);
        var host := Hosts.NormalizeHost(hostnames[i]);
        if host == [] {
          rejected := rejected + [(hostnames[i], EmptyHost)];
          continue;
        }
        var refusal := Authorize(tun, host);
        if refusal.Some? {
          rejected := rejected + [(host, refusal.value)];
          continue;
        }
        OwnRouteKeepsVerdicts(cfg, old(routes), routes, tun, host);
        OneMoreRouted(old(routes), tun, accepted, host);
        routes := routes[host := RouteTo(tun)];
        accepted := accepted + [host];
      }
      assert hostnames[..|hostnames|] == hostnames;
    }

    /** withdrawAll: a departing tunnel takes exactly its own routes with it. */
    method WithdrawAll(tun: Tunnel)
      modifies this`routes
      ensures routes == Withdrawn(old(routes), tun)
    {
      var todo := routes.Keys;
      while todo != {}
        invariant todo <= routes.Keys <= old(routes).Keys
        invariant forall h :: h in routes ==> routes[h] == old(routes)[h]
        invariant forall h :: h in old(routes) && h !in todo ==> (h in routes <==> old(routes)[h].owner != tun)
        decreases |todo|
      {
        var host :| host in todo;
        if routes[host].owner == tun {
          routes := routes - {host};
        }
        todo := todo - {host};
      }
    }

    function Lookup(host: Bytes): Option<Route>
      reads this
    {
      if host in routes then Some(routes[host]) else None
    }
  }
}
