/** Names below the mesh domains: who can hold one (internal/edge/edge.go, lines 278-292), and
    whether a peer gets the one the gateway tells it (internal/gateway/gateway.go, lines
    221-225). */
module MeshNames {
  import opened ByteText
  import opened Routes
  import opened RouteRuns
  import A = Agent
  import Hosts
  import I = Identity

  /** One key, or two for which SHA-256 has a collision in twelve bytes: their label messages. */
  ghost predicate SameOrCollide(cfg: Config, p: Bytes, q: Bytes)
    requires ConfigOk(cfg)
  {
    p == q || I.Collide(cfg.sha, I.NameMessage(p), I.NameMessage(q), 12)
  }

  /** Two keys hold one mesh name, at any two moments of any runs, only when their messages
      collide. */
  lemma MeshHoldersCollide(cfg: Config, first: seq<Step>, second: seq<Step>, host: Bytes)
    requires ConfigOk(cfg) && MatchingDomain(cfg.meshDomains, host).Some?
    ensures var e, f := Run(cfg, START, first), Run(cfg, START, second);
            host in e.routes && host in f.routes ==>
              SameOrCollide(cfg, e.routes[host].owner.pubKey, f.routes[host].owner.pubKey)
  {
    EveryRunIsSafe(cfg, first);
    EveryRunIsSafe(cfg, second);
    var e, f := Run(cfg, START, first), Run(cfg, START, second);
    if host in e.routes && host in f.routes {
      assert RouteOk(cfg, e, host) && RouteOk(cfg, f, host);
      SameLabel(cfg, e.routes[host].owner.pubKey, f.routes[host].owner.pubKey,
                DotSuffix(MatchingDomain(cfg.meshDomains, host).value));
    }
  }

  lemma SameLabel(cfg: Config, p: Bytes, q: Bytes, suffix: Bytes)
    requires ConfigOk(cfg)
    ensures I.HostLabel(cfg.sha, p) + suffix == I.HostLabel(cfg.sha, q) + suffix <==> SameOrCollide(cfg, p, q)
  {
    I.LabelsEqualIff(cfg.sha, p, q);
    if I.HostLabel(cfg.sha, p) + suffix == I.HostLabel(cfg.sha, q) + suffix {
      I.LabelShape(cfg.sha, p);
      I.LabelShape(cfg.sha, q);
      var both := I.HostLabel(cfg.sha, p) + suffix;
      assert I.HostLabel(cfg.sha, p) == both[..20] && I.HostLabel(cfg.sha, q) == both[..20];
    }
  }

  /** And then it does happen: a claim on a mesh name that is being served takes it over
      exactly when the messages collide. Being first does not matter here. */
  lemma MeshTakeoverIff(cfg: Config, e: Edge, tun: Tunnel, raw: Bytes)
    requires ConfigOk(cfg) && Inv(cfg, e) && IsIdle(e, tun)
    requires Hosts.NormalizeHost(raw) in e.routes && Hosts.NormalizeHost(raw) != []
    requires MatchingDomain(cfg.meshDomains, Hosts.NormalizeHost(raw)).Some?
    ensures var host := Hosts.NormalizeHost(raw);
            AfterClaim(cfg, e.routes, tun, raw)[host].owner == tun <==>
              SameOrCollide(cfg, tun.pubKey, e.routes[host].owner.pubKey)
  {
    var host := Hosts.NormalizeHost(raw);
    var domain := MatchingDomain(cfg.meshDomains, host).value;
    var owner := e.routes[host].owner;
    assert RouteOk(cfg, e, host) && TunnelOk(cfg, e, tun);
    MatchingHasSuffix(cfg.meshDomains, host);
    NormalizedIsLower(raw);
    MeshRefusalIff(cfg, tun, host, domain);
    SameLabel(cfg, tun.pubKey, owner.pubKey, DotSuffix(domain));
  }

  // ---------- the automatic address ----------

  /** The name a gateway computes for a peer. */
  function AutomaticName(cfg: Config, pub: Bytes, domain: Bytes): Bytes
    requires ConfigOk(cfg)
  {
    I.HostLabel(cfg.sha, pub) + DotSuffix(domain)
  }

  /** A label without a dot adds no new suffix that begins with one. */
  lemma SuffixBelowLabel(name: Bytes, tail: Bytes, other: Bytes)
    requires DOT !in name
    ensures HasSuffix(name + tail, DotSuffix(other)) <==> HasSuffix(tail, DotSuffix(other))
  {
    var host, n := name + tail, |DotSuffix(other)|;
    if n <= |tail| {
      assert host[|host| - n..] == tail[|tail| - n..];
    } else if n <= |host| {
      assert host[|host| - n] == name[|host| - n];
      assert host[|host| - n..][0] == host[|host| - n] && DotSuffix(other)[0] == DOT;
    }
  }

  lemma {:induction false} MatchBelowLabel(domains: seq<Bytes>, name: Bytes, tail: Bytes)
    requires DOT !in name
    ensures MatchingDomain(domains, name + tail) == MatchingDomain(domains, tail)
  {
    if domains != [] {
      SuffixBelowLabel(name, tail, domains[0]);
      MatchBelowLabel(domains[1..], name, tail);
    }
  }

  lemma HostLabelText(cfg: Config, pub: Bytes)
    requires ConfigOk(cfg)
    ensures var name := I.HostLabel(cfg.sha, pub); Hosts.LabelText(name) && DOT !in name
  {
    I.LabelShape(cfg.sha, pub);
  }

  /** The gateway's name is normalized below its label alone, by the agent and by the edge. */
  lemma AutomaticNormalized(cfg: Config, pub: Bytes, tail: Bytes)
    requires ConfigOk(cfg) && (tail != [] ==> tail[0] == DOT)
    ensures Hosts.NormalizeHost(I.HostLabel(cfg.sha, pub) + tail) ==
              I.HostLabel(cfg.sha, pub) + Hosts.NormalizeHost(tail)
  {
    HostLabelText(cfg, pub);
    Hosts.NormalizeAfter(I.HostLabel(cfg.sha, pub), tail);
  }

  /** The edge takes what stands below the label for one of its domains, or takes custom names
      and this one is free or the peer's. */
  ghost predicate TailPasses(cfg: Config, routes: Table, tun: Tunnel, tail: Bytes)
    requires ConfigOk(cfg)
  {
    match MatchingDomain(cfg.meshDomains, tail)
    case Some(first) => tail == DotSuffix(first)
    case None =>
      var host := I.HostLabel(cfg.sha, tun.pubKey) + tail;
      cfg.allowCustom && (host in routes ==> routes[host].peerId == tun.peerId)
  }

  lemma SameTail(name: Bytes, p: Bytes, q: Bytes)
    ensures name + p == name + q <==> p == q
  {
    if name + p == name + q {
      assert (name + p)[|name|..] == p && (name + q)[|name|..] == q;
    }
  }

  lemma EntitledBelowLabel(cfg: Config, tun: Tunnel, tail: Bytes)
    requires ConfigOk(cfg)
    ensures Entitled(cfg, tun, I.HostLabel(cfg.sha, tun.pubKey) + tail) <==>
              match MatchingDomain(cfg.meshDomains, tail)
              case Some(first) => tail == DotSuffix(first)
              case None => cfg.allowCustom
  {
    var name := I.HostLabel(cfg.sha, tun.pubKey);
    HostLabelText(cfg, tun.pubKey);
    MatchBelowLabel(cfg.meshDomains, name, tail);
    var first := MatchingDomain(cfg.meshDomains, tail);
    if first.Some? {
      SameTail(name, tail, DotSuffix(first.value));
    }
  }

  /** A claim on any name that begins with the label of the key passes exactly when what
      normalizing leaves below the label is exactly the first domain of the edge that it lies
      under, or it lies under none, the edge takes custom names and no other peer has it. */
  lemma BelowLabelIff(cfg: Config, routes: Table, tun: Tunnel, tail: Bytes)
    requires ConfigOk(cfg) && |tun.pubKey| == I.PUBLIC_KEY_SIZE && (tail != [] ==> tail[0] == DOT)
    ensures Verdict(cfg, routes, tun, I.HostLabel(cfg.sha, tun.pubKey) + tail).None? <==>
              TailPasses(cfg, routes, tun, Hosts.NormalizeHost(tail))
  {
    var name, left := I.HostLabel(cfg.sha, tun.pubKey), Hosts.NormalizeHost(tail);
    AutomaticNormalized(cfg, tun.pubKey, tail);
    PolicyIff(cfg, routes, tun, name + tail);
    HostLabelText(cfg, tun.pubKey);
    EntitledBelowLabel(cfg, tun, left);
    MatchBelowLabel(cfg.meshDomains, name, left);
  }

  /** So the automatic name below any domain, in whatever form New has left it, passes at an
      edge exactly when the domain as normalizing leaves it is the first listed one that it
      lies under, or the edge would take it as a custom name. */
  lemma AutomaticNameIff(cfg: Config, routes: Table, tun: Tunnel, domain: Bytes)
    requires ConfigOk(cfg) && |tun.pubKey| == I.PUBLIC_KEY_SIZE
    ensures Verdict(cfg, routes, tun, AutomaticName(cfg, tun.pubKey, domain)).None? <==>
              TailPasses(cfg, routes, tun, Hosts.NormalizeHost(DotSuffix(domain)))
  {
    BelowLabelIff(cfg, routes, tun, DotSuffix(domain));
  }

  // ---------- the welcome ----------

  /** The names a gateway's welcome offers to a peer. */
  function OfferedNames(cfg: Config, pub: Bytes, domains: seq<Bytes>): (names: seq<Bytes>)
    requires ConfigOk(cfg)
    ensures |names| == |domains|
    ensures forall k :: 0 <= k < |domains| ==> names[k] == AutomaticName(cfg, pub, domains[k])
  {
    seq(|domains|, k requires 0 <= k < |domains| => AutomaticName(cfg, pub, domains[k]))
  }

  /** What normalizing leaves of a domain below a label. */
  function Tail(domain: Bytes): Bytes { Hosts.NormalizeHost(DotSuffix(domain)) }

  ghost predicate WelcomeTaken(cfg: Config, pub: Bytes, domains: seq<Bytes>)
    requires ConfigOk(cfg)
  {
    A.AllGood(I.HostLabel(cfg.sha, pub), OfferedNames(cfg, pub, domains))
  }

  lemma FirstDot(name: Bytes, tail: Bytes)
    requires DOT !in name && (tail != [] ==> tail[0] == DOT)
    ensures Index(name + tail, [DOT]) == if tail == [] then -1 else |name|
  {
    var s := name + tail;
    forall k | 0 <= k < |s| ensures At(s, [DOT], k) <==> s[k] == DOT {
      AtIff(s, [DOT], k);
      assert s[k + 0] == s[k];
    }
    if tail != [] {
      IndexIs(s, [DOT], |name|);
    }
  }

  /** The agent takes the offered name for its own exactly when something is left of the domain. */
  lemma GoodOfferIff(cfg: Config, pub: Bytes, domain: Bytes)
    requires ConfigOk(cfg)
    ensures A.GoodOffer(I.HostLabel(cfg.sha, pub), AutomaticName(cfg, pub, domain)) <==> Tail(domain) != []
  {
    var name, tail := I.HostLabel(cfg.sha, pub), Tail(domain);
    HostLabelText(cfg, pub);
    AutomaticNormalized(cfg, pub, DotSuffix(domain));
    Hosts.NormalizeAfter(name, DotSuffix(domain));
    FirstDot(name, tail);
    assert (name + tail)[..|name|] == name;
  }

  /** And it takes the welcome exactly when something is left of every domain of the gateway: one
      that vanishes loses the names below all the others too. */
  lemma WelcomeTakenIff(cfg: Config, pub: Bytes, domains: seq<Bytes>)
    requires ConfigOk(cfg)
    ensures WelcomeTaken(cfg, pub, domains) <==> forall d :: d in domains ==> Tail(d) != []
  {
    var names := OfferedNames(cfg, pub, domains);
    forall k | 0 <= k < |domains|
      ensures A.GoodOffer(I.HostLabel(cfg.sha, pub), names[k]) <==> Tail(domains[k]) != []
    {
      GoodOfferIff(cfg, pub, domains[k]);
    }
    forall d | d in domains && WelcomeTaken(cfg, pub, domains) ensures Tail(d) != [] {
      var k :| 0 <= k < |domains| && domains[k] == d;
      assert A.GoodOffer(I.HostLabel(cfg.sha, pub), names[k]);
    }
  }

  /** What two more passes leave below the label: the tail of the name that the agent looks up
      when the edge announces the one it holds for this domain. */
  function LookedUp(domain: Bytes): Bytes { Hosts.NormalizeHost(Hosts.NormalizeHost(Tail(domain))) }

  /** The agent holds a name with its label for every domain of the gateway, normalized, and
      none besides. */
  lemma OfferedHeldIff(cfg: Config, pub: Bytes, domains: seq<Bytes>, tail: Bytes)
    requires ConfigOk(cfg)
    ensures var name := I.HostLabel(cfg.sha, pub);
            name + tail in A.NormalForms(OfferedNames(cfg, pub, domains)) <==>
              exists d :: d in domains && Tail(d) == tail
  {
    hide Hosts.NormalizeHost;
    var name, names := I.HostLabel(cfg.sha, pub), OfferedNames(cfg, pub, domains);
    HostLabelText(cfg, pub);
    A.NormalFormsIff(names, name + tail);
    forall k | 0 <= k < |domains|
      ensures Hosts.NormalizeHost(names[k]) == name + tail <==> Tail(domains[k]) == tail
    {
      AutomaticNormalized(cfg, pub, DotSuffix(domains[k]));
      SameTail(name, Tail(domains[k]), tail);
    }
  }

  /** Below a label two passes are two passes on the rest. */
  lemma HeldPassesOn(cfg: Config, pub: Bytes, domain: Bytes)
    requires ConfigOk(cfg)
    ensures var name, tail := I.HostLabel(cfg.sha, pub), Tail(domain);
            && Hosts.NormalizeHost(AutomaticName(cfg, pub, domain)) == name + tail
            && Hosts.NormalizeHost(name + tail) == name + Hosts.NormalizeHost(tail)
            && Hosts.NormalizeHost(name + Hosts.NormalizeHost(tail)) == name + LookedUp(domain)
            && (tail != [] ==> tail[0] == DOT)
  {
    hide Hosts.NormalizeHost;
    var name, tail := I.HostLabel(cfg.sha, pub), Tail(domain);
    HostLabelText(cfg, pub);
    Hosts.NormalizeAfter(name, DotSuffix(domain));
    Hosts.NormalizeAfter(name, tail);
    Hosts.NormalizeAfter(name, Hosts.NormalizeHost(tail));
  }

  /** The whole path of an automatic name: the agent takes the welcome, claims the names it then
      holds, in any order and beside any custom ones, the edge accepts this one, and the agent
      serves what the edge announces. It works exactly when something is left of every domain
      of the gateway, what the edge makes of the held name passes, and the name the agent then
      looks up is one that it holds, for this domain, for another or as a custom one. */
  lemma AutomaticNameMeetsIff(cfg: Config, routes: Table, tun: Tunnel, domains: seq<Bytes>, domain: Bytes,
                              custom: set<Bytes>, list: seq<Bytes>)
    requires ConfigOk(cfg) && |tun.pubKey| == I.PUBLIC_KEY_SIZE && domain in domains
    requires A.Held(list) == custom + A.NormalForms(OfferedNames(cfg, tun.pubKey, domains))
    ensures var name := I.HostLabel(cfg.sha, tun.pubKey);
            && WelcomeTaken(cfg, tun.pubKey, domains)
            && A.Meets(cfg, routes, tun, list, Hosts.NormalizeHost(AutomaticName(cfg, tun.pubKey, domain))) <==>
              && (forall d :: d in domains ==> Tail(d) != [])
              && TailPasses(cfg, routes, tun, Hosts.NormalizeHost(Tail(domain)))
              && ((exists d :: d in domains && Tail(d) == LookedUp(domain)) || name + LookedUp(domain) in custom)
  {
    hide Hosts.NormalizeHost, TailPasses, A.Meets, Passes, Verdict, LookedUp, WelcomeTaken;
    var name, tail := I.HostLabel(cfg.sha, tun.pubKey), Tail(domain);
    HeldPassesOn(cfg, tun.pubKey, domain);
    WelcomeTakenIff(cfg, tun.pubKey, domains);
    OfferedHeldIff(cfg, tun.pubKey, domains, tail);
    OfferedHeldIff(cfg, tun.pubKey, domains, LookedUp(domain));
    assert name + tail in A.Held(list);
    assert name + LookedUp(domain) in list <==> name + LookedUp(domain) in A.Held(list);
    A.HeldNameMeetsIff(cfg, routes, tun, list, name + tail);
    VerdictPasses(cfg, routes, tun, name + tail);
    BelowLabelIff(cfg, routes, tun, tail);
  }

  /** With one domain and no custom names: exactly when something is left of the domain, nothing
      is left to normalize in the name that is held, and that passes. */
  lemma LoneDomainMeetsIff(cfg: Config, routes: Table, tun: Tunnel, domain: Bytes, list: seq<Bytes>)
    requires ConfigOk(cfg) && |tun.pubKey| == I.PUBLIC_KEY_SIZE
    requires A.Held(list) == A.NormalForms(OfferedNames(cfg, tun.pubKey, [domain]))
    ensures WelcomeTaken(cfg, tun.pubKey, [domain])
            && A.Meets(cfg, routes, tun, list, Hosts.NormalizeHost(AutomaticName(cfg, tun.pubKey, domain))) <==>
              Tail(domain) != [] && Hosts.Settled(Tail(domain)) && TailPasses(cfg, routes, tun, Tail(domain))
  {
    hide Hosts.NormalizeHost, TailPasses, A.Meets;
    AutomaticNameMeetsIff(cfg, routes, tun, [domain], domain, {}, list);
    A.TwiceIsItselfIff(Tail(domain));
    Hosts.FixedIffSettled(Tail(domain));
  }

  /** A domain that vanishes, as "" or ":80": the agent refuses the welcome, whatever else the
      gateway offers, ... */
  lemma VanishingDomainLosesAll(cfg: Config, pub: Bytes, domains: seq<Bytes>, domain: Bytes)
    requires ConfigOk(cfg) && domain in domains
    requires domain == [] || Hosts.PortText(domain)
    ensures !WelcomeTaken(cfg, pub, domains)
  {
    Hosts.PortAloneIsEmpty(domain);
    WelcomeTakenIff(cfg, pub, domains);
  }

  /** ... although an edge that takes custom names would let the bare label pass. */
  lemma BareLabelPasses(cfg: Config, routes: Table, tun: Tunnel, domain: Bytes)
    requires ConfigOk(cfg) && |tun.pubKey| == I.PUBLIC_KEY_SIZE && Tail(domain) == []
    requires cfg.allowCustom && I.HostLabel(cfg.sha, tun.pubKey) !in routes
    ensures Verdict(cfg, routes, tun, AutomaticName(cfg, tun.pubKey, domain)).None?
  {
    AutomaticNameIff(cfg, routes, tun, domain);
    NothingMatches(cfg.meshDomains);
    assert I.HostLabel(cfg.sha, tun.pubKey) + [] == I.HostLabel(cfg.sha, tun.pubKey);
  }

  lemma {:induction false} NothingMatches(domains: seq<Bytes>)
    ensures MatchingDomain(domains, []).None?
  {
    if domains != [] {
      NothingMatches(domains[1..]);
    }
  }

  lemma {:induction false} ListedMatches(domains: seq<Bytes>, domain: Bytes)
    requires domain in domains
    ensures MatchingDomain(domains, DotSuffix(domain)).Some?
  {
    if domains[0] != domain {
      ListedMatches(domains[1..], domain);
    } else {
      assert DotSuffix(domain)[0..] == DotSuffix(domain);
    }
  }

  /** For a listed domain with nothing left to normalize, the order of the list alone decides:
      no other domain that it lies under may stand before it. */
  lemma ListedDomainIff(cfg: Config, routes: Table, tun: Tunnel, domain: Bytes)
    requires ConfigOk(cfg) && |tun.pubKey| == I.PUBLIC_KEY_SIZE
    requires Hosts.Settled(DotSuffix(domain)) && domain in cfg.meshDomains
    ensures Verdict(cfg, routes, tun, AutomaticName(cfg, tun.pubKey, domain)).None? <==>
              forall k: nat :: FirstMatch(cfg.meshDomains, DotSuffix(domain), k) ==> cfg.meshDomains[k] == domain
  {
    AutomaticNameIff(cfg, routes, tun, domain);
    Hosts.FixedIffSettled(DotSuffix(domain));
    ListedMatches(cfg.meshDomains, domain);
    FirstListedIff(cfg.meshDomains, domain);
  }

  lemma FirstListedIff(domains: seq<Bytes>, domain: Bytes)
    requires MatchingDomain(domains, DotSuffix(domain)).Some?
    ensures DotSuffix(domain) == DotSuffix(MatchingDomain(domains, DotSuffix(domain)).value) <==>
              forall k: nat :: FirstMatch(domains, DotSuffix(domain), k) ==> domains[k] == domain
  {
    var first := MatchingDomain(domains, DotSuffix(domain)).value;
    MatchingDomainIff(domains, DotSuffix(domain), first);
    SameTail([DOT], domain, first);
    forall k: nat | FirstMatch(domains, DotSuffix(domain), k) ensures domains[k] == first {
      MatchingDomainIff(domains, DotSuffix(domain), domains[k]);
    }
  }

  /** It does go wrong: with "b.c" listed before "a.b.c", no key gets its name below "a.b.c". */
  lemma NestedDomainIsLost(cfg: Config, routes: Table, tun: Tunnel, outer: Bytes, inner: Bytes)
    requires ConfigOk(cfg) && |tun.pubKey| == I.PUBLIC_KEY_SIZE
    requires outer == [98, DOT, 99] && inner == [97, DOT] + outer && cfg.meshDomains == [outer, inner]
    ensures Verdict(cfg, routes, tun, AutomaticName(cfg, tun.pubKey, inner)).Some?
  {
    NothingToNormalize(inner);
    assert DotSuffix(inner)[2..] == DotSuffix(outer);
    assert FirstMatch(cfg.meshDomains, DotSuffix(inner), 0) && cfg.meshDomains[0] != inner;
    ListedDomainIff(cfg, routes, tun, inner);
  }

  lemma NothingToNormalize(domain: Bytes)
    requires Hosts.Canonical(domain)
    ensures Hosts.Settled(DotSuffix(domain))
  {
    assert forall k :: 1 <= k <= |domain| ==> DotSuffix(domain)[k] == domain[k - 1];
    Hosts.CanonicalFixed(DotSuffix(domain));
    Hosts.FixedIffSettled(DotSuffix(domain));
  }

  /** And with a single domain too: one with a trailing dot, as "c.", stays in the list as it
      is, but a name below it loses the dot and lies below no listed domain any more. */
  lemma TrailingDotIsLost(cfg: Config, routes: Table, tun: Tunnel, domain: Bytes, bare: Bytes)
    requires ConfigOk(cfg) && |tun.pubKey| == I.PUBLIC_KEY_SIZE
    requires Hosts.Canonical(bare) && domain == bare + [DOT] && cfg.meshDomains == [domain] && !cfg.allowCustom
    ensures forall k: nat :: FirstMatch(cfg.meshDomains, DotSuffix(domain), k) ==> cfg.meshDomains[k] == domain
    ensures Verdict(cfg, routes, tun, AutomaticName(cfg, tun.pubKey, domain)).Some?
  {
    AutomaticNameIff(cfg, routes, tun, domain);
    DotDroppedBelow(domain, bare);
    LongerDomain(domain, bare);
  }

  lemma LongerDomain(domain: Bytes, bare: Bytes)
    requires |bare| < |domain|
    ensures MatchingDomain([domain], DotSuffix(bare)).None?
  {
    assert [domain][1..] == [];
  }

  lemma DotDroppedBelow(domain: Bytes, bare: Bytes)
    requires Hosts.Canonical(bare) && domain == bare + [DOT]
    ensures Hosts.NormalizeHost(DotSuffix(domain)) == DotSuffix(bare)
  {
    hide Hosts.NormalizeHost;
    assert forall k :: 1 <= k <= |bare| ==> DotSuffix(bare)[k] == bare[k - 1];
    Hosts.OneDot(DotSuffix(bare));
    assert DotSuffix(domain) == DotSuffix(bare) + [DOT];
  }
}
