/** The routing table under every interleaving. Each tunnel has its own goroutine, and a claim
    is two steps of it: authorize reads the table under the lock, and the route is written
    under the lock later (internal/edge/edge.go, lines 175-193 and 246-317). */
module RouteRuns {
  import opened ByteText
  import opened Routes
  import Hosts
  import I = Identity

  /** Where a tunnel's goroutine stands in claim. */
  datatype Phase = Idle | Checked(host: Bytes)

  datatype Edge = Edge(routes: Table, open: map<Tunnel, Phase>, next: nat)

  datatype Step =
    | Accept(conn: nat, peerId: Bytes, pubKey: Bytes)
    | Check(tun: Tunnel, raw: Bytes)
    | Install(tun: Tunnel)
    | Withdraw(tun: Tunnel)

  const START: Edge := Edge(map[], map[], 0)

  predicate IsIdle(e: Edge, tun: Tunnel) { tun in e.open && e.open[tun].Idle? }
  predicate HasChecked(e: Edge, tun: Tunnel) { tun in e.open && e.open[tun].Checked? }

  function AfterAccept(cfg: Config, e: Edge, conn: nat, peerId: Bytes, pubKey: Bytes): Edge
    requires ConfigOk(cfg)
  {
    if I.VerifyId(cfg.sha, peerId, pubKey)
    then Edge(e.routes, e.open[Tunnel(e.next, conn, peerId, pubKey) := Idle], e.next + 1)
    else e
  }

  function AfterCheck(cfg: Config, e: Edge, tun: Tunnel, raw: Bytes): Edge
    requires ConfigOk(cfg)
  {
    if IsIdle(e, tun) && Verdict(cfg, e.routes, tun, raw).None?
    then e.(open := e.open[tun := Checked(Hosts.NormalizeHost(raw))])
    else e
  }

  function AfterInstall(e: Edge, tun: Tunnel): Edge {
    if HasChecked(e, tun)
    then e.(routes := e.routes[e.open[tun].host := RouteTo(tun)], open := e.open[tun := Idle])
    else e
  }

  function AfterWithdraw(e: Edge, tun: Tunnel): Edge {
    if IsIdle(e, tun) then e.(routes := Withdrawn(e.routes, tun), open := e.open - {tun}) else e
  }

  /** One step. A step its goroutine is not ready for changes nothing. A tunnel is accepted
      with the ID its key has, as the handshake makes sure. */
  function Next(cfg: Config, e: Edge, step: Step): Edge
    requires ConfigOk(cfg)
  {
    match step
    case Accept(conn, peerId, pubKey) => AfterAccept(cfg, e, conn, peerId, pubKey)
    case Check(tun, raw) => AfterCheck(cfg, e, tun, raw)
    case Install(tun) => AfterInstall(e, tun)
    case Withdraw(tun) => AfterWithdraw(e, tun)
  }

  function Run(cfg: Config, e: Edge, steps: seq<Step>): Edge
    requires ConfigOk(cfg)
    decreases |steps|
  {
    if steps == [] then e else Run(cfg, Next(cfg, e, steps[0]), steps[1..])
  }

  /** A tunnel has one claim under way at a time: once a name has passed the check, nothing but its
      installation comes next for that tunnel. */
  lemma PendingStays(cfg: Config, e: Edge, step: Step, tun: Tunnel)
    requires ConfigOk(cfg) && HasChecked(e, tun) && step != Install(tun) && tun.id < e.next
    ensures var f := Next(cfg, e, step); tun in f.open && f.open[tun] == e.open[tun]
  {
  }

  // ---------- what every run keeps ----------

  /** What the policy promises about a name and the key that serves it: below a mesh domain
      the name is exactly the label of the key under the first domain that matches. */
  ghost predicate Entitled(cfg: Config, tun: Tunnel, host: Bytes)
    requires ConfigOk(cfg)
  {
    match MatchingDomain(cfg.meshDomains, host)
    case Some(domain) => host == I.HostLabel(cfg.sha, tun.pubKey) + ([46] + domain)
    case None => cfg.allowCustom
  }

  ghost predicate TunnelOk(cfg: Config, e: Edge, tun: Tunnel)
    requires ConfigOk(cfg) && tun in e.open
  {
    && tun.id < e.next && I.VerifyId(cfg.sha, tun.peerId, tun.pubKey)
    && (e.open[tun].Checked? ==> Entitled(cfg, tun, e.open[tun].host))
  }

  ghost predicate RouteOk(cfg: Config, e: Edge, host: Bytes)
    requires ConfigOk(cfg) && host in e.routes
  {
    var owner := e.routes[host].owner;
    owner in e.open && e.routes[host] == Route(owner.conn, owner.peerId, owner) && Entitled(cfg, owner, host)
  }

  /** Every route belongs to an open tunnel, leads to that tunnel's connection under that
      tunnel's peer ID, and the tunnel's key is entitled to the name. */
  ghost predicate Inv(cfg: Config, e: Edge)
    requires ConfigOk(cfg)
  {
    && (forall tun :: tun in e.open ==> TunnelOk(cfg, e, tun))
    && (forall tun, other :: tun in e.open && other in e.open && tun.id == other.id ==> tun == other)
    && (forall host :: host in e.routes ==> RouteOk(cfg, e, host))
  }

  lemma LowerSlice(s: Bytes, n: nat)
    requires n <= |s| && Lower(s) == s
    ensures Lower(s[..n]) == s[..n]
  {
    forall k | 0 <= k < n ensures Lower(s[..n])[k] == s[..n][k] {
      assert s[k] == Lower(s)[k];
    }
  }

  /** authorize and Entitled agree on normalized names. */
  lemma MeshRefusalIff(cfg: Config, tun: Tunnel, host: Bytes, domain: Bytes)
    requires ConfigOk(cfg) && Lower(host) == host && |tun.pubKey| == I.PUBLIC_KEY_SIZE
    requires HasSuffix(host, DotSuffix(domain))
    ensures MeshRefusal(cfg.sha, MeshLabel(host, domain), tun.pubKey).None? <==>
              host == I.HostLabel(cfg.sha, tun.pubKey) + DotSuffix(domain)
  {
    var name, derived := MeshLabel(host, domain), I.HostLabel(cfg.sha, tun.pubKey);
    I.LabelShape(cfg.sha, tun.pubKey);
    LowerSlice(host, |name|);
    assert host == name + DotSuffix(domain);
    if host == derived + DotSuffix(domain) {
      assert name == derived;
    }
  }

  lemma {:induction false} MatchingHasSuffix(domains: seq<Bytes>, host: Bytes)
    ensures var d := MatchingDomain(domains, host); d.Some? ==> HasSuffix(host, DotSuffix(d.value))
  {
    if domains != [] {
      MatchingHasSuffix(domains[1..], host);
    }
  }

  lemma NormalizedIsLower(raw: Bytes)
    ensures Lower(Hosts.NormalizeHost(raw)) == Hosts.NormalizeHost(raw)
  {
  }

  /** The whole policy: a name passes exactly when it is not empty, the key is entitled to it,
      and, if it is a custom one, nobody but the same peer serves it. */
  lemma PolicyIff(cfg: Config, routes: Table, tun: Tunnel, raw: Bytes)
    requires ConfigOk(cfg) && |tun.pubKey| == I.PUBLIC_KEY_SIZE
    ensures var host := Hosts.NormalizeHost(raw);
            Verdict(cfg, routes, tun, raw).None? <==>
              && host != [] && Entitled(cfg, tun, host)
              && (MatchingDomain(cfg.meshDomains, host).None? && host in routes ==> routes[host].peerId == tun.peerId)
  {
    var host := Hosts.NormalizeHost(raw);
    MatchingHasSuffix(cfg.meshDomains, host);
    NormalizedIsLower(raw);
    match MatchingDomain(cfg.meshDomains, host)
    case Some(domain) => MeshRefusalIff(cfg, tun, host, domain);
    case None =>
  }

  lemma AcceptKeepsInv(cfg: Config, e: Edge, tun: Tunnel)
    requires ConfigOk(cfg) && Inv(cfg, e) && tun.id == e.next && I.VerifyId(cfg.sha, tun.peerId, tun.pubKey)
    ensures Inv(cfg, Edge(e.routes, e.open[tun := Idle], e.next + 1))
  {
    hide Entitled, I.VerifyId, ConfigOk;
    var f := Edge(e.routes, e.open[tun := Idle], e.next + 1);
    forall other | other in f.open ensures TunnelOk(cfg, f, other) && (other.id == tun.id ==> other == tun) {
      if other in e.open { assert TunnelOk(cfg, e, other); }
    }
    forall host | host in f.routes ensures RouteOk(cfg, f, host) {
      assert RouteOk(cfg, e, host);
    }
  }

  lemma AfterAcceptKeepsInv(cfg: Config, e: Edge, conn: nat, peerId: Bytes, pubKey: Bytes)
    requires ConfigOk(cfg) && Inv(cfg, e)
    ensures Inv(cfg, AfterAccept(cfg, e, conn, peerId, pubKey))
  {
    var tun := Tunnel(e.next, conn, peerId, pubKey);
    if I.VerifyId(cfg.sha, tun.peerId, tun.pubKey) {
      AcceptKeepsInv(cfg, e, tun);
      assert AfterAccept(cfg, e, conn, peerId, pubKey) == Edge(e.routes, e.open[tun := Idle], e.next + 1);
    } else {
      assert AfterAccept(cfg, e, conn, peerId, pubKey) == e;
    }
  }

  lemma PhaseKeepsInv(cfg: Config, e: Edge, tun: Tunnel, phase: Phase)
    requires ConfigOk(cfg) && Inv(cfg, e) && tun in e.open
    requires phase.Checked? ==> Entitled(cfg, tun, phase.host)
    ensures Inv(cfg, e.(open := e.open[tun := phase]))
  {
    hide Entitled, I.VerifyId, ConfigOk;
    var f := e.(open := e.open[tun := phase]);
    forall other | other in f.open ensures TunnelOk(cfg, f, other) {
      assert TunnelOk(cfg, e, other);
    }
    forall host | host in f.routes ensures RouteOk(cfg, f, host) {
      assert RouteOk(cfg, e, host);
    }
  }

  lemma InstallKeepsInv(cfg: Config, e: Edge, tun: Tunnel, host: Bytes)
    requires ConfigOk(cfg) && Inv(cfg, e) && tun in e.open && Entitled(cfg, tun, host)
    ensures Inv(cfg, e.(routes := e.routes[host := RouteTo(tun)]))
  {
    hide Entitled, I.VerifyId, ConfigOk;
    var f := e.(routes := e.routes[host := RouteTo(tun)]);
    forall other | other in f.open ensures TunnelOk(cfg, f, other) {
      assert TunnelOk(cfg, e, other);
    }
    forall other | other in f.routes ensures RouteOk(cfg, f, other) {
      if other != host { assert RouteOk(cfg, e, other); }
    }
  }

  lemma WithdrawKeepsInv(cfg: Config, e: Edge, tun: Tunnel)
    requires ConfigOk(cfg) && Inv(cfg, e) && tun in e.open
    ensures Inv(cfg, e.(routes := Withdrawn(e.routes, tun), open := e.open - {tun}))
  {
    hide Entitled, I.VerifyId, ConfigOk;
    var f := e.(routes := Withdrawn(e.routes, tun), open := e.open - {tun});
    forall other | other in f.open ensures TunnelOk(cfg, f, other) {
      assert TunnelOk(cfg, e, other);
    }
    forall host | host in f.routes ensures RouteOk(cfg, f, host) {
      assert RouteOk(cfg, e, host);
    }
  }

  lemma CheckKeepsInv(cfg: Config, e: Edge, tun: Tunnel, raw: Bytes)
    requires ConfigOk(cfg) && Inv(cfg, e)
    ensures Inv(cfg, AfterCheck(cfg, e, tun, raw))
  {
    if IsIdle(e, tun) && Verdict(cfg, e.routes, tun, raw).None? {
      assert TunnelOk(cfg, e, tun);
      PolicyIff(cfg, e.routes, tun, raw);
      PhaseKeepsInv(cfg, e, tun, Checked(Hosts.NormalizeHost(raw)));
    }
  }

  lemma AfterInstallKeepsInv(cfg: Config, e: Edge, tun: Tunnel)
    requires ConfigOk(cfg) && Inv(cfg, e)
    ensures Inv(cfg, AfterInstall(e, tun))
  {
    if HasChecked(e, tun) {
      assert TunnelOk(cfg, e, tun);
      InstallKeepsInv(cfg, e, tun, e.open[tun].host);
      PhaseKeepsInv(cfg, e.(routes := e.routes[e.open[tun].host := RouteTo(tun)]), tun, Idle);
    }
  }

  lemma AfterWithdrawKeepsInv(cfg: Config, e: Edge, tun: Tunnel)
    requires ConfigOk(cfg) && Inv(cfg, e)
    ensures Inv(cfg, AfterWithdraw(e, tun))
  {
    if IsIdle(e, tun) {
      WithdrawKeepsInv(cfg, e, tun);
    }
  }

  lemma NextKeepsInv(cfg: Config, e: Edge, step: Step)
    requires ConfigOk(cfg) && Inv(cfg, e)
    ensures Inv(cfg, Next(cfg, e, step))
  {
    var f := Next(cfg, e, step);
    match step
    case Accept(conn, peerId, pubKey) => AfterAcceptKeepsInv(cfg, e, conn, peerId, pubKey);
    case Check(tun, raw) => CheckKeepsInv(cfg, e, tun, raw);
    case Install(tun) => AfterInstallKeepsInv(cfg, e, tun);
    case Withdraw(tun) => AfterWithdrawKeepsInv(cfg, e, tun);
    assert Inv(cfg, f);
  }

  lemma {:induction false} RunKeepsInv(cfg: Config, e: Edge, steps: seq<Step>)
    requires ConfigOk(cfg) && Inv(cfg, e)
    ensures Inv(cfg, Run(cfg, e, steps))
    decreases |steps|
  {
    if steps != [] {
      NextKeepsInv(cfg, e, steps[0]);
      RunKeepsInv(cfg, Next(cfg, e, steps[0]), steps[1..]);
    }
  }

  /** Table safety: whatever order the goroutines run in, every route in the table is one its
      owner is entitled to and the owner is still there. */
  lemma EveryRunIsSafe(cfg: Config, steps: seq<Step>)
    requires ConfigOk(cfg)
    ensures Inv(cfg, Run(cfg, START, steps))
  {
    RunKeepsInv(cfg, START, steps);
  }

  // ---------- withdrawal ----------

  /** A tunnel that has gone. */
  ghost predicate Gone(e: Edge, tun: Tunnel) {
    && tun.id < e.next && tun !in e.open
    && forall host :: host in e.routes ==> e.routes[host].owner != tun
  }

  lemma NextKeepsGone(cfg: Config, e: Edge, step: Step, tun: Tunnel)
    requires ConfigOk(cfg) && Gone(e, tun)
    ensures Gone(Next(cfg, e, step), tun)
  {
  }

  lemma {:induction false} RunKeepsGone(cfg: Config, e: Edge, steps: seq<Step>, tun: Tunnel)
    requires ConfigOk(cfg) && Gone(e, tun)
    ensures Gone(Run(cfg, e, steps), tun)
    decreases |steps|
  {
    if steps != [] {
      NextKeepsGone(cfg, e, steps[0], tun);
      RunKeepsGone(cfg, Next(cfg, e, steps[0]), steps[1..], tun);
    }
  }

  /** withdrawAll takes exactly the departing tunnel's routes: one that the same peer has
      re-claimed over a new tunnel stays. And whatever happens afterwards, no name ever leads
      to the departed tunnel again. */
  lemma WithdrawnForGood(cfg: Config, e: Edge, tun: Tunnel, later: seq<Step>)
    requires ConfigOk(cfg) && Inv(cfg, e) && IsIdle(e, tun)
    ensures var f := Next(cfg, e, Withdraw(tun));
            && (forall host :: host in f.routes <==> host in e.routes && e.routes[host].owner != tun)
            && (forall host :: host in f.routes ==> f.routes[host] == e.routes[host])
            && Gone(Run(cfg, f, later), tun)
  {
    assert TunnelOk(cfg, e, tun);
    RunKeepsGone(cfg, Next(cfg, e, Withdraw(tun)), later, tun);
  }

  // ---------- a whole claim message ----------

  function ClaimSteps(tun: Tunnel, hostnames: seq<Bytes>): seq<Step> {
    if hostnames == [] then []
    else ClaimSteps(tun, hostnames[..|hostnames| - 1]) + [Check(tun, hostnames[|hostnames| - 1]), Install(tun)]
  }

  lemma {:induction false} RunConcat(cfg: Config, e: Edge, first: seq<Step>, second: seq<Step>)
    requires ConfigOk(cfg)
    ensures Run(cfg, e, first + second) == Run(cfg, Run(cfg, e, first), second)
    decreases |first|
  {
    if first == [] {
      assert first + second == second;
    } else {
      assert (first + second)[1..] == first[1..] + second;
      RunConcat(cfg, Next(cfg, e, first[0]), first[1..], second);
    }
  }

  lemma RunPair(cfg: Config, e: Edge, a: Step, b: Step)
    requires ConfigOk(cfg)
    ensures Run(cfg, e, [a, b]) == Next(cfg, Next(cfg, e, a), b)
  {
    assert [a, b][1..] == [b] && [b][1..] == [];
    assert Run(cfg, Next(cfg, e, a), [b]) == Run(cfg, Next(cfg, Next(cfg, e, a), b), []);
  }

  /** The table after a claim on one name that nobody interrupts. */
  function AfterClaim(cfg: Config, routes: Table, tun: Tunnel, raw: Bytes): Table
    requires ConfigOk(cfg)
  {
    if Verdict(cfg, routes, tun, raw).None? then routes[Hosts.NormalizeHost(raw) := RouteTo(tun)] else routes
  }

  lemma InstallChecked(e: Edge, tun: Tunnel, host: Bytes)
    requires IsIdle(e, tun)
    ensures AfterInstall(e.(open := e.open[tun := Checked(host)]), tun) ==
              e.(routes := e.routes[host := RouteTo(tun)])
  {
    assert e.open[tun := Checked(host)][tun := Idle] == e.open;
  }

  lemma ClaimedAlone(cfg: Config, e: Edge, tun: Tunnel, raw: Bytes)
    requires ConfigOk(cfg) && IsIdle(e, tun)
    ensures Run(cfg, e, [Check(tun, raw), Install(tun)]) == e.(routes := AfterClaim(cfg, e.routes, tun, raw))
  {
    RunPair(cfg, e, Check(tun, raw), Install(tun));
    InstallChecked(e, tun, Hosts.NormalizeHost(raw));
    if Verdict(cfg, e.routes, tun, raw).Some? {
      assert AfterInstall(e, tun) == e;
    }
  }

  /** The method Claim is this machine with nobody else moving. */
  lemma {:induction false} ClaimIsRun(cfg: Config, e: Edge, tun: Tunnel, hostnames: seq<Bytes>)
    requires ConfigOk(cfg) && IsIdle(e, tun)
    ensures Run(cfg, e, ClaimSteps(tun, hostnames)) ==
              e.(routes := Routed(e.routes, tun, Accepted(cfg, e.routes, tun, hostnames)))
    ensures SameVerdicts(cfg, e.routes, Routed(e.routes, tun, Accepted(cfg, e.routes, tun, hostnames)), tun)
    decreases |hostnames|
  {
    if hostnames != [] {
      var n := |hostnames| - 1;
      var init, raw := hostnames[..n], hostnames[n];
      ClaimIsRun(cfg, e, tun, init);
      var accepted := Accepted(cfg, e.routes, tun, init);
      var f := e.(routes := Routed(e.routes, tun, accepted));
      RunConcat(cfg, e, ClaimSteps(tun, init), [Check(tun, raw), Install(tun)]);
      ClaimedAlone(cfg, f, tun, raw);
      OneMore(cfg, e.routes, tun, hostnames, n);
      assert hostnames[..n + 1] == hostnames;
      if Verdict(cfg, e.routes, tun, raw).None? {
        OneMoreRouted(e.routes, tun, accepted, Hosts.NormalizeHost(raw));
        OwnRouteKeepsVerdicts(cfg, e.routes, f.routes, tun, Hosts.NormalizeHost(raw));
      }
    }
  }
}
