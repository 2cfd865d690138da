/** First come, first served, for names outside the mesh domains: what the edge's claim
    promises when claims do not overlap, and exactly when overlapping ones break it. */
module FirstCome {
  import opened ByteText
  import opened Routes
  import opened RouteRuns
  import Hosts
  import I = Identity

  /** The step gives a name that is being served to another peer. */
  predicate Overtakes(cfg: Config, e: Edge, step: Step, host: Bytes)
    requires ConfigOk(cfg)
  {
    var f := Next(cfg, e, step);
    host in e.routes && host in f.routes && e.routes[host].peerId != f.routes[host].peerId
  }

  /** Somewhere in the run that happens: the peer behind the name changes while its route
      never went away. */
  predicate Overtaken(cfg: Config, e: Edge, steps: seq<Step>, host: Bytes)
    requires ConfigOk(cfg)
    decreases |steps|
  {
    steps != [] && (Overtakes(cfg, e, steps[0], host) || Overtaken(cfg, Next(cfg, e, steps[0]), steps[1..], host))
  }

  /** The tunnel serves the name or is between authorize and the table with it. */
  predicate Claims(e: Edge, tun: Tunnel, host: Bytes) {
    (tun in e.open && e.open[tun] == Checked(host)) || (host in e.routes && e.routes[host] == RouteTo(tun))
  }

  predicate Rivals(e: Edge, a: Tunnel, b: Tunnel, host: Bytes) {
    Claims(e, a, host) && Claims(e, b, host) && a.peerId != b.peerId
  }

  /** Two peers have both passed authorize for the name and neither has left. */
  ghost predicate Contested(e: Edge, host: Bytes) {
    exists a, b :: Rivals(e, a, b, host)
  }

  ghost predicate NeverContested(cfg: Config, e: Edge, steps: seq<Step>, host: Bytes)
    requires ConfigOk(cfg)
    decreases |steps|
  {
    !Contested(e, host) && (steps != [] ==> NeverContested(cfg, Next(cfg, e, steps[0]), steps[1..], host))
  }

  /** Only the install of a rival overtakes. */
  lemma OvertakerIsRival(cfg: Config, e: Edge, step: Step, host: Bytes)
    requires ConfigOk(cfg) && Inv(cfg, e) && Overtakes(cfg, e, step, host)
    ensures step.Install? && Rivals(e, step.tun, e.routes[host].owner, host)
  {
    assert RouteOk(cfg, e, host);
  }

  /** While no two peers are after the name at once, nobody is overtaken. */
  lemma {:induction false} UncontestedNeverOvertaken(cfg: Config, e: Edge, steps: seq<Step>, host: Bytes)
    requires ConfigOk(cfg) && Inv(cfg, e) && NeverContested(cfg, e, steps, host)
    ensures !Overtaken(cfg, e, steps, host)
    decreases |steps|
  {
    if steps != [] {
      if Overtakes(cfg, e, steps[0], host) {
        OvertakerIsRival(cfg, e, steps[0], host);
      }
      NextKeepsInv(cfg, e, steps[0]);
      UncontestedNeverOvertaken(cfg, Next(cfg, e, steps[0]), steps[1..], host);
    }
  }

  predicate OnlyInstalls(steps: seq<Step>) { forall k :: 0 <= k < |steps| ==> steps[k].Install? }

  /** Installing makes no new claimants. */
  lemma InstallMakesNoClaim(cfg: Config, e: Edge, tun: Tunnel, other: Tunnel, host: Bytes)
    requires ConfigOk(cfg) && Claims(Next(cfg, e, Install(tun)), other, host)
    ensures Claims(e, other, host)
  {
    if HasChecked(e, tun) && e.open[tun].host == host {
      var f := Next(cfg, e, Install(tun));
      if f.routes[host] == RouteTo(other) {
        assert RouteTo(other).owner == other && RouteTo(tun).owner == tun;
      }
    }
  }

  lemma {:induction false} InstallsStayUncontested(cfg: Config, e: Edge, steps: seq<Step>, host: Bytes)
    requires ConfigOk(cfg) && OnlyInstalls(steps) && !Contested(e, host)
    ensures NeverContested(cfg, e, steps, host)
    decreases |steps|
  {
    if steps != [] {
      var f := Next(cfg, e, steps[0]);
      forall a, b | Rivals(f, a, b, host) ensures Rivals(e, a, b, host) {
        InstallMakesNoClaim(cfg, e, steps[0].tun, a, host);
        InstallMakesNoClaim(cfg, e, steps[0].tun, b, host);
      }
      InstallsStayUncontested(cfg, f, steps[1..], host);
    }
  }

  /** A pending install against a route of another peer overtakes it. */
  lemma PendingOvertakes(cfg: Config, e: Edge, tun: Tunnel, host: Bytes)
    requires ConfigOk(cfg) && tun in e.open && e.open[tun] == Checked(host)
    requires host in e.routes && e.routes[host].peerId != tun.peerId
    ensures Overtaken(cfg, e, [Install(tun)], host)
  {
    assert Overtakes(cfg, e, Install(tun), host);
  }

  lemma PairOvertakes(cfg: Config, e: Edge, a: Tunnel, b: Tunnel, host: Bytes)
    requires ConfigOk(cfg) && a.peerId != b.peerId
    requires a in e.open && e.open[a] == Checked(host) && b in e.open && e.open[b] == Checked(host)
    ensures Overtaken(cfg, e, [Install(a), Install(b)], host)
  {
    var f := Next(cfg, e, Install(a));
    PendingOvertakes(cfg, f, b, host);
    assert [Install(a), Install(b)][1..] == [Install(b)];
  }

  /** Exactly when the claims already under way can break the promise: some order of the
      installs that are still to come hands the served name to another peer if and only if
      two peers are after it at once. */
  lemma OvertakenIffContested(cfg: Config, e: Edge, host: Bytes)
    requires ConfigOk(cfg) && Inv(cfg, e)
    ensures Contested(e, host) <==> exists steps :: OnlyInstalls(steps) && Overtaken(cfg, e, steps, host)
  {
    forall steps | OnlyInstalls(steps) && Overtaken(cfg, e, steps, host) ensures Contested(e, host) {
      if !Contested(e, host) {
        InstallsStayUncontested(cfg, e, steps, host);
        UncontestedNeverOvertaken(cfg, e, steps, host);
      }
    }
    if Contested(e, host) {
      var a, b :| Rivals(e, a, b, host);
      var steps := Race(cfg, e, a, b, host);
      assert OnlyInstalls(steps);
    }
  }

  lemma Race(cfg: Config, e: Edge, a: Tunnel, b: Tunnel, host: Bytes) returns (steps: seq<Step>)
    requires ConfigOk(cfg) && Rivals(e, a, b, host)
    ensures OnlyInstalls(steps) && Overtaken(cfg, e, steps, host)
  {
    if host in e.routes && e.routes[host] == RouteTo(a) {
      PendingOvertakes(cfg, e, b, host);
      return [Install(b)];
    }
    if host in e.routes && e.routes[host] == RouteTo(b) {
      PendingOvertakes(cfg, e, a, host);
      return [Install(a)];
    }
    PairOvertakes(cfg, e, a, b, host);
    return [Install(a), Install(b)];
  }

  // ---------- claims one at a time ----------

  /** What a caller sees: a tunnel comes, claims one name without interruption, or goes. */
  datatype Move = Join(conn: nat, peerId: Bytes, pubKey: Bytes) | Claim(tun: Tunnel, raw: Bytes) | Leave(tun: Tunnel)

  function StepsOf(move: Move): seq<Step> {
    match move
    case Join(conn, peerId, pubKey) => [Accept(conn, peerId, pubKey)]
    case Claim(tun, raw) => [Check(tun, raw), Install(tun)]
    case Leave(tun) => [Withdraw(tun)]
  }

  function AllSteps(moves: seq<Move>): seq<Step> {
    if moves == [] then [] else StepsOf(moves[0]) + AllSteps(moves[1..])
  }

  /** Nobody is in the middle of a claim. */
  predicate Quiet(e: Edge) { forall tun :: tun in e.open ==> e.open[tun].Idle? }

  lemma QuietUncontested(cfg: Config, e: Edge, host: Bytes)
    requires ConfigOk(cfg) && Inv(cfg, e) && Quiet(e)
    ensures !Contested(e, host)
  {
  }

  lemma {:induction false} NeverContestedConcat(cfg: Config, e: Edge, first: seq<Step>, second: seq<Step>, host: Bytes)
    requires ConfigOk(cfg) && NeverContested(cfg, e, first, host)
    requires NeverContested(cfg, Run(cfg, e, first), second, host)
    ensures NeverContested(cfg, e, first + second, host)
    decreases |first|
  {
    if first == [] {
      assert first + second == second;
    } else {
      assert (first + second)[1..] == first[1..] + second;
      NeverContestedConcat(cfg, Next(cfg, e, first[0]), first[1..], second, host);
    }
  }

  /** After authorize said yes to one tunnel and nobody else is claiming, only that tunnel's
      peer is after a custom name. */
  lemma OneClaimUncontested(cfg: Config, e: Edge, tun: Tunnel, raw: Bytes, host: Bytes)
    requires ConfigOk(cfg) && Inv(cfg, e) && Quiet(e) && MatchingDomain(cfg.meshDomains, host).None?
    ensures !Contested(AfterCheck(cfg, e, tun, raw), host)
  {
    var f := AfterCheck(cfg, e, tun, raw);
    forall a, b | Claims(f, a, host) && Claims(f, b, host) ensures a.peerId == b.peerId {
      CheckedClaims(cfg, e, tun, raw, a, host);
      CheckedClaims(cfg, e, tun, raw, b, host);
    }
  }

  lemma CheckedClaims(cfg: Config, e: Edge, tun: Tunnel, raw: Bytes, other: Tunnel, host: Bytes)
    requires ConfigOk(cfg) && Quiet(e) && MatchingDomain(cfg.meshDomains, host).None?
    requires Claims(AfterCheck(cfg, e, tun, raw), other, host)
    ensures host in e.routes ==> other.peerId == e.routes[host].peerId
    ensures host !in e.routes ==> other == tun
  {
  }

  lemma OneStepUncontested(cfg: Config, e: Edge, step: Step, host: Bytes)
    requires ConfigOk(cfg) && !Contested(e, host) && !Contested(Next(cfg, e, step), host)
    ensures NeverContested(cfg, e, [step], host) && Run(cfg, e, [step]) == Next(cfg, e, step)
  {
    var f := Next(cfg, e, step);
    assert NeverContested(cfg, f, [], host) && Run(cfg, f, []) == f && [step][1..] == [];
  }

  lemma StepStaysQuiet(cfg: Config, e: Edge, step: Step)
    requires ConfigOk(cfg) && Quiet(e) && (step.Accept? || step.Withdraw?)
    ensures Quiet(Next(cfg, e, step))
  {
  }

  lemma ClaimStaysQuiet(cfg: Config, e: Edge, tun: Tunnel, raw: Bytes)
    requires ConfigOk(cfg) && Quiet(e)
    ensures Quiet(AfterInstall(AfterCheck(cfg, e, tun, raw), tun))
  {
  }

  lemma ClaimNeverContests(cfg: Config, e: Edge, tun: Tunnel, raw: Bytes, host: Bytes)
    requires ConfigOk(cfg) && Inv(cfg, e) && Quiet(e) && MatchingDomain(cfg.meshDomains, host).None?
    ensures var steps := [Check(tun, raw), Install(tun)];
            Quiet(Run(cfg, e, steps)) && NeverContested(cfg, e, steps, host)
  {
    var check, install := Check(tun, raw), Install(tun);
    var f := Next(cfg, e, check);
    var g := Next(cfg, f, install);
    NextKeepsInv(cfg, e, check);
    NextKeepsInv(cfg, f, install);
    ClaimStaysQuiet(cfg, e, tun, raw);
    QuietUncontested(cfg, e, host);
    OneClaimUncontested(cfg, e, tun, raw, host);
    QuietUncontested(cfg, g, host);
    OneStepUncontested(cfg, e, check, host);
    OneStepUncontested(cfg, f, install, host);
    NeverContestedConcat(cfg, e, [check], [install], host);
    RunConcat(cfg, e, [check], [install]);
    assert [check] + [install] == [check, install];
  }

  lemma MoveStaysQuiet(cfg: Config, e: Edge, move: Move, host: Bytes)
    requires ConfigOk(cfg) && Inv(cfg, e) && Quiet(e) && MatchingDomain(cfg.meshDomains, host).None?
    ensures var f := Run(cfg, e, StepsOf(move));
            Inv(cfg, f) && Quiet(f) && NeverContested(cfg, e, StepsOf(move), host)
  {
    RunKeepsInv(cfg, e, StepsOf(move));
    if move.Claim? {
      ClaimNeverContests(cfg, e, move.tun, move.raw, host);
    } else {
      var step := StepsOf(move)[0];
      NextKeepsInv(cfg, e, step);
      StepStaysQuiet(cfg, e, step);
      QuietUncontested(cfg, e, host);
      QuietUncontested(cfg, Next(cfg, e, step), host);
      OneStepUncontested(cfg, e, step, host);
    }
  }

  lemma {:induction false} MovesNeverContest(cfg: Config, e: Edge, moves: seq<Move>, host: Bytes)
    requires ConfigOk(cfg) && Inv(cfg, e) && Quiet(e) && MatchingDomain(cfg.meshDomains, host).None?
    ensures NeverContested(cfg, e, AllSteps(moves), host)
    decreases |moves|
  {
    if moves == [] {
      QuietUncontested(cfg, e, host);
    } else {
      MoveStaysQuiet(cfg, e, moves[0], host);
      var f := Run(cfg, e, StepsOf(moves[0]));
      MovesNeverContest(cfg, f, moves[1..], host);
      NeverContestedConcat(cfg, e, StepsOf(moves[0]), AllSteps(moves[1..]), host);
    }
  }

  /** First come, first served: with claims one at a time, the peer behind a custom name never
      changes while its route stays. */
  lemma FirstComeHolds(cfg: Config, moves: seq<Move>, host: Bytes)
    requires ConfigOk(cfg) && MatchingDomain(cfg.meshDomains, host).None?
    ensures !Overtaken(cfg, START, AllSteps(moves), host)
  {
    MovesNeverContest(cfg, START, moves, host);
    UncontestedNeverOvertaken(cfg, START, AllSteps(moves), host);
  }

  /** A claim on a custom name that is being served succeeds exactly for the peer that serves
      it, over whatever tunnel that peer comes. */
  lemma ReclaimIff(cfg: Config, e: Edge, tun: Tunnel, raw: Bytes)
    requires ConfigOk(cfg) && Inv(cfg, e) && IsIdle(e, tun)
    requires Hosts.NormalizeHost(raw) in e.routes && Hosts.NormalizeHost(raw) != []
    requires MatchingDomain(cfg.meshDomains, Hosts.NormalizeHost(raw)).None?
    ensures var host := Hosts.NormalizeHost(raw);
            AfterClaim(cfg, e.routes, tun, raw)[host].owner == tun <==> tun.peerId == e.routes[host].peerId
  {
    assert RouteOk(cfg, e, Hosts.NormalizeHost(raw));
  }

  /** The promise does break without that: two peers check a free name, both install it, and
      the second has taken it from the first. */
  lemma OverlappingClaimsOvertake(cfg: Config, p: Bytes, q: Bytes, raw: Bytes)
    requires ConfigOk(cfg) && cfg.allowCustom && |p| == I.PUBLIC_KEY_SIZE && |q| == I.PUBLIC_KEY_SIZE
    requires I.PeerId(cfg.sha, p) != I.PeerId(cfg.sha, q)
    requires Hosts.NormalizeHost(raw) != [] && MatchingDomain(cfg.meshDomains, Hosts.NormalizeHost(raw)).None?
    ensures var a, b := Tunnel(0, 0, I.PeerId(cfg.sha, p), p), Tunnel(1, 1, I.PeerId(cfg.sha, q), q);
            var joined := Run(cfg, START, [Accept(0, a.peerId, p), Accept(1, b.peerId, q)]);
            var checked := Run(cfg, joined, [Check(a, raw), Check(b, raw)]);
            Overtaken(cfg, checked, [Install(a), Install(b)], Hosts.NormalizeHost(raw))
  {
    var a, b := Tunnel(0, 0, I.PeerId(cfg.sha, p), p), Tunnel(1, 1, I.PeerId(cfg.sha, q), q);
    BothJoined(cfg, a, b);
    BothChecked(cfg, Edge(map[], map[a := Idle, b := Idle], 2), a, b, raw);
  }

  lemma BothJoined(cfg: Config, a: Tunnel, b: Tunnel)
    requires ConfigOk(cfg) && I.VerifyId(cfg.sha, a.peerId, a.pubKey) && I.VerifyId(cfg.sha, b.peerId, b.pubKey)
    requires a.id == 0 && b.id == 1
    ensures Run(cfg, START, [Accept(a.conn, a.peerId, a.pubKey), Accept(b.conn, b.peerId, b.pubKey)]) ==
              Edge(map[], map[a := Idle, b := Idle], 2)
  {
    RunPair(cfg, START, Accept(a.conn, a.peerId, a.pubKey), Accept(b.conn, b.peerId, b.pubKey));
    assert Next(cfg, START, Accept(a.conn, a.peerId, a.pubKey)) == Edge(map[], map[a := Idle], 1);
  }

  lemma BothChecked(cfg: Config, e: Edge, a: Tunnel, b: Tunnel, raw: Bytes)
    requires ConfigOk(cfg) && cfg.allowCustom && IsIdle(e, a) && IsIdle(e, b) && a.peerId != b.peerId
    requires Hosts.NormalizeHost(raw) != [] && MatchingDomain(cfg.meshDomains, Hosts.NormalizeHost(raw)).None?
    requires e.routes == map[]
    ensures Overtaken(cfg, Run(cfg, e, [Check(a, raw), Check(b, raw)]), [Install(a), Install(b)],
                      Hosts.NormalizeHost(raw))
  {
    var host := Hosts.NormalizeHost(raw);
    RunPair(cfg, e, Check(a, raw), Check(b, raw));
    FreeNamePasses(cfg, e, a, raw);
    var f := e.(open := e.open[a := Checked(host)]);
    FreeNamePasses(cfg, f, b, raw);
    PairOvertakes(cfg, f.(open := f.open[b := Checked(host)]), a, b, host);
  }

  lemma FreeNamePasses(cfg: Config, e: Edge, tun: Tunnel, raw: Bytes)
    requires ConfigOk(cfg) && cfg.allowCustom && IsIdle(e, tun) && e.routes == map[]
    requires Hosts.NormalizeHost(raw) != [] && MatchingDomain(cfg.meshDomains, Hosts.NormalizeHost(raw)).None?
    ensures Next(cfg, e, Check(tun, raw)) == e.(open := e.open[tun := Checked(Hosts.NormalizeHost(raw))])
  {
  }
}
