/** The edge as a whole: tunnels are accepted from completed handshakes, they claim names, and
    visitors are spliced to them (internal/edge/edge.go, lines 175-406). Who gets a visitor's
    bytes follows from all three. */
module Mesh {
  import opened ByteText
  import A = Agreement
  import Agent
  import H = Handshake
  import Hosts
  import I = Identity
  import R = Routes
  import RR = RouteRuns
  import V = Visitor

  const ROLE_AGENT: Bytes := [97, 103, 101, 110, 116]

  /** One edge: the world's cryptography, the keys whose owners follow the protocol, the edge's
      own key and its policy. */
  datatype Setting = Setting(env: H.Env, honest: set<Bytes>, key: Bytes, cfg: R.Config)

  ghost predicate SettingOk(at: Setting) {
    H.EnvOk(at.env) && R.ConfigOk(at.cfg) && at.cfg.sha == at.env.sha
  }

  /** sessions[id] is the server run from which tunnel id was accepted. The run also stands for
      the connection: a connection has one, on its first stream. */
  datatype World = World(net: A.World, edge: RR.Edge, sessions: map<nat, nat>)

  const START: World := World(A.START, RR.START, map[])

  datatype Step = Net(net: A.Step) | Accept(run: nat) | Table(table: RR.Step)

  predicate Acceptable(at: Setting, w: World, i: nat) {
    && i < |w.net.servers| && w.net.servers[i].phase.Done? && w.net.servers[i].key == at.key
    && w.net.servers[i].peer.role == ROLE_AGENT
    && forall id :: id in w.sessions ==> w.sessions[id] != i
  }

  /** A step of the network, a tunnel accepted from a run of this edge that completed as an
      agent's, or a step of the table. */
  function Next(at: Setting, w: World, step: Step): World
    requires SettingOk(at)
  {
    match step
    case Net(s) => w.(net := A.Next(at.env, at.honest, w.net, s))
    case Accept(i) =>
      if !Acceptable(at, w, i) then w
      else
        var peer := w.net.servers[i].peer;
        World(w.net, RR.Next(at.cfg, w.edge, RR.Accept(i, peer.peerId, peer.pubKey)), w.sessions[w.edge.next := i])
    case Table(s) => if s.Accept? then w else w.(edge := RR.Next(at.cfg, w.edge, s))
  }

  function Run(at: Setting, w: World, steps: seq<Step>): World
    requires SettingOk(at)
    decreases |steps|
  {
    if steps == [] then w else Run(at, Next(at, w, steps[0]), steps[1..])
  }

  // ---------- what every run keeps ----------

  /** The tunnel is the one accepted from run i, which completed for its key at this edge. */
  predicate From(at: Setting, net: A.World, tun: R.Tunnel, i: nat) {
    && i < |net.servers| && net.servers[i].phase.Done? && net.servers[i].key == at.key
    && net.servers[i].peer.peerId == tun.peerId && net.servers[i].peer.pubKey == tun.pubKey
    && net.servers[i].peer.role == [97, 103, 101, 110, 116] && tun.conn == i
  }

  ghost predicate Sessions(at: Setting, w: World) {
    && (forall id :: id in w.sessions ==> id < w.edge.next)
    && (forall id, other :: id in w.sessions && other in w.sessions && w.sessions[id] == w.sessions[other] ==>
          id == other)
    && (forall tun :: tun in w.edge.open ==> tun.id in w.sessions && From(at, w.net, tun, w.sessions[tun.id]))
  }

  ghost predicate Inv(at: Setting, w: World)
    requires SettingOk(at)
  {
    A.Inv(at.env, at.honest, w.net) && RR.Inv(at.cfg, w.edge) && Sessions(at, w)
  }

  lemma NetKeepsSessions(at: Setting, w: World, s: A.Step)
    requires SettingOk(at) && Sessions(at, w)
    ensures Sessions(at, w.(net := A.Next(at.env, at.honest, w.net, s)))
  {
    var net := A.Next(at.env, at.honest, w.net, s);
    forall tun | tun in w.edge.open ensures From(at, net, tun, w.sessions[tun.id]) {
      A.StepStays(at.env, at.honest, w.net, s, w.sessions[tun.id]);
    }
  }

  lemma AcceptKeepsSessions(at: Setting, w: World, i: nat)
    requires SettingOk(at) && Inv(at, w) && Acceptable(at, w, i)
    ensures Sessions(at, Next(at, w, Accept(i)))
  {
    assert A.ServerOk(at.env, at.honest, w.net, i);
  }

  lemma TableKeepsSessions(at: Setting, w: World, s: RR.Step)
    requires SettingOk(at) && Sessions(at, w) && !s.Accept?
    ensures Sessions(at, w.(edge := RR.Next(at.cfg, w.edge, s)))
  {
    var edge := RR.Next(at.cfg, w.edge, s);
    OnlyAcceptOpens(at.cfg, w.edge, s);
    forall tun | tun in edge.open ensures tun.id in w.sessions && From(at, w.net, tun, w.sessions[tun.id]) {
      assert tun in w.edge.open;
    }
  }

  lemma OnlyAcceptOpens(cfg: R.Config, e: RR.Edge, s: RR.Step)
    requires R.ConfigOk(cfg) && !s.Accept?
    ensures RR.Next(cfg, e, s).open.Keys <= e.open.Keys && RR.Next(cfg, e, s).next == e.next
  {
  }

  lemma NextKeepsInv(at: Setting, w: World, step: Step)
    requires SettingOk(at) && Inv(at, w)
    ensures Inv(at, Next(at, w, step))
  {
    match step
    case Net(s) =>
      A.NextKeepsInv(at.env, at.honest, w.net, s);
      NetKeepsSessions(at, w, s);
    case Accept(i) =>
      if Acceptable(at, w, i) {
        var peer := w.net.servers[i].peer;
        RR.NextKeepsInv(at.cfg, w.edge, RR.Accept(i, peer.peerId, peer.pubKey));
        AcceptKeepsSessions(at, w, i);
      }
    case Table(s) =>
      if !s.Accept? {
        RR.NextKeepsInv(at.cfg, w.edge, s);
        TableKeepsSessions(at, w, s);
      }
  }

  lemma {:induction false} RunKeepsInv(at: Setting, w: World, steps: seq<Step>)
    requires SettingOk(at) && Inv(at, w)
    ensures Inv(at, Run(at, w, steps))
    decreases |steps|
  {
    if steps != [] {
      NextKeepsInv(at, w, steps[0]);
      RunKeepsInv(at, Next(at, w, steps[0]), steps[1..]);
    }
  }

  // ---------- who gets the bytes ----------

  /** Behind the route stands a connection on which a handshake with this edge completed, for the
      key whose peer ID the route has. Below a mesh domain that key derives the name. If the
      key is honest, its owner signed this very challenge of this edge. */
  ghost predicate Authentic(at: Setting, net: A.World, host: Bytes, route: R.Route)
    requires SettingOk(at)
  {
    && From(at, net, route.owner, route.conn)
    && route.peerId == I.PeerId(at.env.sha, route.owner.pubKey)
    && (match R.MatchingDomain(at.cfg.meshDomains, host)
        case Some(domain) => host == I.HostLabel(at.env.sha, route.owner.pubKey) + R.DotSuffix(domain)
        case None => at.cfg.allowCustom)
    && (route.owner.pubKey in at.honest ==> exists j: nat :: A.Agree(net, route.conn, j))
  }

  /** In every run, every route is authentic. */
  lemma RoutesAreAuthentic(at: Setting, steps: seq<Step>, host: Bytes)
    requires SettingOk(at)
    ensures var w := Run(at, START, steps);
            host in w.edge.routes ==> Authentic(at, w.net, host, w.edge.routes[host])
  {
    RunKeepsInv(at, START, steps);
    var w := Run(at, START, steps);
    if host in w.edge.routes {
      var route := w.edge.routes[host];
      assert RR.RouteOk(at.cfg, w.edge, host);
      assert RR.TunnelOk(at.cfg, w.edge, route.owner);
      assert From(at, w.net, route.owner, route.conn);
      assert A.ServerOk(at.env, at.honest, w.net, route.conn);
    }
  }

  /** And different connections never share a client's signature: two routes over different
      connections of honest keys go back to different client runs. */
  lemma ConnectionsSignSeparately(at: Setting, steps: seq<Step>, host: Bytes, other: Bytes, j: nat)
    requires SettingOk(at)
    ensures var w := Run(at, START, steps);
            host in w.edge.routes && other in w.edge.routes &&
            A.Agree(w.net, w.edge.routes[host].conn, j) && A.Agree(w.net, w.edge.routes[other].conn, j) ==>
              w.edge.routes[host].owner == w.edge.routes[other].owner
  {
    hide Run, RR.Entitled;
    RunKeepsInv(at, START, steps);
    var w := Run(at, START, steps);
    if host in w.edge.routes && other in w.edge.routes {
      var p, q := w.edge.routes[host], w.edge.routes[other];
      assert RR.RouteOk(at.cfg, w.edge, host) && RR.RouteOk(at.cfg, w.edge, other);
      assert From(at, w.net, p.owner, p.conn) && From(at, w.net, q.owner, q.conn);
      if A.Agree(w.net, p.conn, j) && A.Agree(w.net, q.conn, j) {
        assert A.ServerOk(at.env, at.honest, w.net, p.conn);
      }
    }
  }

  // ---------- a run that serves ----------

  lemma {:induction false} RunConcat(at: Setting, w: World, first: seq<Step>, second: seq<Step>)
    requires SettingOk(at)
    ensures Run(at, w, first + second) == Run(at, Run(at, w, first), second)
    decreases |first|
  {
    if first == [] {
      assert first + second == second;
    } else {
      assert (first + second)[1..] == first[1..] + second;
      RunConcat(at, Next(at, w, first[0]), first[1..], second);
    }
  }

  function NetSteps(steps: seq<A.Step>): (all: seq<Step>)
    ensures |all| == |steps| && forall k :: 0 <= k < |steps| ==> all[k] == Net(steps[k])
  {
    seq(|steps|, k requires 0 <= k < |steps| => Net(steps[k]))
  }

  lemma {:induction false} RunNet(at: Setting, w: World, steps: seq<A.Step>)
    requires SettingOk(at)
    ensures Run(at, w, NetSteps(steps)) == w.(net := A.Run(at.env, at.honest, w.net, steps))
    decreases |steps|
  {
    hide A.Next, SettingOk;
    if steps != [] {
      assert NetSteps(steps)[1..] == NetSteps(steps[1..]);
      RunNet(at, Next(at, w, Net(steps[0])), steps[1..]);
    }
  }

  lemma RunThree(at: Setting, w: World, a: Step, b: Step, c: Step)
    requires SettingOk(at)
    ensures Run(at, w, [a, b, c]) == Next(at, Next(at, Next(at, w, a), b), c)
  {
    hide Next, SettingOk;
    var x := Next(at, w, a);
    var y := Next(at, x, b);
    assert [a, b, c][1..] == [b, c] && [b, c][1..] == [c] && [c][1..] == [];
    assert Run(at, w, [a, b, c]) == Run(at, x, [b, c]);
    assert Run(at, x, [b, c]) == Run(at, y, [c]);
    assert Run(at, y, [c]) == Run(at, Next(at, y, c), []);
  }

  /** Such a route does come about: for every honest key and every name that the policy allows it
      there is a run after which the name leads to a connection of that key. */
  lemma SomeRunServes(at: Setting, pub: Bytes, nonce: Bytes, agent: Bytes, raw: Bytes) returns (steps: seq<Step>)
    requires SettingOk(at) && pub in at.honest
    requires |pub| == I.PUBLIC_KEY_SIZE && |at.key| == I.PUBLIC_KEY_SIZE && |nonce| == H.NONCE_SIZE
    requires R.Verdict(at.cfg, map[], R.Tunnel(0, 0, I.PeerId(at.env.sha, pub), pub), raw).None?
    ensures var w, host := Run(at, START, steps), Hosts.NormalizeHost(raw);
            && host in w.edge.routes && w.edge.routes[host].owner.pubKey == pub
            && Authentic(at, w.net, host, w.edge.routes[host])
  {
    var shakes := A.TwoPartyRun(at.env, at.honest, pub, at.key, nonce, ROLE_AGENT, ROLE_AGENT, agent);
    var tun := R.Tunnel(0, 0, I.PeerId(at.env.sha, pub), pub);
    var last := [Accept(0), Table(RR.Check(tun, raw)), Table(RR.Install(tun))];
    steps := NetSteps(shakes) + last;
    RunConcat(at, START, NetSteps(shakes), last);
    RunNet(at, START, shakes);
    var w := World(A.Run(at.env, at.honest, A.START, shakes), RR.START, map[]);
    RunThree(at, w, last[0], last[1], last[2]);
    AcceptedAndServed(at, w, tun, raw);
    RoutesAreAuthentic(at, steps, Hosts.NormalizeHost(raw));
  }

  lemma AcceptedAndServed(at: Setting, w: World, tun: R.Tunnel, raw: Bytes)
    requires SettingOk(at) && w.edge == RR.START && w.sessions == map[] && Acceptable(at, w, 0)
    requires w.net.servers[0].peer.peerId == tun.peerId && w.net.servers[0].peer.pubKey == tun.pubKey
    requires tun.id == 0 && tun.conn == 0 && I.VerifyId(at.env.sha, tun.peerId, tun.pubKey)
    requires R.Verdict(at.cfg, map[], tun, raw).None?
    ensures var v := Next(at, Next(at, Next(at, w, Accept(0)), Table(RR.Check(tun, raw))), Table(RR.Install(tun)));
            Hosts.NormalizeHost(raw) in v.edge.routes && v.edge.routes[Hosts.NormalizeHost(raw)].owner == tun
  {
    hide Hosts.NormalizeHost, R.Verdict, I.VerifyId, H.EnvOk, R.ConfigOk;
    var x := Next(at, w, Accept(0));
    assert x.edge == RR.Edge(map[], map[tun := RR.Idle], 1);
    var y := Next(at, x, Table(RR.Check(tun, raw)));
    assert y.edge.open[tun] == RR.Checked(Hosts.NormalizeHost(raw));
  }

  // ---------- a visit ----------

  /** The whole of it: after any run of network, edge and tunnels, a visitor who names a host is
      spliced only to an agent whose connection is authentic for the name. Over write sides that
      do not break, one who names a routed host in time is spliced, and if the agent serves the
      name, its site and the visitor get each other's bytes, all of them and unaltered. */
  method VisitInRun(at: Setting, ghost steps: seq<Step>, content: Bytes, kind: V.Kind, tcp: bool, remote: Bytes,
                    server: R.Server, opens: bool, sound: bool, agents: map<nat, Agent.Agent>, pages: V.Pages,
                    reply: Bytes)
      returns (fate: V.Fate, host: Bytes, route: Option<R.Route>, site: Bytes, page: Bytes)
    requires SettingOk(at) && server.routes == Run(at, START, steps).edge.routes
    requires forall h :: h in server.routes ==> server.routes[h].conn in agents
    ensures fate.Spliced? ==>
              && (exists name :: V.Names(kind, content, name) && host == Hosts.NormalizeHost(name))
              && route.Some? && route.value.conn in agents
              && Authentic(at, Run(at, START, steps).net, host, route.value)
    ensures fate.Spliced? && agents[route.value.conn].Serves(host) ==>
              site <= content && page <= reply && (sound ==> site == content && page == reply)
    ensures fate.Spliced? && !agents[route.value.conn].Serves(host) ==> site == []
    ensures !fate.Spliced? ==> site == []
    ensures forall name ::
              sound && V.Prompt(kind, content) && V.Names(kind, content, name)
              && Agent.MustReach(kind, remote, server.routes, opens, at.env.json, Hosts.NormalizeHost(name)) ==>
                fate.Spliced? && host == Hosts.NormalizeHost(name)
  {
    var d;
    fate, host, route, d, site, page :=
      Agent.Visit(content, kind, tcp, remote, server, opens, sound, agents, at.env.json, pages, reply);
    RoutesAreAuthentic(at, steps, host);
  }
}
