/** The agent's side: which names it serves (internal/agent/control.go, internal/agent/agent.go)
    and what it does with a visitor stream (internal/agent/tunnel.go). */
module Agent {
  import opened ByteText
  import opened Streams
  import opened Frames
  import opened Hosts
  import I = Identity
  import R = Routes
  import V = Visitor

  // ---------- visitor streams ----------

  datatype Delivery = BadHeader(read: ReadError) | NotServed(host: Bytes) | UnknownProto
    | ToTls(remote: Bytes) | ToHttp(remote: Bytes)

  predicate Serving(hostnames: set<Bytes>, host: Bytes) { NormalizeHost(host) in hostnames }

  /** Where the stream goes, by its header. */
  function Dispatch(hostnames: set<Bytes>, m: Message): Delivery
    requires m.Open?
  {
    if !Serving(hostnames, m.host) then NotServed(m.host)
    else if m.proto == PROTO_TLS then ToTls(m.remote)
    else if m.proto == PROTO_HTTP then ToHttp(m.remote)
    else UnknownProto
  }

  function Delivered(json: Json, hostnames: set<Bytes>, s: Bytes): Delivery
    requires JsonOk(json)
  {
    match FirstMessage(json, s, TYPE_OPEN)
    case Err(error) => BadHeader(error)
    case Ok((m, rest)) => Dispatch(hostnames, m)
  }

  /** What a header leads to: the server for its protocol, if the name is served. */
  lemma DeliveredTo(json: Json, hostnames: set<Bytes>, s: Bytes, m: Message, rest: Bytes)
    requires JsonOk(json) && m.Open? && FirstMessage(json, s, [111, 112, 101, 110]) == Ok((m, rest))
    ensures Delivered(json, hostnames, s) ==
              if NormalizeHost(m.host) !in hostnames then NotServed(m.host)
              else if m.proto == [116, 108, 115] then ToTls(m.remote)
              else if m.proto == [104, 116, 116, 112] then ToHttp(m.remote)
              else UnknownProto
  {
  }

  // ---------- the served names ----------

  datatype NameError = Invalid(why: HostError) | AutomaticAddress

  /** cutLabel: the normalized name up to its first dot, if something stands before it. */
  function CutLabel(host: Bytes): Option<(Bytes, Bytes)> {
    var h := NormalizeHost(host);
    var i := Index(h, [DOT]);
    if i > 0 then Some((h[..i], h[i + 1..])) else None
  }

  /** A name that a gateway may offer to the agent with this label. */
  predicate GoodOffer(own: Bytes, host: Bytes) { CutLabel(host).Some? && CutLabel(host).value.0 == own }

  /** That is one that normalizes to the label, a dot and anything. */
  lemma GoodOfferIff(own: Bytes, host: Bytes)
    requires own != [] && 46 !in own
    ensures GoodOffer(own, host) <==> own + [46] <= NormalizeHost(host)
  {
    hide NormalizeHost;
    var h := NormalizeHost(host);
    var i := Index(h, [DOT]);
    IndexByteIs(h, DOT, i);
    if i > 0 {
      assert h == h[..i] + [46] + h[i + 1..];
    }
    if own + [46] <= h {
      assert h[..|own|] == own && h[|own|] == DOT;
      IndexByteIs(h, DOT, |own|);
    }
  }

  predicate AllGood(own: Bytes, names: seq<Bytes>) {
    forall k :: 0 <= k < |names| ==> GoodOffer(own, names[k])
  }

  /** The normal forms of a list, without the empty one. */
  function NormalForms(list: seq<Bytes>): set<Bytes> {
    if list == [] then {}
    else
      var h := NormalizeHost(list[|list| - 1]);
      NormalForms(list[..|list| - 1]) + if h == [] then {} else {h}
  }

  lemma {:induction false} NormalFormsIff(list: seq<Bytes>, h: Bytes)
    ensures h in NormalForms(list) <==> h != [] && exists k :: 0 <= k < |list| && NormalizeHost(list[k]) == h
    decreases |list|
  {
    hide NormalizeHost;
    if list != [] {
      var n := |list| - 1;
      var init := list[..n];
      NormalFormsIff(init, h);
      assert forall k :: 0 <= k < n ==> init[k] == list[k];
    }
  }

  class Agent {
    const sha: Bytes -> Bytes
    const pub: Bytes
    var hostnames: set<Bytes>
    /** How often the tunnels have been woken to claim again. */
    var reclaims: nat

    /** New: configured names are normalized, and that is all. */
    constructor (sha: Bytes -> Bytes, pub: Bytes, customHostnames: seq<Bytes>)
      ensures this.sha == sha && this.pub == pub && reclaims == 0
      ensures hostnames == set h | h in customHostnames :: NormalizeHost(h)
    {
      this.sha, this.pub, reclaims := sha, pub, 0;
      var names := {};
      for i := 0 to |customHostnames|
        invariant names == set h | h in customHostnames[..i] :: NormalizeHost(h)
      {
        assert customHostnames[..i + 1] == customHostnames[..i] + [customHostnames[i]];
        names := names + {NormalizeHost(customHostnames[i])};
      }
      assert customHostnames[..|customHostnames|] == customHostnames;
      hostnames := names;
    }

    function AutomaticPrefix(): Bytes
      requires I.IsHash(sha)
    {
      I.HostLabel(sha, pub) + [DOT]
    }

    predicate Serves(host: Bytes)
      reads this
    {
      Serving(hostnames, host)
    }

    /** AddHostname: from then on every spelling of the name is served. The tunnels are woken
        when the set has changed. */
    method AddHostname(raw: Bytes) returns (error: Option<NameError>)
      requires I.IsHash(sha)
      modifies this
      ensures var host, why := NormalizeHost(raw), ValidateHostname(NormalizeHost(raw));
              error == if why.Some? then Some(Invalid(why.value))
                       else if HasPrefix(host, AutomaticPrefix()) then Some(AutomaticAddress) else None
      ensures hostnames == old(hostnames) + if error.None? then {NormalizeHost(raw)} else {}
      ensures reclaims == old(reclaims) + if hostnames == old(hostnames) then 0 else 1
      ensures error.None? ==> forall v :: Spelling(v, NormalizeHost(raw)) ==> Serves(v)
      ensures var host := NormalizeHost(raw);
              && (error.None? <==>
                    (exists labels :: Domain(host, labels)) && !(I.HostLabel(sha, pub) + [46] <= host))
              && (error == Some(AutomaticAddress) <==>
                    (exists labels :: Domain(host, labels)) && I.HostLabel(sha, pub) + [46] <= host)
    {
      hide ValidateHostname, NormalizeHost, Domain, Spelling, Canonical, I.HostLabel;
      ValidIff(NormalizeHost(raw));
      var host := NormalizeHost(raw);
      var why := ValidateHostname(host);
      if why.Some? {
        return Some(Invalid(why.value));
      }
      if HasPrefix(host, AutomaticPrefix()) {
        return Some(AutomaticAddress);
      }
      ValidIsCanonical(host);
      forall v | Spelling(v, host) ensures NormalizeHost(v) == host {
        SpellingNormalizes(v, host);
      }
      if host in hostnames {
        assert hostnames == hostnames + {host};
        return None;
      }
      hostnames := hostnames + {host};
      reclaims := reclaims + 1;
      return None;
    }

    /** RemoveHostname: from then on no spelling of the name is served. An automatic address
        is never removed. */
    method RemoveHostname(raw: Bytes) returns (error: Option<NameError>)
      requires I.IsHash(sha)
      modifies this
      ensures error == if I.HostLabel(sha, pub) + [46] <= NormalizeHost(raw) then Some(AutomaticAddress) else None
      ensures hostnames == old(hostnames) - if error.None? then {NormalizeHost(raw)} else {}
      ensures reclaims == old(reclaims) + if error.None? then 1 else 0
      ensures error.None? ==> forall v :: NormalizeHost(v) == NormalizeHost(raw) ==> !Serves(v)
      ensures forall h :: h in old(hostnames) && HasPrefix(h, AutomaticPrefix()) ==> h in hostnames
    {
      var host := NormalizeHost(raw);
      if HasPrefix(host, AutomaticPrefix()) {
        return Some(AutomaticAddress);
      }
      hostnames := hostnames - {host};
      reclaims := reclaims + 1;
      return None;
    }

    /** The names of a gateway's welcome: the agent takes all of them, normalized, or, when a
        single one is not its own, none, and the session ends. */
    method TakeWelcome(names: seq<Bytes>) returns (taken: bool)
      requires I.IsHash(sha)
      modifies `hostnames
      ensures taken <==> AllGood(I.HostLabel(sha, pub), names)
      ensures taken <==> forall k :: 0 <= k < |names| ==> I.HostLabel(sha, pub) + [46] <= NormalizeHost(names[k])
      ensures hostnames == old(hostnames) + if taken then NormalForms(names) else {}
    {
      hide CutLabel, I.HostLabel, NormalForms, NormalizeHost;
      var own := I.HostLabel(sha, pub);
      I.LabelShape(sha, pub);
      forall k | 0 <= k < |names| ensures GoodOffer(own, names[k]) <==> own + [46] <= NormalizeHost(names[k]) {
        GoodOfferIff(own, names[k]);
      }
      for i := 0 to |names|
        invariant forall k :: 0 <= k < i ==> GoodOffer(own, names[k])
      {
        var cut := CutLabel(names[i]);
        if cut.None? || cut.value.0 != own {
          return false;
        }
      }
      AddHostnames(names);
      taken := true;
    }

    /** addHostnames. */
    method AddHostnames(list: seq<Bytes>)
      modifies `hostnames
      ensures hostnames == old(hostnames) + NormalForms(list)
    {
      hide NormalizeHost;
      for i := 0 to |list|
        invariant hostnames == old(hostnames) + NormalForms(list[..i])
      {
        assert list[..i + 1][..i] == list[..i];
        var h := NormalizeHost(list[i]);
        if h != [] {
          hostnames := hostnames + {h};
        }
      }
      assert list[..|list|] == list;
    }

    /** handleVisitorStream: one framed header is read, and when the name is served the right
        server gets the connection with every byte after the header still in it. */
    method HandleVisitorStream(stream: Conn, json: Json) returns (d: Delivery)
      requires stream.Valid() && JsonOk(json)
      modifies stream`pos
      ensures stream.Valid()
      ensures var s := stream.content[old(stream.pos)..];
              && d == Delivered(json, hostnames, s)
              && (!d.BadHeader? ==> stream.content[stream.pos..] == FirstMessage(json, s, TYPE_OPEN).value.1)
    {
      var header := ReadExpect(stream, json, TYPE_OPEN);
      if header.Err? {
        return BadHeader(header.error);
      }
      var m := header.value;
      if !Serves(m.host) {
        return NotServed(m.host);
      }
      if m.proto == PROTO_TLS {
        return ToTls(m.remote);
      }
      if m.proto == PROTO_HTTP {
        return ToHttp(m.remote);
      }
      return UnknownProto;
    }
  }

  // ---------- the whole path ----------

  /** Where a stream of a kind belongs, with the address the edge saw. */
  function ServerOf(kind: V.Kind, remote: Bytes): Delivery { if kind.Tls? then ToTls(remote) else ToHttp(remote) }

  /** The header that was announced is the one that is read, and what follows it is the
      visitor's stream from its first byte. */
  lemma HeaderArrives(json: Json, kind: V.Kind, host: Bytes, remote: Bytes, content: Bytes, arrived: Bytes)
    requires JsonOk(json)
    requires var header := Wire(json, V.OpenOf(kind, host, remote)); header != [] && header <= arrived
    requires arrived <= V.ToAgent(json, kind, host, remote, content)
    ensures var first := FirstMessage(json, arrived, TYPE_OPEN);
            && first.Ok? && first.value.0 == V.OpenOf(kind, host, remote) && first.value.1 <= content
            && (arrived == V.ToAgent(json, kind, host, remote, content) ==> first.value.1 == content)
  {
    var open := V.OpenOf(kind, host, remote);
    var header := Wire(json, open);
    var rest := arrived[|header|..];
    assert arrived == header + rest;
    assert rest <= content by {
      assert (header + content)[|header|..] == content;
    }
    MessageRoundTrip(json, open, rest);
  }

  /** Byte transparency. Of what the edge puts on a stream, the agent's TLS or HTTP server reads
      exactly the visitor's bytes, from the first: all of them when the stream brought all,
      and as far as it got when it broke after the header. */
  lemma ByteTransparency(json: Json, hostnames: set<Bytes>, kind: V.Kind, host: Bytes, remote: Bytes,
                         content: Bytes, arrived: Bytes)
    requires JsonOk(json) && Serving(hostnames, host)
    requires var header := Wire(json, V.OpenOf(kind, host, remote)); header != [] && header <= arrived
    requires arrived <= V.ToAgent(json, kind, host, remote, content)
    ensures Delivered(json, hostnames, arrived) == if kind.Tls? then ToTls(remote) else ToHttp(remote)
    ensures var first := FirstMessage(json, arrived, TYPE_OPEN);
            && first.Ok? && first.value.1 <= content
            && (arrived == V.ToAgent(json, kind, host, remote, content) ==> first.value.1 == content)
  {
    HeaderArrives(json, kind, host, remote, content, arrived);
  }

  predicate Reached(d: Delivery) { d.ToTls? || d.ToHttp? }

  /** The far end of a stream that an edge has spliced: what the site can read of it. */
  method Receive(agent: Agent, arrived: Bytes, json: Json,
                 ghost kind: V.Kind, ghost host: Bytes, ghost remote: Bytes, ghost content: Bytes)
      returns (d: Delivery, site: Bytes)
    requires JsonOk(json)
    requires var header := Wire(json, V.OpenOf(kind, host, remote)); header != [] && header <= arrived
    requires arrived <= V.ToAgent(json, kind, host, remote, content)
    ensures d == if agent.Serves(host) then ServerOf(kind, remote) else NotServed(host)
    ensures agent.Serves(host) ==>
              site <= content && (arrived == V.ToAgent(json, kind, host, remote, content) ==> site == content)
    ensures !agent.Serves(host) ==> site == []
  {
    var stream := new Conn(arrived);
    assert stream.content[0..] == arrived;
    HeaderArrives(json, kind, host, remote, content, arrived);
    d := agent.HandleVisitorStream(stream, json);
    site := if Reached(d) then stream.content[stream.pos..] else [];
  }

  /** What a visit must come to over write sides that do not break, when the stream names this
      host and the edge can open a stream. */
  predicate MustReach(kind: V.Kind, remote: Bytes, routes: R.Table, opens: bool, json: Json, host: Bytes) {
    opens && host in routes && Wire(json, V.OpenOf(kind, host, remote)) != []
  }

  /** One visit from end to end: the edge serves the visitor, the agent at the far end of the
      route's connection gets what the edge sent and hands it on, and what the site answers
      goes back. When that agent serves the name, the site reads a prefix of what the visitor
      sent, all of it when the stream did not break, and the visitor likewise what came back;
      an agent that does not serve it lets the site read nothing. A visitor who names a routed
      host in time is spliced, and where no write side breaks, everything arrives. */
  method Visit(content: Bytes, kind: V.Kind, tcp: bool, remote: Bytes, server: R.Server, opens: bool, sound: bool,
               agents: map<nat, Agent>, json: Json, pages: V.Pages, reply: Bytes)
      returns (fate: V.Fate, host: Bytes, route: Option<R.Route>, d: Delivery, site: Bytes, page: Bytes)
    requires JsonOk(json) && forall h :: h in server.routes ==> server.routes[h].conn in agents
    ensures !fate.Unclassified? ==> exists name :: V.Names(kind, content, name) && host == NormalizeHost(name)
    ensures fate.Spliced? ==> host in server.routes && route == Some(server.routes[host])
    ensures fate.Spliced? ==>
              && d == (if !agents[route.value.conn].Serves(host) then NotServed(host)
                     else if kind.Tls? then ToTls(remote) else ToHttp(remote))
              && page <= reply && site <= content
              && (!agents[route.value.conn].Serves(host) ==> site == [])
              && (sound ==> page == reply)
              && (sound && agents[route.value.conn].Serves(host) ==> site == content)
    ensures var told := if kind.Http? && fate.NoRoute? then pages.notConnected
                        else if kind.Http? && fate.NoStream? then pages.notReachable else [];
            !fate.Spliced? ==> site == [] && page <= told && (sound ==> page == told)
    ensures forall name ::
              sound && V.Prompt(kind, content) && V.Names(kind, content, name)
              && MustReach(kind, remote, server.routes, opens, json, NormalizeHost(name)) ==>
                fate.Spliced? && host == NormalizeHost(name)
  {
    var visitor := new Conn(content);
    var down := new Conn(reply);
    var up := new Sink(sound);
    var back := new Sink(sound);
    var wholeUp, wholeDown;
    fate, host, route, wholeUp, wholeDown :=
      V.ServeVisitor(visitor, back, tcp, kind, remote, server, opens, up, down, json, pages);
    OneHost(kind, content, host);
    d, site, page := UnknownProto, [], back.written;
    if fate.Spliced? {
      d, site := Receive(agents[route.value.conn], up.written, json, kind, host, remote, content);
    }
  }

  lemma OneHost(kind: V.Kind, content: Bytes, host: Bytes)
    ensures (exists name :: V.Names(kind, content, name) && host == NormalizeHost(name)) ==>
              forall name :: V.Names(kind, content, name) ==> host == NormalizeHost(name)
  {
    forall name, other | V.Names(kind, content, name) && V.Names(kind, content, other) ensures name == other {
      V.NamesOne(kind, content, name, other);
    }
  }

  /** Every server along the way uses one name. A canonical name, as are all that a user may add
      and the automatic ones, is claimed as it is, every spelling of it that a visitor may use
      leads to that claim, and the agent serves the name the edge then announces. */
  lemma NamesMeet(cfg: R.Config, routes: R.Table, tun: R.Tunnel, hostnames: set<Bytes>, host: Bytes, v: Bytes)
    requires R.ConfigOk(cfg) && Canonical(host) && host in hostnames && Spelling(v, host)
    ensures R.Accepted(cfg, routes, tun, [host]) == if R.Refused(cfg, routes, tun, host).None? then [host] else []
    ensures NormalizeHost(v) == host && Serving(hostnames, NormalizeHost(v))
  {
    CanonicalFixed(host);
    SpellingNormalizes(v, host);
    R.OneAccepted(cfg, routes, tun, host);
  }

  lemma NormalizedLength(h: Bytes)
    ensures |NormalizeHost(h)| <= |h|
    ensures |NormalizeHost(h)| == |h| ==> NormalizeHost(h) == Lower(h)
  {
    TrimShortens(h);
  }

  /** The names the agent holds, as it lists them in a claim. */
  function Held(list: seq<Bytes>): set<Bytes> { set h | h in list }

  /** The path through a held name: the edge routes the name it makes of it to this tunnel, and
      the agent serves that name when the edge announces it. */
  ghost predicate Meets(cfg: R.Config, routes: R.Table, tun: R.Tunnel, list: seq<Bytes>, k: Bytes)
    requires R.ConfigOk(cfg)
  {
    NormalizeHost(k) in R.Accepted(cfg, routes, tun, list) && Serving(Held(list), NormalizeHost(k))
  }

  /** Configured names are not validated, and there the path can break off: the edge normalizes
      a held name once more, and the agent normalizes what the edge announces. A held name is
      routed when the edge's form of it passes, whatever stands beside it in the claim; the
      agent then serves it when it also holds the name that two passes leave. */
  lemma HeldNameMeetsIff(cfg: R.Config, routes: R.Table, tun: R.Tunnel, list: seq<Bytes>, k: Bytes)
    requires R.ConfigOk(cfg) && k in list
    ensures Meets(cfg, routes, tun, list, k) <==>
              R.Passes(cfg, routes, tun, NormalizeHost(k)) && NormalizeHost(NormalizeHost(k)) in list
  {
    var host := NormalizeHost(k);
    var i :| 0 <= i < |list| && list[i] == k;
    R.AcceptedIff(cfg, routes, tun, list, i, host);
  }

  lemma TwiceIsItselfIff(k: Bytes)
    ensures NormalizeHost(NormalizeHost(k)) == k <==> Settled(k)
  {
    var once := NormalizeHost(k);
    FixedIffSettled(k);
    if NormalizeHost(once) == k {
      NormalizedLength(k);
      NormalizedLength(once);
      LowerTwice(k);
    }
  }

  lemma ServesItselfIff(k: Bytes)
    ensures Serving({k}, NormalizeHost(k)) <==> Settled(k)
  {
    TwiceIsItselfIff(k);
  }

  /** A held name by itself, as the only one: it works exactly when it is settled, not empty, and
      passes the edge's policy. */
  lemma ConfiguredNameMeetsIff(cfg: R.Config, routes: R.Table, tun: R.Tunnel, k: Bytes)
    requires R.ConfigOk(cfg)
    ensures R.Accepted(cfg, routes, tun, [k]) == [NormalizeHost(k)] && Serving({k}, NormalizeHost(k)) <==>
              Settled(k) && R.Passes(cfg, routes, tun, k)
  {
    R.OneAccepted(cfg, routes, tun, k);
    FixedIffSettled(k);
    ServesItselfIff(k);
  }

  /** Names that are lost, as "a..": with two trailing dots a name is held with one; the edge
      routes and announces it with none, and the agent refuses that, unless it was told to
      serve the name itself as well. */
  lemma UnsettledNameIsLost(cfg: R.Config, routes: R.Table, tun: R.Tunnel, host: Bytes)
    requires R.ConfigOk(cfg) && Canonical(host) && R.Passes(cfg, routes, tun, host)
    ensures var held := host + [DOT];
            && NormalizeHost(host + [DOT, DOT]) == held && R.Accepted(cfg, routes, tun, [held]) == [host]
            && !Serving({held}, host) && Serving({held, host}, host)
  {
    NormalizeTwiceDiffers(host);
    CanonicalFixed(host);
    LostWithoutItsForm(cfg, routes, tun, host + [DOT], host);
  }

  lemma LostWithoutItsForm(cfg: R.Config, routes: R.Table, tun: R.Tunnel, held: Bytes, host: Bytes)
    requires R.ConfigOk(cfg) && R.Passes(cfg, routes, tun, host)
    requires NormalizeHost(held) == host && NormalizeHost(host) == host && held != host
    ensures R.Accepted(cfg, routes, tun, [held]) == [host]
    ensures !Serving({held}, host) && Serving({held, host}, host)
  {
    hide NormalizeHost, R.Passes, R.Accepted;
    R.OneAccepted(cfg, routes, tun, held);
  }

  /** And one the edge refuses although nothing is left to normalize: "." is held as the empty
      name. */
  lemma EmptyNameIsRefused(cfg: R.Config, routes: R.Table, tun: R.Tunnel, raw: Bytes)
    requires R.ConfigOk(cfg) && raw == [DOT]
    ensures var held := NormalizeHost(raw);
            held == [] && Settled(held) && R.Accepted(cfg, routes, tun, [held]) == []
  {
    PortAloneIsEmpty([]);
    assert [DOT] + [] == raw;
    FixedIffSettled([]);
    R.OneAccepted(cfg, routes, tun, NormalizeHost(raw));
  }
}
