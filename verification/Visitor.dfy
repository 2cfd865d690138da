/** The edge's visitor path (internal/edge/edge.go, lines 347-430): find the name, look up the
    route, announce the stream, replay what was read, copy the rest. */
module Visitor {
  import opened ByteText
  import opened Streams
  import opened Frames
  import B = HelloBytes
  import CH = ClientHello
  import HttpHead
  import Hosts
  import Routes
  import Sni

  datatype Kind = Tls | Http

  function ProtoOf(kind: Kind): Bytes { if kind.Tls? then PROTO_TLS else PROTO_HTTP }

  /** The name a stream asks for, whatever pieces it arrives in. */
  ghost predicate Names(kind: Kind, content: Bytes, name: Bytes) {
    match kind
    case Tls => Sni.OutcomeOf(Sni.ReadStream(content)) == Sni.Classified(CH.Found(name))
    case Http =>
      var e := HttpHead.HeadEnd(content);
      e >= 0 && HttpHead.HostFromHead(content[..e]) == Ok(name)
  }

  /** The stream is certain to be understood: for HTTP its head must end early enough. */
  predicate Prompt(kind: Kind, content: Bytes) {
    kind.Http? ==> HttpHead.HeadEnd(content) + 4 <= 8192
  }

  /** Which streams name a host, byte by byte: TLS streams headed by records that carry a hello
      with that name, and cleartext ones headed by a request whose first Host header has it. */
  lemma NamesIff(kind: Kind, content: Bytes, name: Bytes)
    ensures Names(kind, content, name) <==>
              if kind.Tls?
              then exists p, fs, extra, tail :: B.Spells(content, name, p, fs, extra, tail)
              else exists request, headers, rest, k ::
                     HttpHead.Request(content, request, headers, rest) && HttpHead.FirstHeader(headers, k, name)
  {
    if kind.Tls? {
      B.StreamNamesIff(content, name);
    } else {
      HttpHead.HostIffRequest(content, name);
    }
  }

  /** A stream names one host at most. */
  lemma NamesOne(kind: Kind, content: Bytes, name: Bytes, other: Bytes)
    requires Names(kind, content, name) && Names(kind, content, other)
    ensures name == other
  {
  }

  function OpenOf(kind: Kind, host: Bytes, remote: Bytes): Message { Open(ProtoOf(kind), host, remote) }

  /** All that the agent is to receive: the header, then the visitor's stream from its first
      byte. */
  function ToAgent(json: Json, kind: Kind, host: Bytes, remote: Bytes, content: Bytes): Bytes {
    Wire(json, OpenOf(kind, host, remote)) + content
  }

  datatype Fate = Unclassified | NoRoute | NoStream | HeaderLost | ReplayLost | Spliced

  /** The switch at the head of serveVisitor: the name, and the bytes to replay. */
  method Classify(conn: Conn, kind: Kind) returns (name: Option<Bytes>, replay: Bytes)
    requires conn.Valid() && conn.pos == 0
    modifies conn`pos
    ensures conn.Valid()
    ensures name.Some? ==> Names(kind, conn.content, name.value) && replay == conn.content[..conn.pos]
    ensures name.None? && Prompt(kind, conn.content) ==> forall n :: !Names(kind, conn.content, n)
  {
    match kind
    case Tls =>
      var outcome, raw := Sni.Peek(conn);
      if outcome.Classified? && outcome.verdict.Found? {
        assert raw == conn.content[..|raw|];
        return Some(outcome.verdict.name), raw;
      }
      return None, raw;
    case Http =>
      var host;
      host, replay := HttpHead.PeekHttpHost(conn);
      return if host.Ok? then Some(host.value) else None, replay;
  }

  /** splice: both directions at once, in pieces that alternate in any way. When a direction is
      over, its write side is closed: the stream's always, the visitor's if it is a TCP
      connection. Each direction carries its bytes in order, all of them unless it breaks. */
  method Splice(visitor: Conn, back: Sink, tcp: bool, up: Sink, down: Conn) returns (wholeUp: bool, wholeDown: bool)
    requires visitor.Valid() && down.Valid() && visitor != down && up != back
    modifies visitor`pos, down`pos, up, back
    ensures visitor.Valid() && down.Valid()
    ensures up.closed && (tcp ==> back.closed)
    ensures old(up.written) <= up.written <= old(up.written) + visitor.content[old(visitor.pos)..]
    ensures wholeUp ==> up.written == old(up.written) + visitor.content[old(visitor.pos)..]
    ensures old(back.written) <= back.written <= old(back.written) + down.content[old(down.pos)..]
    ensures wholeDown ==> back.written == old(back.written) + down.content[old(down.pos)..]
    ensures up.sound && !old(up.closed) ==> wholeUp
    ensures back.sound && !old(back.closed) ==> wholeDown
  {
    var upOver, downOver := false, false;
    wholeUp, wholeDown := true, true;
    ghost var up0, visitor0, back0, down0 := up.written, visitor.pos, back.written, down.pos;
    assert up0 + visitor.content[visitor0..visitor0] == up0 && back0 + down.content[down0..down0] == back0;
    while !upOver || !downOver
      invariant Copying(up0, visitor0, up, visitor, upOver, wholeUp) && (upOver ==> up.closed)
      invariant Copying(back0, down0, back, down, downOver, wholeDown) && (downOver && tcp ==> back.closed)
      invariant !upOver ==> up.closed == old(up.closed)
      invariant !downOver ==> back.closed == old(back.closed)
      invariant up.sound && !old(up.closed) ==> wholeUp
      invariant back.sound && !old(back.closed) ==> wholeDown
      decreases |visitor.content| - visitor.pos + |down.content| - down.pos,
                (if upOver then 0 else 1) + (if downOver then 0 else 1)
    {
      var upNext := *;
      if !upOver && (downOver || upNext) {
        upOver, wholeUp := CopyOn(up, visitor, up0, visitor0);
        if upOver {
          up.Close();
        }
      } else {
        downOver, wholeDown := CopyOn(back, down, back0, down0);
        if downOver && tcp {
          back.Close();
        }
      }
    }
  }

  lemma PrefixGrows(a: Bytes, b: Bytes, more: Bytes)
    requires a <= b
    ensures a <= b + more
  {
  }

  /** The second half of serveVisitor, once there is a stream: announce, replay, splice. */
  method Forward(conn: Conn, back: Sink, tcp: bool, open: Message, replay: Bytes, up: Sink, down: Conn, json: Json)
      returns (fate: Fate, wholeUp: bool, wholeDown: bool)
    requires conn.Valid() && replay == conn.content[..conn.pos] && down.Valid() && down.pos == 0 && conn != down
    requires up != back && up.written == [] && back.written == []
    modifies conn`pos, down`pos, up, back
    ensures fate.HeaderLost? || fate.ReplayLost? || fate.Spliced?
    ensures up.closed && up.written <= Wire(json, open) + conn.content
    ensures fate.Spliced? ==> Wire(json, open) != [] && Wire(json, open) <= up.written
    ensures fate.Spliced? && wholeUp ==> up.written == Wire(json, open) + conn.content
    ensures back.written <= down.content && (!fate.Spliced? ==> back.written == [])
    ensures fate.Spliced? && wholeDown ==> back.written == down.content
    ensures up.sound && !old(up.closed) && Wire(json, open) != [] ==> fate.Spliced? && wholeUp
    ensures fate.Spliced? && back.sound && !old(back.closed) ==> wholeDown
  {
    wholeUp, wholeDown := false, false;
    ghost var header, unread := Wire(json, open), conn.content[conn.pos..];
    assert replay + unread == conn.content;
    var ok := WriteFrame(up, json, open);
    if !ok {
      up.Close();
      PrefixGrows(up.written, header, conn.content);
      return HeaderLost, wholeUp, wholeDown;
    }
    assert up.written == header;
    assert header + replay + unread == header + conn.content;
    if |replay| > 0 {
      ok := up.Write(replay);
      if !ok {
        up.Close();
        PrefixGrows(up.written, header + replay, unread);
        return ReplayLost, wholeUp, wholeDown;
      }
    }
    assert up.written == header + replay;
    wholeUp, wholeDown := Splice(conn, back, tcp, up, down);
    assert header <= header + replay;
    fate := Spliced;
  }

  /** The error pages of writeHTTPError, for a host nobody serves and for one whose agent cannot
      be reached. */
  datatype Pages = Pages(notConnected: Bytes, notReachable: Bytes)

  /** What a visitor who is not spliced is told: nothing over TLS. */
  function PageFor(pages: Pages, kind: Kind, fate: Fate): Bytes {
    if kind.Http? && fate.NoRoute? then pages.notConnected
    else if kind.Http? && fate.NoStream? then pages.notReachable
    else []
  }

  method TurnAway(back: Sink, kind: Kind, fate: Fate, pages: Pages)
    requires back.written == []
    modifies back
    ensures back.closed && back.written <= PageFor(pages, kind, fate)
    ensures back.sound && !old(back.closed) ==> back.written == PageFor(pages, kind, fate)
  {
    if kind.Http? && (fate.NoRoute? || fate.NoStream?) {
      var ignored := back.Write(PageFor(pages, kind, fate));
    }
    back.Close();
  }

  /** serveVisitor, with the stream that OpenStream would give on the route's connection, or
      none. A stream gets nothing but its header and the visitor's own bytes in order, and gets
      all of them unless it breaks; what comes back reaches the visitor unaltered too. Over
      write sides that do not break a visitor of a routed name is always spliced, and one who
      is not gets the error page, if any. Both ends are closed. */
  method ServeVisitor(conn: Conn, back: Sink, tcp: bool, kind: Kind, remote: Bytes, server: Routes.Server,
                      opens: bool, up: Sink, down: Conn, json: Json, pages: Pages)
      returns (fate: Fate, host: Bytes, route: Option<Routes.Route>, wholeUp: bool, wholeDown: bool)
    requires conn.Valid() && conn.pos == 0 && down.Valid() && down.pos == 0 && conn != down
    requires up != back && up.written == [] && back.written == []
    modifies conn`pos, down`pos, up, back
    ensures back.closed
    ensures fate.Unclassified? && Prompt(kind, conn.content) ==> forall name :: !Names(kind, conn.content, name)
    ensures !fate.Unclassified? ==>
              && (exists name :: Names(kind, conn.content, name) && host == Hosts.NormalizeHost(name))
              && route == server.Lookup(host)
              && (fate.NoRoute? <==> route.None?) && (fate.NoStream? <==> route.Some? && !opens)
    ensures fate.Unclassified? || fate.NoRoute? || fate.NoStream? ==> up.written == [] && up.closed == old(up.closed)
    ensures fate.HeaderLost? || fate.ReplayLost? || fate.Spliced? ==> up.closed
    ensures var header := Wire(json, Open(if kind.Tls? then [116, 108, 115] else [104, 116, 116, 112], host, remote));
            && up.written <= header + conn.content
            && (fate.Spliced? ==> header != [] && header <= up.written)
            && (fate.Spliced? && wholeUp ==> up.written == header + conn.content)
            && (route.Some? && opens && up.sound && !old(up.closed) && header != [] ==> fate.Spliced? && wholeUp)
    ensures fate.Spliced? && back.sound && !old(back.closed) ==> wholeDown
    ensures var told := if kind.Http? && fate.NoRoute? then pages.notConnected
                        else if kind.Http? && fate.NoStream? then pages.notReachable else [];
            !fate.Spliced? ==> back.written <= told && (back.sound && !old(back.closed) ==> back.written == told)
    ensures fate.Spliced? ==> back.written <= down.content && (wholeDown ==> back.written == down.content)
  {
    hide Names, Hosts.NormalizeHost, Prompt, Wire;
    host, route, wholeUp, wholeDown := [], None, false, false;
    var name, replay := Classify(conn, kind);
    if name.None? {
      TurnAway(back, kind, Unclassified, pages);
      return Unclassified, host, route, wholeUp, wholeDown;
    }
    host := Hosts.NormalizeHost(name.value);
    route := server.Lookup(host);
    if route.None? {
      TurnAway(back, kind, NoRoute, pages);
      return NoRoute, host, route, wholeUp, wholeDown;
    }
    if !opens {
      TurnAway(back, kind, NoStream, pages);
      return NoStream, host, route, wholeUp, wholeDown;
    }
    fate, wholeUp, wholeDown := Forward(conn, back, tcp, OpenOf(kind, host, remote), replay, up, down, json);
    back.Close();
  }
}
