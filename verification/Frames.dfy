/** internal/proto/proto.go: length-prefixed frames and the messages inside them.

    JSON is a parameter: a pair of functions of which the second undoes the first. */
module Frames {
  import opened ByteText
  import opened Streams

  const MAX_FRAME: nat := 0x10_0000
  const FRAME_HEADER: nat := 4

  // ---------- frames ----------

  datatype FrameError = HeaderCutOff | FrameTooLarge | BodyCutOff

  /** A body of at most 1 MiB behind its length in four bytes. */
  function Frame(body: Bytes): Bytes
    requires |body| <= 1048576
  {
    [(|body| / 16777216) as byte, (|body| / 65536 % 256) as byte, (|body| / 256 % 256) as byte, (|body| % 256) as byte]
    + body
  }

  lemma HeaderIs(body: Bytes)
    requires |body| <= 1048576
    ensures Frame(body) == PutU32(|body|) + body
  {
    var n := |body|;
    assert n / 16777216 == 0 && n % 16777216 == n;
    assert n / 65536 % 256 == n / 65536;
    assert PutU32(n) == [0] + PutU24(n);
  }

  /** The frame at the head of a stream: its body and what follows. */
  function FirstFrame(s: Bytes): (r: Result<(Bytes, Bytes), FrameError>)
    ensures r.Ok? ==> |r.value.0| <= MAX_FRAME && |r.value.1| < |s|
  {
    if |s| < FRAME_HEADER then Err(HeaderCutOff)
    else
      var n := U32(s[0], s[1], s[2], s[3]);
      if n > MAX_FRAME then Err(FrameTooLarge)
      else if |s| - FRAME_HEADER < n then Err(BodyCutOff)
      else Ok((s[FRAME_HEADER..FRAME_HEADER + n], s[FRAME_HEADER + n..]))
  }

  /** WriteFrame from the encoded body on. */
  method WriteBody(w: Sink, body: Bytes) returns (ok: bool)
    modifies w`written
    ensures |body| > 1048576 ==> !ok && w.written == old(w.written)
    ensures |body| <= 1048576 ==> old(w.written) <= w.written <= old(w.written) + Frame(body)
    ensures ok ==> |body| <= 1048576 && w.written == old(w.written) + Frame(body)
    ensures w.sound && !w.closed && |body| <= 1048576 ==> ok
  {
    if |body| > MAX_FRAME {
      return false;
    }
    hide Frame, PutU32;
    var buf := new byte[FRAME_HEADER + |body|];
    var header := PutU32(|body|);
    forall k | 0 <= k < FRAME_HEADER {
      buf[k] := header[k];
    }
    forall k | 0 <= k < |body| {
      buf[FRAME_HEADER + k] := body[k];
    }
    HeaderIs(body);
    assert buf[..] == header + body;
    ok := w.Write(buf[..]);
  }

  /** ReadFrame: the length is checked before the body is read. */
  method ReadFrame(c: Conn) returns (r: Result<Bytes, FrameError>)
    requires c.Valid()
    modifies c`pos
    ensures c.Valid() && c.pos >= old(c.pos)
    ensures var first := FirstFrame(c.content[old(c.pos)..]);
            if first.Ok? then r == Ok(first.value.0) && c.content[c.pos..] == first.value.1
            else r == Err(first.error)
  {
    ghost var s, start := c.content[c.pos..], c.pos;
    var hdr, ok := ReadFull(c, FRAME_HEADER);
    if !ok {
      return Err(HeaderCutOff);
    }
    SliceOfRest(c.content, start, 0, FRAME_HEADER);
    assert hdr == s[0..FRAME_HEADER];
    var n := U32(hdr[0], hdr[1], hdr[2], hdr[3]);
    if n > MAX_FRAME {
      return Err(FrameTooLarge);
    }
    var body;
    body, ok := ReadFull(c, n);
    if !ok {
      return Err(BodyCutOff);
    }
    SliceOfRest(c.content, start, FRAME_HEADER, FRAME_HEADER + n);
    RestOfRest(c.content, start, FRAME_HEADER + n);
    r := Ok(body);
  }

  // ---------- streams of frames ----------

  predicate BodiesOk(bodies: seq<Bytes>) {
    forall k :: 0 <= k < |bodies| ==> |bodies[k]| <= 1048576
  }

  function PrintFrames(bodies: seq<Bytes>, tail: Bytes): Bytes
    requires BodiesOk(bodies)
  {
    if bodies == [] then tail else Frame(bodies[0]) + PrintFrames(bodies[1..], tail)
  }

  /** n frames, one after the other. */
  function ReadFrames(s: Bytes, n: nat): Result<(seq<Bytes>, Bytes), FrameError> {
    if n == 0 then Ok(([], s))
    else
      match FirstFrame(s)
      case Err(error) => Err(error)
      case Ok((body, rest)) =>
        match ReadFrames(rest, n - 1)
        case Err(error) => Err(error)
        case Ok((more, tail)) => Ok(([body] + more, tail))
  }

  lemma FirstFrameIff(s: Bytes, body: Bytes, rest: Bytes)
    ensures FirstFrame(s) == Ok((body, rest)) <==> |body| <= 1048576 && s == Frame(body) + rest
  {
    hide Frame, PutU32, U32;
    if |body| <= 1048576 {
      HeaderIs(body);
      if s == Frame(body) + rest {
        FrameRead(s, body, rest);
      }
    }
    if FirstFrame(s) == Ok((body, rest)) {
      PutBack(s);
      assert s == s[..FRAME_HEADER] + s[FRAME_HEADER..FRAME_HEADER + |body|] + rest;
    }
  }

  lemma FrameRead(s: Bytes, body: Bytes, rest: Bytes)
    requires |body| <= 1048576 && s == PutU32(|body|) + body + rest
    ensures FirstFrame(s) == Ok((body, rest))
  {
    hide PutU32, U32;
    var header := PutU32(|body|);
    assert s[0] == header[0] && s[1] == header[1] && s[2] == header[2] && s[3] == header[3];
    assert s[FRAME_HEADER..FRAME_HEADER + |body|] == body && s[FRAME_HEADER + |body|..] == rest;
  }

  /** Why a stream has no first frame. */
  lemma NoFrameIff(s: Bytes)
    ensures FirstFrame(s) == Err(HeaderCutOff) <==> |s| < 4
    ensures |s| >= 4 ==>
              var n := s[0] as int * 16777216 + s[1] as int * 65536 + s[2] as int * 256 + s[3] as int;
              && (FirstFrame(s) == Err(FrameTooLarge) <==> n > 1048576)
              && (FirstFrame(s) == Err(BodyCutOff) <==> n <= 1048576 && |s| - 4 < n)
  {
  }

  lemma U24Back(a: byte, b: byte, c: byte)
    ensures PutU24(U24(a, b, c)) == [a, b, c]
  {
    var n := U24(a, b, c);
    assert n == (a as int * 256 + b as int) * 256 + c as int;
    assert n / 256 == a as int * 256 + b as int;
  }

  lemma PutBack(s: Bytes)
    requires |s| >= FRAME_HEADER
    ensures PutU32(U32(s[0], s[1], s[2], s[3])) == s[..FRAME_HEADER]
  {
    U24Back(s[1], s[2], s[3]);
    U32Parts(s[0], s[1], s[2], s[3]);
  }

  lemma U32Parts(a: byte, b: byte, c: byte, d: byte)
    ensures U32(a, b, c, d) / 0x100_0000 == a as int && U32(a, b, c, d) % 0x100_0000 == U24(b, c, d)
  {
  }

  lemma ConsIff(first: Bytes, more: seq<Bytes>, all: seq<Bytes>)
    requires all != []
    ensures [first] + more == all <==> first == all[0] && more == all[1..]
  {
    assert ([first] + more)[1..] == more && all == [all[0]] + all[1..];
  }

  lemma ReadStep(s: Bytes, n: nat, bodies: seq<Bytes>, tail: Bytes)
    requires n > 0 && bodies != []
    ensures ReadFrames(s, n) == Ok((bodies, tail)) <==>
              && FirstFrame(s).Ok? && FirstFrame(s).value.0 == bodies[0]
              && ReadFrames(FirstFrame(s).value.1, n - 1) == Ok((bodies[1..], tail))
  {
    if FirstFrame(s).Ok? {
      var (body, rest) := FirstFrame(s).value;
      if ReadFrames(rest, n - 1).Ok? {
        ConsIff(body, ReadFrames(rest, n - 1).value.0, bodies);
      }
    }
  }

  lemma PrintStep(s: Bytes, bodies: seq<Bytes>, tail: Bytes)
    requires bodies != []
    ensures BodiesOk(bodies) && s == PrintFrames(bodies, tail) <==>
              && FirstFrame(s).Ok? && FirstFrame(s).value.0 == bodies[0]
              && BodiesOk(bodies[1..]) && FirstFrame(s).value.1 == PrintFrames(bodies[1..], tail)
  {
    BodiesCons(bodies);
    if BodiesOk(bodies) {
      FirstFrameIff(s, bodies[0], PrintFrames(bodies[1..], tail));
    } else if FirstFrame(s).Ok? {
      assert |FirstFrame(s).value.0| <= MAX_FRAME;
    }
  }

  lemma BodiesCons(bodies: seq<Bytes>)
    requires bodies != []
    ensures BodiesOk(bodies) <==> |bodies[0]| <= MAX_FRAME && BodiesOk(bodies[1..])
  {
    assert bodies == [bodies[0]] + bodies[1..];
  }

  /** Frame streams decode uniquely: n frames are read from a stream exactly when it is those
      frames followed by the bytes left over, and no body exceeds the cap. */
  lemma {:induction false} FramesIff(s: Bytes, n: nat, bodies: seq<Bytes>, tail: Bytes)
    ensures ReadFrames(s, n) == Ok((bodies, tail)) <==>
              |bodies| == n && BodiesOk(bodies) && s == PrintFrames(bodies, tail)
    decreases n
  {
    hide FirstFrame, Frame;
    if n > 0 && bodies != [] {
      hide ReadFrames, PrintFrames, BodiesOk;
      ReadStep(s, n, bodies, tail);
      PrintStep(s, bodies, tail);
      if FirstFrame(s).Ok? {
        FramesIff(FirstFrame(s).value.1, n - 1, bodies[1..], tail);
      }
    }
  }

  // ---------- messages ----------

  datatype Message =
    | Hello(version: int, peerId: Bytes, pubKey: Bytes, role: Bytes, agent: Bytes)
    | Challenge(nonce: Bytes, serverPubKey: Bytes)
    | Auth(sig: Bytes)
    | Open(proto: Bytes, host: Bytes, remote: Bytes)
    | Failure(code: Bytes, text: Bytes)
    | Other(kind: Bytes)

  const TYPE_HELLO: Bytes := [104, 101, 108, 108, 111]
  const TYPE_CHALLENGE: Bytes := [99, 104, 97, 108, 108, 101, 110, 103, 101]
  const TYPE_AUTH: Bytes := [97, 117, 116, 104]
  const TYPE_OPEN: Bytes := [111, 112, 101, 110]
  const TYPE_ERROR: Bytes := [101, 114, 114, 111, 114]
  const PROTO_TLS: Bytes := [116, 108, 115]
  const PROTO_HTTP: Bytes := [104, 116, 116, 112]

  /** The type field of the envelope. */
  function TypeName(m: Message): Bytes {
    match m
    case Hello(_, _, _, _, _) => TYPE_HELLO
    case Challenge(_, _) => TYPE_CHALLENGE
    case Auth(_) => TYPE_AUTH
    case Open(_, _, _) => TYPE_OPEN
    case Failure(_, _) => TYPE_ERROR
    case Other(kind) => kind
  }

  /** Each of the types above belongs to its own message. */
  predicate Proper(m: Message) {
    m.Other? ==> m.kind !in [TYPE_HELLO, TYPE_CHALLENGE, TYPE_AUTH, TYPE_OPEN, TYPE_ERROR]
  }

  /** Bodies are decoded twice: once for the type, once into the message of a given type. */
  datatype Json = Json(
    marshal: Message -> Bytes,
    envelope: Bytes -> Option<Bytes>,
    decode: (Bytes, Bytes) -> Option<Message>)

  /** Decoding undoes encoding, and yields messages of the type asked for. */
  ghost predicate JsonOk(json: Json) {
    && (forall m :: json.envelope(json.marshal(m)) == Some(TypeName(m)))
    && (forall m :: Proper(m) ==> json.decode(json.marshal(m), TypeName(m)) == Some(m))
    && (forall body, want :: json.decode(body, want).Some? ==>
          Proper(json.decode(body, want).value) && TypeName(json.decode(body, want).value) == want)
  }

  /** The bytes of one message on a stream; an oversized one is never sent. */
  function Wire(json: Json, m: Message): Bytes {
    var body := json.marshal(m);
    if |body| <= MAX_FRAME then Frame(body) else []
  }

  /** WriteFrame: a message whose body is too long is refused before anything is written, any
      other goes out as one frame, in part only if the write fails. */
  method WriteFrame(w: Sink, json: Json, m: Message) returns (ok: bool)
    modifies w`written
    ensures old(w.written) <= w.written <= old(w.written) + Wire(json, m)
    ensures ok ==> Wire(json, m) != [] && w.written == old(w.written) + Wire(json, m)
    ensures w.sound && !w.closed && Wire(json, m) != [] ==> ok
  {
    ok := WriteBody(w, json.marshal(m));
  }

  datatype ReadError =
    | BadFrame(frame: FrameError) | BadEnvelope | NoType | Remote(code: Bytes, text: Bytes) | WrongType | BadBody

  /** What ReadExpect makes of a frame body. */
  function Expected(json: Json, body: Bytes, want: Bytes): Result<Message, ReadError>
    requires JsonOk(json)
  {
    match json.envelope(body)
    case None => Err(BadEnvelope)
    case Some(kind) =>
      if kind == [] then Err(NoType)
      else if kind == TYPE_ERROR && want != TYPE_ERROR then
        match json.decode(body, TYPE_ERROR)
        case None => Err(BadBody)
        case Some(m) => Err(Remote(m.code, m.text))
      else if kind != want then Err(WrongType)
      else
        match json.decode(body, want)
        case None => Err(BadBody)
        case Some(m) => Ok(m)
  }

  /** The message of the wanted type at the head of a stream, and what follows it. */
  function FirstMessage(json: Json, s: Bytes, want: Bytes): Result<(Message, Bytes), ReadError>
    requires JsonOk(json)
  {
    match FirstFrame(s)
    case Err(error) => Err(BadFrame(error))
    case Ok((body, rest)) =>
      match Expected(json, body, want)
      case Err(error) => Err(error)
      case Ok(m) => Ok((m, rest))
  }

  /** What a body of the wanted type must be, and every way in which it is not: no envelope, no
      type, an error from the remote, another type, or a type without its body. */
  lemma ExpectedIff(json: Json, body: Bytes, want: Bytes, m: Message)
    requires JsonOk(json)
    ensures Expected(json, body, want) == Ok(m) <==>
              json.envelope(body) == Some(want) && want != [] && json.decode(body, want) == Some(m)
    ensures Expected(json, body, want) == Err(BadEnvelope) <==> json.envelope(body) == None
    ensures Expected(json, body, want) == Err(NoType) <==> json.envelope(body) == Some([])
    ensures forall code, text :: Expected(json, body, want) == Err(Remote(code, text)) <==>
              && json.envelope(body) == Some([101, 114, 114, 111, 114]) && want != [101, 114, 114, 111, 114]
              && json.decode(body, [101, 114, 114, 111, 114]) == Some(Failure(code, text))
    ensures Expected(json, body, want) == Err(WrongType) <==>
              json.envelope(body).Some? && json.envelope(body).value !in [want, [], [101, 114, 114, 111, 114]]
  {
    assert TYPE_ERROR == [101, 114, 114, 111, 114];
    if json.decode(body, TYPE_ERROR).Some? {
      assert TypeName(json.decode(body, TYPE_ERROR).value) == TYPE_ERROR;
    }
  }

  /** A stream gives a message of the wanted type exactly when it begins with a frame that has
      that type and decodes to it. */
  lemma FirstMessageIff(json: Json, s: Bytes, want: Bytes, m: Message, rest: Bytes)
    requires JsonOk(json)
    ensures FirstMessage(json, s, want) == Ok((m, rest)) <==>
              exists body ::
                && |body| <= 1048576 && s == Frame(body) + rest
                && json.envelope(body) == Some(want) && want != [] && json.decode(body, want) == Some(m)
  {
    if FirstMessage(json, s, want) == Ok((m, rest)) {
      var body := FirstFrame(s).value.0;
      FirstFrameIff(s, body, rest);
      ExpectedIff(json, body, want, m);
    }
    forall body | |body| <= 1048576 && s == Frame(body) + rest && json.envelope(body) == Some(want) && want != []
                  && json.decode(body, want) == Some(m)
      ensures FirstMessage(json, s, want) == Ok((m, rest))
    {
      FirstFrameIff(s, body, rest);
      ExpectedIff(json, body, want, m);
    }
  }

  /** The names on the wire. */
  lemma TypeNames()
    ensures TYPE_HELLO == Ascii("hello") && TYPE_CHALLENGE == Ascii("challenge") && TYPE_AUTH == Ascii("auth")
    ensures TYPE_OPEN == Ascii("open") && TYPE_ERROR == Ascii("error")
    ensures PROTO_TLS == Ascii("tls") && PROTO_HTTP == Ascii("http")
  {
  }

  /** ReadExpect. When the message is the wanted one, the bytes after its frame are still to
      be read. */
  method ReadExpect(c: Conn, json: Json, want: Bytes) returns (r: Result<Message, ReadError>)
    requires c.Valid() && JsonOk(json)
    modifies c`pos
    ensures c.Valid() && c.pos >= old(c.pos)
    ensures var first := FirstMessage(json, c.content[old(c.pos)..], want);
            && (first.Ok? ==> r == Ok(first.value.0) && c.content[c.pos..] == first.value.1)
            && (first.Err? ==> r == Err(first.error))
  {
    var frame := ReadFrame(c);
    if frame.Err? {
      return Err(BadFrame(frame.error));
    }
    var kind := json.envelope(frame.value);
    if kind.None? {
      return Err(BadEnvelope);
    }
    if kind.value == [] {
      return Err(NoType);
    }
    if kind.value == TYPE_ERROR && want != TYPE_ERROR {
      var failure := json.decode(frame.value, TYPE_ERROR);
      if failure.None? {
        return Err(BadBody);
      }
      return Err(Remote(failure.value.code, failure.value.text));
    }
    if kind.value != want {
      return Err(WrongType);
    }
    var message := json.decode(frame.value, want);
    if message.None? {
      return Err(BadBody);
    }
    return Ok(message.value);
  }

  /** A message that was written as a frame is the one that is read, and the bytes after it
      are untouched. */
  lemma MessageRoundTrip(json: Json, m: Message, rest: Bytes)
    requires JsonOk(json) && Proper(m) && TypeName(m) != [] && Wire(json, m) != []
    ensures var s := Wire(json, m) + rest;
            && FirstMessage(json, s, TypeName(m)) == Ok((m, rest))
            && (m.Failure? ==> forall want | want != TYPE_ERROR ::
                  FirstMessage(json, s, want) == Err(Remote(m.code, m.text)))
  {
    FirstFrameIff(Wire(json, m) + rest, json.marshal(m), rest);
  }
}
