/** internal/transport/transport.go: the authentication exchange on a fresh control stream.

    Base64, JSON, SHA-256 and Ed25519 are parameters; EnvOk says what is asked of them. */
module Handshake {
  import opened ByteText
  import opened Streams
  import opened Frames
  import I = Identity

  const VERSION: int := 1
  const NONCE_SIZE: nat := 32

  datatype Env = Env(
    json: Json,
    encode: Bytes -> Bytes,
    decode: Bytes -> Option<Bytes>,
    sha: Bytes -> Bytes,
    sign: (Bytes, Bytes) -> Bytes,
    verify: (Bytes, Bytes, Bytes) -> bool,
    explain: ServerError -> Bytes)

  /** Decoding undoes encoding, encoded text has no white space around it, digests have their
      length, and a signature verifies for what was signed. */
  ghost predicate EnvOk(env: Env) {
    && JsonOk(env.json) && I.IsHash(env.sha)
    && (forall raw :: env.decode(env.encode(raw)) == Some(raw) && Tight(env.encode(raw)))
    && (forall pub, msg :: env.verify(pub, msg, env.sign(pub, msg)))
  }

  // ---------- what is signed ----------

  /** "meshmorphic-auth-v1" and the zero byte after it. */
  const DOMAIN: Bytes :=
    [109, 101, 115, 104, 109, 111, 114, 112, 104, 105, 99, 45, 97, 117, 116, 104, 45, 118, 49, 0]

  function AuthInput(nonce: Bytes, serverPub: Bytes): Bytes { DOMAIN + nonce + [0] + serverPub }

  /** In bytes: "meshmorphic-auth-v1", a zero, the nonce, a zero, the key of the server. */
  function SignedBytes(nonce: Bytes, serverPub: Bytes): Bytes {
    [109, 101, 115, 104, 109, 111, 114, 112, 104, 105, 99, 45, 97, 117, 116, 104, 45, 118, 49, 0]
    + nonce + [0] + serverPub
  }

  /** The signed bytes say which nonce and which server, although the nonce may have any
      length and may hold zero bytes: keys have one length. */
  lemma AuthInputInjective(n: Bytes, p: Bytes, m: Bytes, q: Bytes)
    requires |p| == I.PUBLIC_KEY_SIZE && |q| == I.PUBLIC_KEY_SIZE
    ensures AuthInput(n, p) == SignedBytes(n, p)
    ensures AuthInput(n, p) == AuthInput(m, q) <==> n == m && p == q
  {
    var s, t := AuthInput(n, p), AuthInput(m, q);
    if s == t {
      assert |n| == |m|;
      assert s[|DOMAIN|..|DOMAIN| + |n|] == n && t[|DOMAIN|..|DOMAIN| + |m|] == m;
      assert s[|DOMAIN| + |n| + 1..] == p && t[|DOMAIN| + |m| + 1..] == q;
    }
  }

  /** Without that length the zero byte alone would not separate them. */
  lemma SeparatorAloneIsAmbiguous()
    ensures AuthInput([1], [2, 0, 3]) == AuthInput([1, 0, 2], [3])
  {
    assert AuthInput([1], [2, 0, 3]) == DOMAIN + [1, 0, 2, 0, 3];
  }

  function DecodeKey(env: Env, text: Bytes): Option<Bytes> {
    match env.decode(TrimSpace(text))
    case None => None
    case Some(raw) => if |raw| == I.PUBLIC_KEY_SIZE then Some(raw) else None
  }

  lemma KeyRoundTrip(env: Env, pub: Bytes)
    requires EnvOk(env)
    ensures DecodeKey(env, env.encode(pub)) == if |pub| == I.PUBLIC_KEY_SIZE then Some(pub) else None
  {
    assert env.decode(env.encode(pub)) == Some(pub) && Tight(env.encode(pub));
    TrimTight(env.encode(pub));
  }

  // ---------- the client ----------

  datatype ClientError =
    | BadChallenge(read: ReadError) | BadNonce | ShortNonce | BadServerKey | WrongPeer | SendFailed

  function HelloOf(env: Env, pub: Bytes, role: Bytes, agent: Bytes): Message
    requires EnvOk(env)
  {
    Hello(VERSION, I.PeerId(env.sha, pub), env.encode(pub), role, agent)
  }

  /** What the client agrees to sign: the nonce and the server key of a challenge. */
  function Answer(env: Env, pinned: Option<Bytes>, nonceText: Bytes, serverText: Bytes)
    : Result<(Bytes, Bytes), ClientError>
  {
    match env.decode(nonceText)
    case None => Err(BadNonce)
    case Some(nonce) =>
      if |nonce| < NONCE_SIZE then Err(ShortNonce)
      else
        match DecodeKey(env, serverText)
        case None => Err(BadServerKey)
        case Some(server) =>
          if pinned.Some? && server != pinned.value then Err(WrongPeer) else Ok((nonce, server))
  }

  /** A challenge is answered exactly when its nonce is decodable and long enough, and its key is
      a key, the pinned one if there is one. */
  lemma AnswerIff(env: Env, pinned: Option<Bytes>, nonceText: Bytes, serverText: Bytes, nonce: Bytes, server: Bytes)
    ensures Answer(env, pinned, nonceText, serverText) == Ok((nonce, server)) <==>
              && env.decode(nonceText) == Some(nonce) && |nonce| >= NONCE_SIZE
              && env.decode(TrimSpace(serverText)) == Some(server) && |server| == I.PUBLIC_KEY_SIZE
              && (pinned == None || pinned == Some(server))
  {
  }

  function AuthOf(env: Env, pub: Bytes, nonce: Bytes, server: Bytes): Message {
    Auth(env.encode(env.sign(pub, AuthInput(nonce, server))))
  }

  /** What the client makes of the server's side of the stream. */
  function ClientReads(env: Env, s: Bytes, pinned: Option<Bytes>): Result<(Bytes, Bytes), ClientError>
    requires EnvOk(env)
  {
    match FirstMessage(env.json, s, TYPE_CHALLENGE)
    case Err(error) => Err(BadChallenge(error))
    case Ok((m, rest)) => Answer(env, pinned, m.nonce, m.serverPubKey)
  }

  /** What a challenge is that the client answers: a nonce of at least 32 bytes and a key of 32,
      the pinned one if there is one. */
  predicate Acceptable(env: Env, m: Message, pinned: Option<Bytes>, nonce: Bytes, server: Bytes) {
    && m.Challenge? && env.decode(m.nonce) == Some(nonce) && |nonce| >= 32
    && env.decode(TrimSpace(m.serverPubKey)) == Some(server) && |server| == 32
    && (pinned == None || pinned == Some(server))
  }

  lemma ClientReadsIff(env: Env, s: Bytes, pinned: Option<Bytes>, nonce: Bytes, server: Bytes)
    requires EnvOk(env)
    ensures ClientReads(env, s, pinned) == Ok((nonce, server)) <==>
              exists m, rest ::
                && FirstMessage(env.json, s, [99, 104, 97, 108, 108, 101, 110, 103, 101]) == Ok((m, rest))
                && Acceptable(env, m, pinned, nonce, server)
    ensures var first := FirstMessage(env.json, s, [99, 104, 97, 108, 108, 101, 110, 103, 101]);
            first.Ok? && first.value.0.Challenge? ==>
              var n, k := env.decode(first.value.0.nonce), env.decode(TrimSpace(first.value.0.serverPubKey));
              var r := ClientReads(env, s, pinned);
              if n.None? then r == Err(BadNonce)
              else if |n.value| < 32 then r == Err(ShortNonce)
              else if k.None? || |k.value| != 32 then r == Err(BadServerKey)
              else pinned != None && pinned != k ==> r == Err(WrongPeer)
  {
    var first := FirstMessage(env.json, s, TYPE_CHALLENGE);
    if first.Ok? {
      FirstIsProper(env.json, s, TYPE_CHALLENGE);
      var m := first.value.0;
      AnswerIff(env, pinned, m.nonce, m.serverPubKey, nonce, server);
    }
  }

  lemma FirstIsProper(json: Json, s: Bytes, want: Bytes)
    requires JsonOk(json) && FirstMessage(json, s, want).Ok?
    ensures Proper(FirstMessage(json, s, want).value.0) && TypeName(FirstMessage(json, s, want).value.0) == want
  {
    var body := FirstFrame(s).value.0;
    ExpectedIff(json, body, want, FirstMessage(json, s, want).value.0);
  }

  /** What the client sends after its hello when nothing breaks: its answer to an acceptable
      challenge. */
  function AnswerWire(env: Env, pub: Bytes, answer: Result<(Bytes, Bytes), ClientError>): Bytes {
    if answer.Ok? then Wire(env.json, AuthOf(env, pub, answer.value.0, answer.value.1)) else []
  }

  /** ClientHandshake. It signs once, only for the server key the caller expects, and only
      after a challenge it accepts; success means that signature was sent. */
  method ClientHandshake(c: Conn, w: Sink, env: Env, pub: Bytes, role: Bytes, agent: Bytes, pinned: Option<Bytes>)
      returns (r: Result<(Bytes, Bytes), ClientError>)
    requires c.Valid() && EnvOk(env)
    modifies c`pos, w`written
    ensures c.Valid()
    ensures r.Ok? ==> |r.value.0| >= 32 && |r.value.1| == 32
    ensures r.Ok? ==> pinned == None || pinned == Some(r.value.1)
    ensures var hello := Wire(env.json, HelloOf(env, pub, role, agent));
            var answer := ClientReads(env, c.content[old(c.pos)..], pinned);
            var auth := AnswerWire(env, pub, answer);
            && (r != Err(SendFailed) ==> r == answer && w.written == old(w.written) + hello + auth)
            && (r == Err(SendFailed) ==> old(w.written) <= w.written <= old(w.written) + hello + auth)
            && (w.sound && !w.closed && hello != [] && (answer.Ok? ==> auth != []) ==> r != Err(SendFailed))
  {
    var sent := WriteFrame(w, env.json, HelloOf(env, pub, role, agent));
    if !sent {
      r := Err(SendFailed);
    } else {
      r := ReadChallenge(c, env, pinned);
      if r.Ok? {
        sent := WriteFrame(w, env.json, AuthOf(env, pub, r.value.0, r.value.1));
        if !sent {
          r := Err(SendFailed);
        }
      }
    }
  }

  /** ClientHandshake between its two messages. */
  method ReadChallenge(c: Conn, env: Env, pinned: Option<Bytes>) returns (answer: Result<(Bytes, Bytes), ClientError>)
    requires c.Valid() && EnvOk(env)
    modifies c`pos
    ensures c.Valid() && answer == ClientReads(env, c.content[old(c.pos)..], pinned)
    ensures answer.Ok? ==> |answer.value.0| >= 32 && |answer.value.1| == 32
    ensures answer.Ok? ==> pinned == None || pinned == Some(answer.value.1)
  {
    var challenge := ReadExpect(c, env.json, TYPE_CHALLENGE);
    if challenge.Err? {
      return Err(BadChallenge(challenge.error));
    }
    var nonce := env.decode(challenge.value.nonce);
    if nonce.None? {
      return Err(BadNonce);
    }
    if |nonce.value| < NONCE_SIZE {
      return Err(ShortNonce);
    }
    var server := DecodeKey(env, challenge.value.serverPubKey);
    if server.None? {
      return Err(BadServerKey);
    }
    if pinned.Some? && server.value != pinned.value {
      return Err(WrongPeer);
    }
    return Ok((nonce.value, server.value));
  }

  // ---------- the server ----------

  datatype PeerInfo = PeerInfo(peerId: Bytes, pubKey: Bytes, role: Bytes, agent: Bytes)

  datatype ServerError =
    | BadMessage(read: ReadError) | WrongVersion(offered: int) | BadKey | WrongId
    | BadSigText | BadSignature | WriteFailed

  const UNSUPPORTED_VERSION: Bytes :=
    [117, 110, 115, 117, 112, 112, 111, 114, 116, 101, 100, 95, 118, 101, 114, 115, 105, 111, 110]
  const BAD_IDENTITY: Bytes := [98, 97, 100, 95, 105, 100, 101, 110, 116, 105, 116, 121]
  const BAD_SIGNATURE: Bytes := [98, 97, 100, 95, 115, 105, 103, 110, 97, 116, 117, 114, 101]

  /** What the peer is told when its handshake is refused; nothing when reading or writing
      failed. */
  function Refusal(env: Env, e: ServerError): Option<Message> {
    match e
    case WrongVersion(_) => Some(Failure(UNSUPPORTED_VERSION, env.explain(e)))
    case BadKey => Some(Failure(BAD_IDENTITY, env.explain(e)))
    case WrongId => Some(Failure(BAD_IDENTITY, env.explain(e)))
    case BadSigText => Some(Failure(BAD_SIGNATURE, env.explain(e)))
    case BadSignature => Some(Failure(BAD_SIGNATURE, env.explain(e)))
    case _ => None
  }

  function RefusalWire(env: Env, e: ServerError): Bytes {
    if Refusal(env, e).Some? then Wire(env.json, Refusal(env, e).value) else []
  }

  /** The checks on a hello, in order; the result is the key. */
  function Admit(env: Env, version: int, peerId: Bytes, keyText: Bytes): Result<Bytes, ServerError>
    requires EnvOk(env)
  {
    if version != VERSION then Err(WrongVersion(version))
    else
      match DecodeKey(env, keyText)
      case None => Err(BadKey)
      case Some(pub) => if I.VerifyId(env.sha, peerId, pub) then Ok(pub) else Err(WrongId)
  }

  /** The check of the answer to a challenge. */
  function Settle(env: Env, pub: Bytes, nonce: Bytes, key: Bytes, sigText: Bytes): Option<ServerError> {
    match env.decode(sigText)
    case None => Some(BadSigText)
    case Some(sig) => if env.verify(pub, AuthInput(nonce, key), sig) then None else Some(BadSignature)
  }

  /** The client's side of the stream: its hello, when it is admitted, and what follows. */
  function Opening(env: Env, s: Bytes): Result<(PeerInfo, Bytes), ServerError>
    requires EnvOk(env)
  {
    match FirstMessage(env.json, s, TYPE_HELLO)
    case Err(error) => Err(BadMessage(error))
    case Ok((m, rest)) =>
      match Admit(env, m.version, m.peerId, m.pubKey)
      case Err(error) => Err(error)
      case Ok(pub) => Ok((PeerInfo(m.peerId, pub, m.role, m.agent), rest))
  }

  function Closing(env: Env, s: Bytes, peer: PeerInfo, nonce: Bytes, key: Bytes): Result<PeerInfo, ServerError>
    requires EnvOk(env)
  {
    match FirstMessage(env.json, s, TYPE_AUTH)
    case Err(error) => Err(BadMessage(error))
    case Ok((m, rest)) =>
      match Settle(env, peer.pubKey, nonce, key, m.sig)
      case Some(error) => Err(error)
      case None => Ok(peer)
  }

  /** What a hello is that the server admits: of version 1, with a key of 32 bytes and the ID that
      belongs to it. */
  predicate Admissible(env: Env, m: Message, peer: PeerInfo)
    requires I.IsHash(env.sha)
  {
    && m.Hello? && m.version == 1
    && env.decode(TrimSpace(m.pubKey)) == Some(peer.pubKey) && |peer.pubKey| == 32
    && m.peerId == I.PeerId(env.sha, peer.pubKey)
    && peer.peerId == m.peerId && peer.role == m.role && peer.agent == m.agent
  }

  lemma OpeningIff(env: Env, s: Bytes, peer: PeerInfo, rest: Bytes)
    requires EnvOk(env)
    ensures Opening(env, s) == Ok((peer, rest)) <==>
              exists m ::
                FirstMessage(env.json, s, [104, 101, 108, 108, 111]) == Ok((m, rest)) && Admissible(env, m, peer)
    ensures var first := FirstMessage(env.json, s, [104, 101, 108, 108, 111]);
            first.Ok? && first.value.0.Hello? ==>
              var m, k := first.value.0, env.decode(TrimSpace(first.value.0.pubKey));
              if m.version != 1 then Opening(env, s) == Err(WrongVersion(m.version))
              else if k.None? || |k.value| != 32 then Opening(env, s) == Err(BadKey)
              else m.peerId != I.PeerId(env.sha, k.value) ==> Opening(env, s) == Err(WrongId)
  {
    if FirstMessage(env.json, s, TYPE_HELLO).Ok? {
      FirstIsProper(env.json, s, TYPE_HELLO);
    }
  }

  /** The codes in words. */
  lemma CodesInWords()
    ensures UNSUPPORTED_VERSION == Ascii("unsupported_version")
    ensures BAD_IDENTITY == Ascii("bad_identity") && BAD_SIGNATURE == Ascii("bad_signature")
  {
  }

  /** What the peer is told: "unsupported_version" for its version, "bad_identity" for its key or
      ID, "bad_signature" for its answer, and nothing when reading or writing failed. */
  lemma RefusalCodes(env: Env, e: ServerError)
    ensures Refusal(env, e) ==
              if e.WrongVersion? then Some(Failure(Ascii("unsupported_version"), env.explain(e)))
              else if e.BadKey? || e.WrongId? then Some(Failure(Ascii("bad_identity"), env.explain(e)))
              else if e.BadSigText? || e.BadSignature? then Some(Failure(Ascii("bad_signature"), env.explain(e)))
              else None
  {
    hide Ascii;
    CodesInWords();
  }

  predicate Signs(env: Env, m: Message, sig: Bytes, peer: PeerInfo, nonce: Bytes, key: Bytes) {
    m.Auth? && env.decode(m.sig) == Some(sig) && env.verify(peer.pubKey, SignedBytes(nonce, key), sig)
  }

  /** The answer to a challenge is accepted exactly when it is a signature that verifies under the
      peer's key over this nonce and this server. */
  lemma ClosingIff(env: Env, s: Bytes, peer: PeerInfo, nonce: Bytes, key: Bytes, r: PeerInfo)
    requires EnvOk(env)
    ensures Closing(env, s, peer, nonce, key) == Ok(r) <==>
              && r == peer
              && exists m, sig, rest ::
                   && FirstMessage(env.json, s, [97, 117, 116, 104]) == Ok((m, rest))
                   && Signs(env, m, sig, peer, nonce, key)
    ensures var first := FirstMessage(env.json, s, [97, 117, 116, 104]);
            first.Ok? && first.value.0.Auth? ==>
              var sig := env.decode(first.value.0.sig);
              if sig.None? then Closing(env, s, peer, nonce, key) == Err(BadSigText)
              else !env.verify(peer.pubKey, SignedBytes(nonce, key), sig.value) ==>
                     Closing(env, s, peer, nonce, key) == Err(BadSignature)
  {
    assert AuthInput(nonce, key) == SignedBytes(nonce, key);
    if FirstMessage(env.json, s, TYPE_AUTH).Ok? {
      FirstIsProper(env.json, s, TYPE_AUTH);
      var m := FirstMessage(env.json, s, TYPE_AUTH).value.0;
      if Closing(env, s, peer, nonce, key) == Ok(r) {
        assert Signs(env, m, env.decode(m.sig).value, peer, nonce, key);
      }
    }
  }

  function ChallengeOf(env: Env, nonce: Bytes, key: Bytes): Message {
    Challenge(env.encode(nonce), env.encode(key))
  }

  /** What success proves: an ID that is that of the key, and a signature that verifies under the
      key, over this nonce and this server. */
  ghost predicate Proven(env: Env, peer: PeerInfo, nonce: Bytes, key: Bytes)
    requires EnvOk(env)
  {
    && |peer.pubKey| == 32 && peer.peerId == I.PeerId(env.sha, peer.pubKey)
    && exists sig :: env.verify(peer.pubKey, SignedBytes(nonce, key), sig)
  }

  lemma ClosedIsProven(env: Env, s: Bytes, nonce: Bytes, key: Bytes)
    requires EnvOk(env)
    ensures var opening := Opening(env, s);
            opening.Ok? && Closing(env, opening.value.1, opening.value.0, nonce, key).Ok? ==>
              Proven(env, opening.value.0, nonce, key)
  {
    assert AuthInput(nonce, key) == SignedBytes(nonce, key);
  }

  /** ServerHandshake, with the nonce it draws as a parameter. The challenge goes out only to
      an admitted hello; a refusal is sent as far as it will go and its failure ignored. */
  method ServerHandshake(c: Conn, w: Sink, env: Env, key: Bytes, nonce: Bytes)
      returns (r: Result<PeerInfo, ServerError>)
    requires c.Valid() && EnvOk(env) && |nonce| == NONCE_SIZE
    modifies c`pos, w`written
    ensures c.Valid()
    ensures r.Ok? ==> Proven(env, r.value, nonce, key)
    ensures var opening := Opening(env, c.content[old(c.pos)..]);
            var challenge := Wire(env.json, ChallengeOf(env, nonce, key));
            && (opening.Err? ==>
                  && r == Err(opening.error)
                  && old(w.written) <= w.written <= old(w.written) + RefusalWire(env, opening.error)
                  && (w.sound && !w.closed ==> w.written == old(w.written) + RefusalWire(env, opening.error)))
            && (opening.Ok? ==>
                  && (r == Err(WriteFailed) || r == Closing(env, opening.value.1, opening.value.0, nonce, key))
                  && (r == Err(WriteFailed) ==> old(w.written) <= w.written <= old(w.written) + challenge)
                  && (w.sound && !w.closed && challenge != [] ==> r != Err(WriteFailed))
                  && (r.Ok? ==> w.written == old(w.written) + challenge)
                  && (r.Err? && r.error != WriteFailed ==>
                        && old(w.written) + challenge <= w.written
                        && w.written <= old(w.written) + challenge + RefusalWire(env, r.error)
                        && (w.sound && !w.closed ==>
                              w.written == old(w.written) + challenge + RefusalWire(env, r.error))))
  {
    ClosedIsProven(env, c.content[c.pos..], nonce, key);
    var peer := Admission(c, w, env);
    if peer.Err? {
      return Err(peer.error);
    }
    var sent := WriteFrame(w, env.json, ChallengeOf(env, nonce, key));
    if !sent {
      return Err(WriteFailed);
    }
    r := Settlement(c, w, env, peer.value, nonce, key);
  }

  /** ServerHandshake up to the challenge. */
  method Admission(c: Conn, w: Sink, env: Env) returns (r: Result<PeerInfo, ServerError>)
    requires c.Valid() && EnvOk(env)
    modifies c`pos, w`written
    ensures c.Valid()
    ensures var opening := Opening(env, c.content[old(c.pos)..]);
            && (opening.Err? ==>
                  && r == Err(opening.error)
                  && old(w.written) <= w.written <= old(w.written) + RefusalWire(env, opening.error)
                  && (w.sound && !w.closed ==> w.written == old(w.written) + RefusalWire(env, opening.error)))
            && (opening.Ok? ==>
                  r == Ok(opening.value.0) && c.content[c.pos..] == opening.value.1 && w.written == old(w.written))
  {
    var hello := ReadExpect(c, env.json, TYPE_HELLO);
    if hello.Err? {
      return Err(BadMessage(hello.error));
    }
    var m := hello.value;
    if m.version != VERSION {
      Refuse(w, env, WrongVersion(m.version));
      return Err(WrongVersion(m.version));
    }
    var pub := DecodeKey(env, m.pubKey);
    if pub.None? {
      Refuse(w, env, BadKey);
      return Err(BadKey);
    }
    if !I.VerifyId(env.sha, m.peerId, pub.value) {
      Refuse(w, env, WrongId);
      return Err(WrongId);
    }
    return Ok(PeerInfo(m.peerId, pub.value, m.role, m.agent));
  }

  /** ServerHandshake after the challenge. */
  method Settlement(c: Conn, w: Sink, env: Env, peer: PeerInfo, nonce: Bytes, key: Bytes)
      returns (r: Result<PeerInfo, ServerError>)
    requires c.Valid() && EnvOk(env)
    modifies c`pos, w`written
    ensures c.Valid() && r == Closing(env, c.content[old(c.pos)..], peer, nonce, key)
    ensures r.Ok? ==> w.written == old(w.written)
    ensures r.Err? ==> old(w.written) <= w.written <= old(w.written) + RefusalWire(env, r.error)
    ensures r.Err? && w.sound && !w.closed ==> w.written == old(w.written) + RefusalWire(env, r.error)
  {
    var auth := ReadExpect(c, env.json, TYPE_AUTH);
    if auth.Err? {
      return Err(BadMessage(auth.error));
    }
    var sig := env.decode(auth.value.sig);
    if sig.None? {
      Refuse(w, env, BadSigText);
      return Err(BadSigText);
    }
    if !env.verify(peer.pubKey, AuthInput(nonce, key), sig.value) {
      Refuse(w, env, BadSignature);
      return Err(BadSignature);
    }
    return Ok(peer);
  }

  method Refuse(w: Sink, env: Env, e: ServerError)
    requires Refusal(env, e).Some?
    modifies w`written
    ensures old(w.written) <= w.written <= old(w.written) + RefusalWire(env, e)
    ensures w.sound && !w.closed ==> w.written == old(w.written) + RefusalWire(env, e)
  {
    var ignored := WriteFrame(w, env.json, Refusal(env, e).value);
  }

  // ---------- both together ----------

  /** What both sides need for an exchange: keys and a nonce of the right size, no other key
      pinned, and messages that are not too long to send. */
  ghost predicate Fitting(env: Env, pub: Bytes, role: Bytes, agent: Bytes,
                          key: Bytes, nonce: Bytes, pinned: Option<Bytes>)
    requires EnvOk(env)
  {
    && |pub| == I.PUBLIC_KEY_SIZE && |key| == I.PUBLIC_KEY_SIZE && |nonce| == NONCE_SIZE
    && (pinned.None? || pinned.value == key)
    && Wire(env.json, HelloOf(env, pub, role, agent)) != [] && Wire(env.json, ChallengeOf(env, nonce, key)) != []
    && Wire(env.json, AuthOf(env, pub, nonce, key)) != []
  }

  /** Undisturbed, the exchange succeeds on both sides: the server learns the client's key and
      the ID that belongs to it. */
  lemma HonestExchange(env: Env, pub: Bytes, role: Bytes, agent: Bytes, key: Bytes, nonce: Bytes,
                       pinned: Option<Bytes>, more: Bytes, rest: Bytes)
    requires EnvOk(env) && Fitting(env, pub, role, agent, key, nonce, pinned)
    ensures ClientReads(env, Wire(env.json, ChallengeOf(env, nonce, key)) + more, pinned) == Ok((nonce, key))
    ensures var peer := PeerInfo(I.PeerId(env.sha, pub), pub, role, agent);
            var auth := Wire(env.json, AuthOf(env, pub, nonce, key)) + rest;
            && Opening(env, Wire(env.json, HelloOf(env, pub, role, agent)) + auth) == Ok((peer, auth))
            && Closing(env, auth, peer, nonce, key) == Ok(peer)
  {
    KeyRoundTrip(env, pub);
    KeyRoundTrip(env, key);
    var auth := Wire(env.json, AuthOf(env, pub, nonce, key)) + rest;
    MessageRoundTrip(env.json, ChallengeOf(env, nonce, key), more);
    MessageRoundTrip(env.json, HelloOf(env, pub, role, agent), auth);
    MessageRoundTrip(env.json, AuthOf(env, pub, nonce, key), rest);
    assert env.decode(env.encode(nonce)) == Some(nonce);
    var sig := env.sign(pub, AuthInput(nonce, key));
    assert env.decode(env.encode(sig)) == Some(sig) && env.verify(pub, AuthInput(nonce, key), sig);
  }

  lemma ChallengeAccepted(env: Env, pub: Bytes, role: Bytes, agent: Bytes, key: Bytes, nonce: Bytes,
                          pinned: Option<Bytes>, arrived: Bytes)
    requires EnvOk(env) && Fitting(env, pub, role, agent, key, nonce, pinned)
    requires arrived == Wire(env.json, ChallengeOf(env, nonce, key))
    ensures ClientReads(env, arrived, pinned) == Ok((nonce, key))
  {
    HonestExchange(env, pub, role, agent, key, nonce, pinned, [], []);
    assert arrived == arrived + [];
  }

  /** The client over a write side that does not break. */
  method ClientUndisturbed(env: Env, pub: Bytes, role: Bytes, agent: Bytes, pinned: Option<Bytes>, arrived: Bytes)
      returns (client: Result<(Bytes, Bytes), ClientError>, sent: Bytes)
    requires EnvOk(env) && Wire(env.json, HelloOf(env, pub, role, agent)) != []
    requires var answer := ClientReads(env, arrived, pinned); answer.Ok? ==> AnswerWire(env, pub, answer) != []
    ensures client == ClientReads(env, arrived, pinned)
    ensures sent == Wire(env.json, HelloOf(env, pub, role, agent)) + AnswerWire(env, pub, client)
  {
    var c := new Conn(arrived);
    var w := new Sink(true);
    ghost var hello := Wire(env.json, HelloOf(env, pub, role, agent));
    assert c.content[c.pos..] == arrived && [] + hello == hello;
    client := ClientHandshake(c, w, env, pub, role, agent, pinned);
    sent := w.written;
  }

  method ServerUndisturbed(env: Env, key: Bytes, nonce: Bytes, arrived: Bytes,
                           ghost pub: Bytes, ghost role: Bytes, ghost agent: Bytes)
      returns (server: Result<PeerInfo, ServerError>, sent: Bytes)
    requires EnvOk(env) && Fitting(env, pub, role, agent, key, nonce, None)
    requires arrived == Wire(env.json, HelloOf(env, pub, role, agent)) + Wire(env.json, AuthOf(env, pub, nonce, key))
    ensures server == Ok(PeerInfo(I.PeerId(env.sha, pub), pub, role, agent))
    ensures sent == Wire(env.json, ChallengeOf(env, nonce, key))
  {
    HonestExchange(env, pub, role, agent, key, nonce, None, [], []);
    ghost var auth := Wire(env.json, AuthOf(env, pub, nonce, key));
    assert auth + [] == auth;
    var c := new Conn(arrived);
    var w := new Sink(true);
    assert c.content[0..] == arrived;
    server := ServerHandshake(c, w, env, key, nonce);
    sent := w.written;
  }

  /** The two methods against each other: each reads what the other writes, no write breaks, and
      both succeed. What the client has read is what the server wrote. */
  method Undisturbed(env: Env, pub: Bytes, role: Bytes, agent: Bytes, key: Bytes, nonce: Bytes, pinned: Option<Bytes>)
      returns (client: Result<(Bytes, Bytes), ClientError>, server: Result<PeerInfo, ServerError>,
               toClient: Bytes, toServer: Bytes, fromServer: Bytes)
    requires EnvOk(env) && Fitting(env, pub, role, agent, key, nonce, pinned)
    ensures client == Ok((nonce, key))
    ensures server == Ok(PeerInfo(I.PeerId(env.sha, pub), pub, role, agent))
    ensures toClient == fromServer
  {
    toClient := Wire(env.json, ChallengeOf(env, nonce, key));
    ChallengeAccepted(env, pub, role, agent, key, nonce, pinned, toClient);
    client, toServer := ClientUndisturbed(env, pub, role, agent, pinned, toClient);
    server, fromServer := ServerUndisturbed(env, key, nonce, toServer, pub, role, agent);
  }
}
