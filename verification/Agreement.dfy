/** What a completed handshake proves: any number of client and server runs, on a network that
    may replay, reorder, drop and make up messages (internal/transport/transport.go).

    Every message a run receives is an arbitrary one; nothing ties it to what was sent. Two
    things are asked of the world. A nonce that a server draws has not been seen before, and
    no signature verifies under an honest key unless that key signed those very bytes. */
module Agreement {
  import opened ByteText
  import opened Handshake
  import F = Frames
  import I = Identity

  datatype ClientPhase = Greeting | Answered(nonce: Bytes, server: Bytes, at: nat) | GaveUp

  datatype ClientRun = ClientRun(pub: Bytes, role: Bytes, agent: Bytes, pinned: Option<Bytes>, phase: ClientPhase)

  datatype ServerPhase = Challenged | Done(at: nat) | Refused

  datatype ServerRun = ServerRun(key: Bytes, peer: PeerInfo, nonce: Bytes, started: nat, phase: ServerPhase)

  /** signed holds what honest keys have signed; now counts the steps. */
  datatype World = World(now: nat, clients: seq<ClientRun>, servers: seq<ServerRun>, signed: set<(Bytes, Bytes)>)

  const START: World := World(0, [], [], {})

  datatype Step =
    | Connect(pub: Bytes, role: Bytes, agent: Bytes, pinned: Option<Bytes>)
    | Deliver(client: nat, nonceText: Bytes, serverText: Bytes)
    | Greet(key: Bytes, version: int, peerId: Bytes, keyText: Bytes, role: Bytes, agent: Bytes, nonce: Bytes)
    | Finish(server: nat, sigText: Bytes)
    | SignElsewhere(pub: Bytes, msg: Bytes)

  // ---------- what may happen ----------

  /** No run has drawn or seen this nonce. */
  predicate Fresh(w: World, nonce: Bytes) {
    && (forall i :: 0 <= i < |w.servers| ==> w.servers[i].nonce != nonce)
    && (forall j :: 0 <= j < |w.clients| && w.clients[j].phase.Answered? ==> w.clients[j].phase.nonce != nonce)
  }

  /** A text that verifies under an honest key was signed with it. */
  predicate Unforged(env: Env, honest: set<Bytes>, w: World, pub: Bytes, msg: Bytes, sigText: Bytes) {
    var sig := env.decode(sigText);
    pub in honest && sig.Some? && env.verify(pub, msg, sig.value) ==> (pub, msg) in w.signed
  }

  predicate Possible(env: Env, honest: set<Bytes>, w: World, step: Step) {
    match step
    case Connect(pub, _, _, _) => pub in honest
    case Deliver(client, _, _) => client < |w.clients| && w.clients[client].phase.Greeting?
    case Greet(key, _, _, _, _, _, nonce) => |key| == I.PUBLIC_KEY_SIZE && Fresh(w, nonce)
    case Finish(server, sigText) =>
      && server < |w.servers| && w.servers[server].phase.Challenged?
      && var run := w.servers[server];
         Unforged(env, honest, w, run.peer.pubKey, AuthInput(run.nonce, run.key), sigText)
    case SignElsewhere(pub, msg) => pub in honest && !(DOMAIN <= msg)
  }

  // ---------- what happens ----------

  /** A client gets a challenge; it signs when Answer says so, and not otherwise. */
  function Delivered(env: Env, w: World, j: nat, nonceText: Bytes, serverText: Bytes): World
    requires j < |w.clients|
  {
    var run := w.clients[j];
    match Answer(env, run.pinned, nonceText, serverText)
    case Err(_) => w.(now := w.now + 1, clients := w.clients[j := run.(phase := GaveUp)])
    case Ok((nonce, server)) =>
      w.(now := w.now + 1,
         clients := w.clients[j := run.(phase := Answered(nonce, server, w.now))],
         signed := w.signed + {(run.pub, AuthInput(nonce, server))})
  }

  function Next(env: Env, honest: set<Bytes>, w: World, step: Step): World
    requires EnvOk(env)
  {
    if !Possible(env, honest, w, step) then w else
    match step
    case Connect(pub, role, agent, pinned) =>
      w.(now := w.now + 1, clients := w.clients + [ClientRun(pub, role, agent, pinned, Greeting)])
    case Deliver(client, nonceText, serverText) => Delivered(env, w, client, nonceText, serverText)
    case Greet(key, version, peerId, keyText, role, agent, nonce) =>
      (match Admit(env, version, peerId, keyText)
       case Err(_) => w.(now := w.now + 1)
       case Ok(pub) =>
         var run := ServerRun(key, PeerInfo(peerId, pub, role, agent), nonce, w.now, Challenged);
         w.(now := w.now + 1, servers := w.servers + [run]))
    case Finish(server, sigText) =>
      var run := w.servers[server];
      var phase := if Settle(env, run.peer.pubKey, run.nonce, run.key, sigText).None? then Done(w.now) else Refused;
      w.(now := w.now + 1, servers := w.servers[server := run.(phase := phase)])
    case SignElsewhere(pub, msg) => w.(now := w.now + 1, signed := w.signed + {(pub, msg)})
  }

  function Run(env: Env, honest: set<Bytes>, w: World, steps: seq<Step>): World
    requires EnvOk(env)
    decreases |steps|
  {
    if steps == [] then w else Run(env, honest, Next(env, honest, w, steps[0]), steps[1..])
  }

  // ---------- what every run keeps ----------

  /** Client run j answered nonce for that server. */
  predicate Answers(w: World, j: nat, pub: Bytes, nonce: Bytes, server: Bytes) {
    && j < |w.clients| && w.clients[j].pub == pub && w.clients[j].phase.Answered?
    && w.clients[j].phase.nonce == nonce && w.clients[j].phase.server == server
  }

  /** Server run i completed, and client run j is what it completed with: the client's key,
      this server's key, this nonce, in between, and a client that wanted this server. */
  predicate Agree(w: World, i: nat, j: nat) {
    && i < |w.servers| && w.servers[i].phase.Done?
    && Answers(w, j, w.servers[i].peer.pubKey, w.servers[i].nonce, w.servers[i].key)
    && w.servers[i].started < w.clients[j].phase.at < w.servers[i].phase.at
    && (w.clients[j].pinned.None? || w.clients[j].pinned.value == w.servers[i].key)
  }

  ghost predicate SignedOk(w: World, pub: Bytes, msg: Bytes) {
    DOMAIN <= msg ==>
      exists j, nonce, server :: Answers(w, j, pub, nonce, server) && msg == AuthInput(nonce, server)
  }

  predicate ClientOk(w: World, j: nat)
    requires j < |w.clients|
  {
    var run := w.clients[j];
    run.phase.Answered? ==>
      && run.phase.at < w.now && |run.phase.server| == I.PUBLIC_KEY_SIZE
      && (run.pinned.None? || run.pinned.value == run.phase.server)
      && (forall i :: 0 <= i < |w.servers| && w.servers[i].nonce == run.phase.nonce ==>
            w.servers[i].started < run.phase.at)
  }

  ghost predicate ServerOk(env: Env, honest: set<Bytes>, w: World, i: nat)
    requires EnvOk(env) && i < |w.servers|
  {
    var run := w.servers[i];
    && run.started < w.now && |run.key| == I.PUBLIC_KEY_SIZE
    && I.VerifyId(env.sha, run.peer.peerId, run.peer.pubKey)
    && (forall k :: 0 <= k < |w.servers| && w.servers[k].nonce == run.nonce ==> k == i)
    && (run.phase.Done? && run.peer.pubKey in honest ==> exists j :: Agree(w, i, j))
  }

  ghost predicate Inv(env: Env, honest: set<Bytes>, w: World)
    requires EnvOk(env)
  {
    && (forall e :: e in w.signed ==> SignedOk(w, e.0, e.1))
    && (forall j :: 0 <= j < |w.clients| ==> ClientOk(w, j))
    && (forall i :: 0 <= i < |w.servers| ==> ServerOk(env, honest, w, i))
  }

  /** Answers are never taken back. */
  predicate Grows(v: World, w: World) {
    && v.now <= w.now && |v.clients| <= |w.clients|
    && forall j :: 0 <= j < |v.clients| && v.clients[j].phase.Answered? ==> w.clients[j] == v.clients[j]
  }

  lemma SignedStays(v: World, w: World, pub: Bytes, msg: Bytes)
    requires Grows(v, w) && SignedOk(v, pub, msg)
    ensures SignedOk(w, pub, msg)
  {
    if DOMAIN <= msg {
      var j, nonce, server :| Answers(v, j, pub, nonce, server) && msg == AuthInput(nonce, server);
      assert Answers(w, j, pub, nonce, server);
    }
  }

  lemma AgreeStays(v: World, w: World, i: nat, j: nat)
    requires Grows(v, w) && Agree(v, i, j) && i < |w.servers| && w.servers[i] == v.servers[i]
    ensures Agree(w, i, j)
  {
  }

  lemma ServerStays(env: Env, honest: set<Bytes>, v: World, w: World, i: nat)
    requires EnvOk(env) && Grows(v, w) && i < |v.servers| && ServerOk(env, honest, v, i)
    requires v.servers <= w.servers
    requires forall k :: |v.servers| <= k < |w.servers| ==> w.servers[k].nonce != v.servers[i].nonce
    ensures ServerOk(env, honest, w, i)
  {
    assert w.servers[i] == v.servers[i];
    assert forall k :: 0 <= k < |v.servers| ==> w.servers[k] == v.servers[k];
    if v.servers[i].phase.Done? && v.servers[i].peer.pubKey in honest {
      var j :| Agree(v, i, j);
      AgreeStays(v, w, i, j);
    }
  }

  lemma ConnectKeepsInv(env: Env, honest: set<Bytes>, w: World, run: ClientRun)
    requires EnvOk(env) && Inv(env, honest, w) && run.phase.Greeting?
    ensures Inv(env, honest, w.(now := w.now + 1, clients := w.clients + [run]))
  {
    var v := w.(now := w.now + 1, clients := w.clients + [run]);
    forall e | e in v.signed ensures SignedOk(v, e.0, e.1) { SignedStays(w, v, e.0, e.1); }
    forall j | 0 <= j < |v.clients| ensures ClientOk(v, j) {
      if j < |w.clients| { assert ClientOk(w, j); }
    }
    forall i | 0 <= i < |v.servers| ensures ServerOk(env, honest, v, i) { ServerStays(env, honest, w, v, i); }
  }

  lemma ClientStepKeepsServers(env: Env, honest: set<Bytes>, w: World, v: World)
    requires EnvOk(env) && Inv(env, honest, w) && Grows(w, v) && v.servers == w.servers
    ensures forall i :: 0 <= i < |v.servers| ==> ServerOk(env, honest, v, i)
  {
    forall i | 0 <= i < |v.servers| ensures ServerOk(env, honest, v, i) { ServerStays(env, honest, w, v, i); }
  }

  lemma DeliverKeepsInv(env: Env, honest: set<Bytes>, w: World, j: nat, nonceText: Bytes, serverText: Bytes)
    requires EnvOk(env) && Inv(env, honest, w) && j < |w.clients| && w.clients[j].phase.Greeting?
    ensures Inv(env, honest, Delivered(env, w, j, nonceText, serverText))
  {
    var v := Delivered(env, w, j, nonceText, serverText);
    var answer := Answer(env, w.clients[j].pinned, nonceText, serverText);
    if answer.Ok? {
      AnswerIff(env, w.clients[j].pinned, nonceText, serverText, answer.value.0, answer.value.1);
    }
    forall i | 0 <= i < |w.servers| ensures w.servers[i].started < w.now {
      assert ServerOk(env, honest, w, i);
    }
    forall k | 0 <= k < |v.clients| ensures ClientOk(v, k) { assert ClientOk(w, k); }
    forall e | e in v.signed ensures SignedOk(v, e.0, e.1) {
      if e in w.signed {
        SignedStays(w, v, e.0, e.1);
      } else {
        var nonce, server := v.clients[j].phase.nonce, v.clients[j].phase.server;
        assert Answers(v, j, e.0, nonce, server) && e.1 == AuthInput(nonce, server);
      }
    }
    ClientStepKeepsServers(env, honest, w, v);
  }

  lemma GreetKeepsInv(env: Env, honest: set<Bytes>, w: World, run: ServerRun)
    requires EnvOk(env) && Inv(env, honest, w) && Fresh(w, run.nonce)
    requires |run.key| == I.PUBLIC_KEY_SIZE && I.VerifyId(env.sha, run.peer.peerId, run.peer.pubKey)
    requires run.started == w.now && run.phase.Challenged?
    ensures Inv(env, honest, w.(now := w.now + 1, servers := w.servers + [run]))
  {
    var v := w.(now := w.now + 1, servers := w.servers + [run]);
    forall e | e in v.signed ensures SignedOk(v, e.0, e.1) { SignedStays(w, v, e.0, e.1); }
    forall j | 0 <= j < |v.clients| ensures ClientOk(v, j) { assert ClientOk(w, j); }
    forall i | 0 <= i < |v.servers| ensures ServerOk(env, honest, v, i) {
      if i < |w.servers| { ServerStays(env, honest, w, v, i); }
    }
  }

  /** The signature a server accepts for an honest key was made by a client run for this very
      nonce and server. */
  lemma SignedByClient(env: Env, honest: set<Bytes>, w: World, i: nat) returns (j: nat)
    requires EnvOk(env) && Inv(env, honest, w) && i < |w.servers|
    requires var run := w.servers[i]; (run.peer.pubKey, AuthInput(run.nonce, run.key)) in w.signed
    ensures Answers(w, j, w.servers[i].peer.pubKey, w.servers[i].nonce, w.servers[i].key)
  {
    var run := w.servers[i];
    var msg := AuthInput(run.nonce, run.key);
    assert DOMAIN <= msg && SignedOk(w, run.peer.pubKey, msg);
    var k, nonce, server :| Answers(w, k, run.peer.pubKey, nonce, server) && msg == AuthInput(nonce, server);
    assert ClientOk(w, k) && ServerOk(env, honest, w, i);
    AuthInputInjective(run.nonce, run.key, nonce, server);
    j := k;
  }

  lemma FinishKeepsInv(env: Env, honest: set<Bytes>, w: World, i: nat, phase: ServerPhase)
    requires EnvOk(env) && Inv(env, honest, w) && i < |w.servers| && w.servers[i].phase.Challenged?
    requires phase == Refused || phase == Done(w.now)
    requires var run := w.servers[i];
             phase.Done? && run.peer.pubKey in honest ==>
               (run.peer.pubKey, AuthInput(run.nonce, run.key)) in w.signed
    ensures Inv(env, honest, w.(now := w.now + 1, servers := w.servers[i := w.servers[i].(phase := phase)]))
  {
    var v := w.(now := w.now + 1, servers := w.servers[i := w.servers[i].(phase := phase)]);
    forall e | e in v.signed ensures SignedOk(v, e.0, e.1) { SignedStays(w, v, e.0, e.1); }
    forall j | 0 <= j < |v.clients| ensures ClientOk(v, j) { assert ClientOk(w, j); }
    forall k | 0 <= k < |v.servers| ensures ServerOk(env, honest, v, k) {
      assert ServerOk(env, honest, w, k);
      if v.servers[k].phase.Done? && v.servers[k].peer.pubKey in honest {
        if k == i {
          var j := SignedByClient(env, honest, w, i);
          assert ClientOk(w, j);
          assert Agree(v, i, j);
        } else {
          var j :| Agree(w, k, j);
          AgreeStays(w, v, k, j);
        }
      }
    }
  }

  lemma SignElsewhereKeepsInv(env: Env, honest: set<Bytes>, w: World, pub: Bytes, msg: Bytes)
    requires EnvOk(env) && Inv(env, honest, w) && !(DOMAIN <= msg)
    ensures Inv(env, honest, w.(now := w.now + 1, signed := w.signed + {(pub, msg)}))
  {
    var v := w.(now := w.now + 1, signed := w.signed + {(pub, msg)});
    forall e | e in v.signed ensures SignedOk(v, e.0, e.1) {
      if e in w.signed { SignedStays(w, v, e.0, e.1); }
    }
    forall j | 0 <= j < |v.clients| ensures ClientOk(v, j) { assert ClientOk(w, j); }
    ClientStepKeepsServers(env, honest, w, v);
  }

  lemma TickKeepsInv(env: Env, honest: set<Bytes>, w: World)
    requires EnvOk(env) && Inv(env, honest, w)
    ensures Inv(env, honest, w.(now := w.now + 1))
  {
    var v := w.(now := w.now + 1);
    forall e | e in v.signed ensures SignedOk(v, e.0, e.1) { SignedStays(w, v, e.0, e.1); }
    forall j | 0 <= j < |v.clients| ensures ClientOk(v, j) { assert ClientOk(w, j); }
    ClientStepKeepsServers(env, honest, w, v);
  }

  lemma NextKeepsInv(env: Env, honest: set<Bytes>, w: World, step: Step)
    requires EnvOk(env) && Inv(env, honest, w)
    ensures Inv(env, honest, Next(env, honest, w, step))
  {
    if Possible(env, honest, w, step) {
      match step
      case Connect(pub, role, agent, pinned) =>
        ConnectKeepsInv(env, honest, w, ClientRun(pub, role, agent, pinned, Greeting));
      case Deliver(client, nonceText, serverText) =>
        DeliverKeepsInv(env, honest, w, client, nonceText, serverText);
      case Greet(key, version, peerId, keyText, role, agent, nonce) =>
        TickKeepsInv(env, honest, w);
        var admitted := Admit(env, version, peerId, keyText);
        if admitted.Ok? {
          var peer := PeerInfo(peerId, admitted.value, role, agent);
          GreetKeepsInv(env, honest, w, ServerRun(key, peer, nonce, w.now, Challenged));
        }
      case Finish(server, sigText) =>
        var run := w.servers[server];
        var refusal := Settle(env, run.peer.pubKey, run.nonce, run.key, sigText);
        FinishKeepsInv(env, honest, w, server, if refusal.None? then Done(w.now) else Refused);
      case SignElsewhere(pub, msg) => SignElsewhereKeepsInv(env, honest, w, pub, msg);
    }
  }

  lemma {:induction false} RunKeepsInv(env: Env, honest: set<Bytes>, w: World, steps: seq<Step>)
    requires EnvOk(env) && Inv(env, honest, w)
    ensures Inv(env, honest, Run(env, honest, w, steps))
    decreases |steps|
  {
    if steps != [] {
      NextKeepsInv(env, honest, w, steps[0]);
      RunKeepsInv(env, honest, Next(env, honest, w, steps[0]), steps[1..]);
    }
  }

  // ---------- the theorem ----------

  predicate CompletedHonest(honest: set<Bytes>, w: World, i: nat) {
    i < |w.servers| && w.servers[i].phase.Done? && w.servers[i].peer.pubKey in honest
  }

  ghost function PartnerOf(w: World, i: nat): (j: nat)
    requires exists j: nat :: Agree(w, i, j)
    ensures Agree(w, i, j)
  {
    var j: nat :| Agree(w, i, j); j
  }

  /** Injective agreement: in every run, the server sessions completed for honest keys can be
      matched with client runs, each with its own, that signed for this server and this nonce
      after the challenge was drawn and before the session completed. */
  lemma InjectiveAgreement(env: Env, honest: set<Bytes>, steps: seq<Step>) returns (partner: map<nat, nat>)
    requires EnvOk(env)
    ensures var w := Run(env, honest, START, steps);
            && (forall i: nat :: i in partner <==> CompletedHonest(honest, w, i))
            && (forall i :: i in partner ==> Agree(w, i, partner[i]))
            && (forall i, k :: i in partner && k in partner && partner[i] == partner[k] ==> i == k)
            && (forall i :: i in partner ==> w.servers[i].peer.peerId == I.PeerId(env.sha, w.servers[i].peer.pubKey))
  {
    RunKeepsInv(env, honest, START, steps);
    var w := Run(env, honest, START, steps);
    forall i: nat | CompletedHonest(honest, w, i) ensures exists j: nat :: Agree(w, i, j) {
      assert ServerOk(env, honest, w, i);
    }
    partner := map i: nat | 0 <= i < |w.servers| && CompletedHonest(honest, w, i) :: PartnerOf(w, i);
    forall i, k | i in partner && k in partner && partner[i] == partner[k] ensures i == k {
      assert w.servers[i].nonce == w.servers[k].nonce;
      assert ServerOk(env, honest, w, i);
    }
    forall i | i in partner ensures w.servers[i].peer.peerId == I.PeerId(env.sha, w.servers[i].peer.pubKey) {
      assert ServerOk(env, honest, w, i);
    }
  }

  // ---------- the methods are these steps ----------

  /** A hello that arrives, as a step. */
  function GreetOf(m: F.Message, key: Bytes, nonce: Bytes): Step
    requires m.Hello?
  {
    Greet(key, m.version, m.peerId, m.pubKey, m.role, m.agent, nonce)
  }

  /** What ServerHandshake does up to its challenge is one Greet: a run is added exactly when the
      hello is admitted, for the peer it names. */
  lemma OpeningIsGreet(env: Env, honest: set<Bytes>, w: World, s: Bytes, key: Bytes, nonce: Bytes)
    requires EnvOk(env) && |key| == I.PUBLIC_KEY_SIZE && Fresh(w, nonce)
    requires F.FirstMessage(env.json, s, F.TYPE_HELLO).Ok?
    ensures var m := F.FirstMessage(env.json, s, F.TYPE_HELLO).value.0;
            var opening, v := Opening(env, s), Next(env, honest, w, GreetOf(m, key, nonce));
            v.servers == w.servers + if opening.Err? then [] else
              [ServerRun(key, opening.value.0, nonce, w.now, Challenged)]
  {
  }

  /** And what it does after it is one Finish: the run is done exactly when the handshake
      succeeds. */
  lemma ClosingIsFinish(env: Env, honest: set<Bytes>, w: World, i: nat, s: Bytes)
    requires EnvOk(env) && i < |w.servers| && F.FirstMessage(env.json, s, F.TYPE_AUTH).Ok?
    requires Possible(env, honest, w, Finish(i, F.FirstMessage(env.json, s, F.TYPE_AUTH).value.0.sig))
    ensures var m, run := F.FirstMessage(env.json, s, F.TYPE_AUTH).value.0, w.servers[i];
            var phase := if Closing(env, s, run.peer, run.nonce, run.key).Ok? then Done(w.now) else Refused;
            Next(env, honest, w, Finish(i, m.sig)).servers == w.servers[i := run.(phase := phase)]
  {
  }

  /** What ClientHandshake does with the server's bytes is one Deliver: it signs exactly when
      they hold a challenge it accepts. */
  lemma ClientReadsIsDeliver(env: Env, honest: set<Bytes>, w: World, j: nat, s: Bytes)
    requires EnvOk(env) && j < |w.clients| && w.clients[j].phase.Greeting?
    requires F.FirstMessage(env.json, s, F.TYPE_CHALLENGE).Ok?
    ensures var m, run := F.FirstMessage(env.json, s, F.TYPE_CHALLENGE).value.0, w.clients[j];
            var v, r := Next(env, honest, w, Deliver(j, m.nonce, m.serverPubKey)), ClientReads(env, s, run.pinned);
            && v.clients[j].phase == (if r.Err? then GaveUp else Answered(r.value.0, r.value.1, w.now))
            && v.signed == w.signed + if r.Err? then {} else {(run.pub, AuthInput(r.value.0, r.value.1))}
  {
  }

  predicate Leaves(steps: seq<Step>, i: nat) {
    forall k :: 0 <= k < |steps| ==> !(steps[k].Finish? && steps[k].server == i)
  }

  /** Nothing but its own end touches a server run. */
  lemma {:induction false} RunStays(env: Env, honest: set<Bytes>, w: World, steps: seq<Step>, i: nat)
    requires EnvOk(env) && i < |w.servers| && Leaves(steps, i)
    ensures var v := Run(env, honest, w, steps); i < |v.servers| && v.servers[i] == w.servers[i]
    decreases |steps|
  {
    if steps != [] {
      StepStays(env, honest, w, steps[0], i);
      RunStays(env, honest, Next(env, honest, w, steps[0]), steps[1..], i);
    }
  }

  lemma StepStays(env: Env, honest: set<Bytes>, w: World, step: Step, i: nat)
    requires EnvOk(env) && i < |w.servers|
    requires !(step.Finish? && step.server == i) || !w.servers[i].phase.Challenged?
    ensures var v := Next(env, honest, w, step); i < |v.servers| && v.servers[i] == w.servers[i]
  {
  }

  lemma {:induction false} RunConcat(env: Env, honest: set<Bytes>, w: World, first: seq<Step>, second: seq<Step>)
    requires EnvOk(env)
    ensures Run(env, honest, w, first + second) == Run(env, honest, Run(env, honest, w, first), second)
    decreases |first|
  {
    if first == [] {
      assert first + second == second;
    } else {
      assert (first + second)[1..] == first[1..] + second;
      RunConcat(env, honest, Next(env, honest, w, first[0]), first[1..], second);
    }
  }

  lemma RunOne(env: Env, honest: set<Bytes>, w: World, step: Step)
    requires EnvOk(env)
    ensures Run(env, honest, w, [step]) == Next(env, honest, w, step)
  {
    assert Run(env, honest, Next(env, honest, w, step), []) == Next(env, honest, w, step) && [step][1..] == [];
  }

  /** A ServerHandshake that succeeds, in the midst of everything else, is a Greet and a Finish of
      the machine; so what the theorem says of completed runs holds of it. */
  lemma CompletedHandshakeIsRun(env: Env, honest: set<Bytes>, before: seq<Step>, between: seq<Step>,
                                s: Bytes, key: Bytes, nonce: Bytes)
      returns (steps: seq<Step>, i: nat)
    requires EnvOk(env) && |key| == I.PUBLIC_KEY_SIZE && Fresh(Run(env, honest, START, before), nonce)
    requires Opening(env, s).Ok? && Leaves(between, |Run(env, honest, START, before).servers|)
    requires var (peer, rest) := Opening(env, s).value;
             && Closing(env, rest, peer, nonce, key).Ok?
             && var m := F.FirstMessage(env.json, s, F.TYPE_HELLO).value.0;
                var w := Next(env, honest, Run(env, honest, START, before), GreetOf(m, key, nonce));
                Unforged(env, honest, Run(env, honest, w, between), peer.pubKey, AuthInput(nonce, key),
                         F.FirstMessage(env.json, rest, F.TYPE_AUTH).value.0.sig)
    ensures var w, peer := Run(env, honest, START, steps), Opening(env, s).value.0;
            && i < |w.servers| && w.servers[i].phase.Done? && w.servers[i].peer == peer
            && w.servers[i].key == key && w.servers[i].nonce == nonce
            && (peer.pubKey in honest ==> exists j: nat :: Agree(w, i, j))
  {
    var u := Run(env, honest, START, before);
    var (peer, rest) := Opening(env, s).value;
    var greet := GreetOf(F.FirstMessage(env.json, s, F.TYPE_HELLO).value.0, key, nonce);
    i := |u.servers|;
    OpeningIsGreet(env, honest, u, s, key, nonce);
    var v := Next(env, honest, u, greet);
    RunStays(env, honest, v, between, i);
    var x := Run(env, honest, v, between);
    var finish := Finish(i, F.FirstMessage(env.json, rest, F.TYPE_AUTH).value.0.sig);
    ClosingIsFinish(env, honest, x, i, rest);
    steps := before + ([greet] + (between + [finish]));
    RunThrough(env, honest, before, greet, between, finish);
    RunKeepsInv(env, honest, START, steps);
    assert ServerOk(env, honest, Run(env, honest, START, steps), i);
  }

  lemma RunThrough(env: Env, honest: set<Bytes>, before: seq<Step>, greet: Step, between: seq<Step>, finish: Step)
    requires EnvOk(env)
    ensures var v := Next(env, honest, Run(env, honest, START, before), greet);
            Run(env, honest, START, before + ([greet] + (between + [finish]))) ==
              Next(env, honest, Run(env, honest, v, between), finish)
  {
    var u := Run(env, honest, START, before);
    var v := Next(env, honest, u, greet);
    RunConcat(env, honest, START, before, [greet] + (between + [finish]));
    RunConcat(env, honest, u, [greet], between + [finish]);
    RunOne(env, honest, u, greet);
    RunConcat(env, honest, v, between, [finish]);
    RunOne(env, honest, Run(env, honest, v, between), finish);
  }

  /** The run of one client and one server. The client comes with one role; the hello that
      reaches the server may tell another, for nobody has signed it. */
  lemma TwoPartyRun(env: Env, honest: set<Bytes>, pub: Bytes, key: Bytes, nonce: Bytes, role: Bytes, told: Bytes,
                    agent: Bytes)
      returns (steps: seq<Step>)
    requires EnvOk(env) && pub in honest
    requires |pub| == I.PUBLIC_KEY_SIZE && |key| == I.PUBLIC_KEY_SIZE && |nonce| == NONCE_SIZE
    ensures var w := Run(env, honest, START, steps);
            && Agree(w, 0, 0) && |w.servers| == 1 && w.clients[0].role == role && w.servers[0].key == key
            && w.servers[0].peer == PeerInfo(I.PeerId(env.sha, pub), pub, told, agent)
  {
    var connect := Connect(pub, role, agent, Some(key));
    var greet := Greet(key, VERSION, I.PeerId(env.sha, pub), env.encode(pub), told, agent, nonce);
    var deliver := Deliver(0, env.encode(nonce), env.encode(key));
    var sig := env.sign(pub, AuthInput(nonce, key));
    var finish := Finish(0, env.encode(sig));
    KeyRoundTrip(env, pub);
    KeyRoundTrip(env, key);
    assert env.decode(env.encode(nonce)) == Some(nonce) && env.decode(env.encode(sig)) == Some(sig);
    assert env.verify(pub, AuthInput(nonce, key), sig);
    var peer := PeerInfo(I.PeerId(env.sha, pub), pub, told, agent);
    var a := World(1, [ClientRun(pub, role, agent, Some(key), Greeting)], [], {});
    var b := World(2, a.clients, [ServerRun(key, peer, nonce, 1, Challenged)], {});
    var c := World(3, [ClientRun(pub, role, agent, Some(key), Answered(nonce, key, 2))], b.servers,
                   {(pub, AuthInput(nonce, key))});
    var d := World(4, c.clients, [ServerRun(key, peer, nonce, 1, Done(3))], c.signed);
    assert Next(env, honest, START, connect) == a;
    assert Next(env, honest, a, greet) == b;
    assert Next(env, honest, b, deliver) == c;
    assert Next(env, honest, c, finish) == d;
    steps := [connect, greet, deliver, finish];
    RunFour(env, honest, START, connect, greet, deliver, finish);
  }

  /** What the exchange does not promise: the role. Both sides complete and agree, the client as
      one role, and the server has it down as another. */
  lemma RoleIsNotCovered(env: Env, pub: Bytes, key: Bytes, nonce: Bytes, role: Bytes, other: Bytes, agent: Bytes)
      returns (steps: seq<Step>)
    requires EnvOk(env) && |pub| == I.PUBLIC_KEY_SIZE && |key| == I.PUBLIC_KEY_SIZE && |nonce| == NONCE_SIZE
    requires role != other
    ensures var w := Run(env, {pub}, START, steps);
            Agree(w, 0, 0) && w.clients[0].role == role && w.servers[0].peer.role == other
  {
    steps := TwoPartyRun(env, {pub}, pub, key, nonce, role, other, agent);
  }

  lemma RunFour(env: Env, honest: set<Bytes>, w: World, a: Step, b: Step, c: Step, d: Step)
    requires EnvOk(env)
    ensures var x := Next(env, honest, Next(env, honest, w, a), b);
            Run(env, honest, w, [a, b, c, d]) == Next(env, honest, Next(env, honest, x, c), d)
  {
    var x := Next(env, honest, w, a);
    var y := Next(env, honest, x, b);
    var z := Next(env, honest, y, c);
    assert [a, b, c, d][1..] == [b, c, d] && [b, c, d][1..] == [c, d] && [c, d][1..] == [d] && [d][1..] == [];
    assert Run(env, honest, w, [a, b, c, d]) == Run(env, honest, x, [b, c, d]);
    assert Run(env, honest, x, [b, c, d]) == Run(env, honest, y, [c, d]);
    assert Run(env, honest, y, [c, d]) == Run(env, honest, z, [d]);
    assert Run(env, honest, z, [d]) == Run(env, honest, Next(env, honest, z, d), []);
  }
}
