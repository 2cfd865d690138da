/** Agent sessions at a gateway (internal/gateway/gateway.go, lines 217-265): one live session a
    peer, the newest one, and a closed channel for the one it replaces. */
module Gateway {
  import opened ByteText

  // ---------- the state machine ----------

  /** closes counts how often the done channel was closed; closing twice is a panic. */
  datatype Sess = Sess(peerId: Bytes, closes: nat, ended: bool)

  datatype Net = Net(agents: map<Bytes, nat>, sessions: seq<Sess>)

  const START: Net := Net(map[], [])

  predicate InRange(n: Net) { forall p :: p in n.agents ==> n.agents[p] < |n.sessions| }

  /** A session begins, or the goroutine of a session ends: because its connection broke,
      because its welcome could not be written, or because it was told that it is superseded. */
  datatype Step = Register(peerId: Bytes) | End(session: nat)

  /** The peer's session, if it has one, is told to go. */
  function Told(n: Net, peerId: Bytes): Net
    requires InRange(n)
  {
    if peerId in n.agents
    then
      var k := n.agents[peerId];
      var s := n.sessions[k];
      n.(sessions := n.sessions[k := s.(closes := s.closes + 1)])
    else n
  }

  function Entered(n: Net, peerId: Bytes): Net {
    Net(n.agents[peerId := |n.sessions|], n.sessions + [Sess(peerId, 0, false)])
  }

  function Next(n: Net, step: Step): Net
    requires InRange(n)
  {
    match step
    case Register(peerId) => Entered(Told(n, peerId), peerId)
    case End(i) =>
      if i >= |n.sessions| || n.sessions[i].ended then n
      else
        var s := n.sessions[i];
        var agents := if s.peerId in n.agents && n.agents[s.peerId] == i then n.agents - {s.peerId} else n.agents;
        Net(agents, n.sessions[i := s.(ended := true)])
  }

  /** Session i is the last one the peer has registered. */
  predicate Latest(n: Net, p: Bytes, i: nat) {
    && i < |n.sessions| && n.sessions[i].peerId == p
    && forall k :: i < k < |n.sessions| ==> n.sessions[k].peerId != p
  }

  /** The map holds a peer's latest session exactly while that session has not ended. */
  ghost predicate HoldsLatest(n: Net, p: Bytes) {
    && (p in n.agents ==> Latest(n, p, n.agents[p]) && !n.sessions[n.agents[p]].ended)
    && (p !in n.agents ==> forall i: nat :: Latest(n, p, i) ==> n.sessions[i].ended)
  }

  /** A done channel is closed at most once, and only when a later session of the same peer
      took over; while the map leads to it, it is open. */
  predicate ChannelOk(n: Net, i: nat)
    requires i < |n.sessions|
  {
    var s := n.sessions[i];
    && s.closes <= 1
    && (s.closes == 1 ==> exists k :: i < k < |n.sessions| && n.sessions[k].peerId == s.peerId)
    && (s.closes == 0 && !s.ended ==> s.peerId in n.agents && n.agents[s.peerId] == i)
    && (s.peerId in n.agents && n.agents[s.peerId] == i ==> s.closes == 0)
  }

  ghost predicate Inv(n: Net) {
    && InRange(n)
    && (forall p :: HoldsLatest(n, p))
    && (forall i :: 0 <= i < |n.sessions| ==> ChannelOk(n, i))
  }

  lemma RegisterKeepsInv(n: Net, peerId: Bytes)
    requires Inv(n)
    ensures Inv(Next(n, Register(peerId)))
  {
    var m := Next(n, Register(peerId));
    var last := |n.sessions|;
    assert forall i :: 0 <= i < last ==>
             m.sessions[i].peerId == n.sessions[i].peerId && m.sessions[i].ended == n.sessions[i].ended;
    assert HoldsLatest(n, peerId);
    forall p ensures HoldsLatest(m, p) {
      assert HoldsLatest(n, p);
      forall i: nat | p != peerId && Latest(m, p, i) ensures Latest(n, p, i) {
        assert forall k :: i < k < last ==> m.sessions[k].peerId != p;
      }
    }
    forall i | 0 <= i < |m.sessions| ensures ChannelOk(m, i) {
      if i < last {
        assert ChannelOk(n, i);
        assert m.sessions[last].peerId == peerId;
        if m.sessions[i].closes == 1 && n.sessions[i].closes == 1 {
          var k :| i < k < |n.sessions| && n.sessions[k].peerId == n.sessions[i].peerId;
          assert m.sessions[k].peerId == m.sessions[i].peerId;
        }
      }
    }
  }

  lemma EndKeepsInv(n: Net, e: nat)
    requires Inv(n)
    ensures Inv(Next(n, End(e)))
  {
    var m := Next(n, End(e));
    assert |m.sessions| == |n.sessions|;
    assert forall i :: 0 <= i < |n.sessions| ==>
             m.sessions[i].peerId == n.sessions[i].peerId && m.sessions[i].closes == n.sessions[i].closes;
    forall p ensures HoldsLatest(m, p) {
      assert HoldsLatest(n, p);
      forall i: nat | Latest(m, p, i) ensures Latest(n, p, i) {
        assert forall k :: i < k < |n.sessions| ==> m.sessions[k].peerId != p;
      }
    }
    forall i | 0 <= i < |m.sessions| ensures ChannelOk(m, i) {
      assert ChannelOk(n, i);
      if m.sessions[i].closes == 1 {
        var k :| i < k < |n.sessions| && n.sessions[k].peerId == n.sessions[i].peerId;
        assert m.sessions[k].peerId == m.sessions[i].peerId;
      }
    }
  }

  function Run(steps: seq<Step>): (n: Net)
    ensures InRange(n)
    decreases |steps|
  {
    if steps == [] then START else Next(Run(steps[..|steps| - 1]), steps[|steps| - 1])
  }

  lemma {:induction false} RunKeepsInv(steps: seq<Step>)
    ensures Inv(Run(steps))
    decreases |steps|
  {
    if steps != [] {
      var init := steps[..|steps| - 1];
      RunKeepsInv(init);
      match steps[|steps| - 1]
      case Register(peerId) => RegisterKeepsInv(Run(init), peerId);
      case End(i) => EndKeepsInv(Run(init), i);
    }
  }

  /** Over every interleaving of sessions beginning and ending: no done channel is closed
      twice, the one a peer's entry leads to is open, and the entry is the peer's latest
      session until that has ended. A session still running has its entry or has been told. */
  lemma SessionsReplaced(steps: seq<Step>, p: Bytes, i: nat)
    ensures var n := Run(steps);
            && (Latest(n, p, i) ==> (p in n.agents && n.agents[p] == i <==> !n.sessions[i].ended))
            && (p in n.agents ==>
                  && n.agents[p] < |n.sessions| && Latest(n, p, n.agents[p])
                  && n.sessions[n.agents[p]].closes == 0)
            && (i < |n.sessions| ==> n.sessions[i].closes <= 1)
            && (i < |n.sessions| && !n.sessions[i].ended && !Latest(n, n.sessions[i].peerId, i) ==>
                  n.sessions[i].closes == 1)
  {
    RunKeepsInv(steps);
    var n := Run(steps);
    assert HoldsLatest(n, p);
    if i < |n.sessions| {
      assert ChannelOk(n, i) && HoldsLatest(n, n.sessions[i].peerId);
    }
    if p in n.agents {
      assert ChannelOk(n, n.agents[p]);
    }
  }

  lemma MappedIsOpen(steps: seq<Step>, p: Bytes)
    ensures var n := Run(steps); p in n.agents ==> n.sessions[n.agents[p]].closes == 0
  {
    RunKeepsInv(steps);
    var n := Run(steps);
    assert HoldsLatest(n, p);
    if p in n.agents {
      assert ChannelOk(n, n.agents[p]);
    }
  }

  lemma RunOneMore(steps: seq<Step>, step: Step)
    ensures Run(steps + [step]) == Next(Run(steps), step)
  {
    assert (steps + [step])[..|steps|] == steps;
  }

  // ---------- the server ----------

  class Session {
    const peerId: Bytes
    /** The done channel is closed. */
    var done: bool

    constructor (peerId: Bytes)
      ensures this.peerId == peerId && !done
    {
      this.peerId, done := peerId, false;
    }

    /** close(done): Go panics when it is closed already. */
    method CloseDone()
      requires !done
      modifies this
      ensures done
    {
      done := true;
    }
  }

  class Server {
    var agents: map<Bytes, Session>
    /** Every session so far, in order, and what has happened. */
    ghost var registered: seq<Session>
    ghost var steps: seq<Step>

    /** The objects are what the machine says. */
    ghost predicate Matches(n: Net)
      requires InRange(n)
      reads `agents, `registered, registered
    {
      && |registered| == |n.sessions|
      && (forall i, k :: 0 <= i < k < |registered| ==> registered[i] != registered[k])
      && (forall i :: 0 <= i < |registered| ==>
            registered[i].peerId == n.sessions[i].peerId && registered[i].done == (n.sessions[i].closes == 1))
      && agents.Keys == n.agents.Keys
      && (forall p :: p in agents ==> agents[p] == registered[n.agents[p]])
    }

    ghost predicate Valid()
      reads this, registered
    {
      Matches(Run(steps))
    }

    constructor ()
      ensures Valid() && steps == [] && agents == map[]
    {
      agents, registered, steps := map[], [], [];
    }

    /** serveAgent, entering the map: the earlier session of the peer, if it is still there, is
        told to go. */
    method Enter(peerId: Bytes) returns (sess: Session)
      requires Valid()
      modifies this, if peerId in agents then {agents[peerId]} else {}
      ensures Valid() && steps == old(steps) + [Register(peerId)]
      ensures fresh(sess) && registered == old(registered) + [sess] && agents == old(agents)[peerId := sess]
      ensures peerId in old(agents) ==> old(agents)[peerId].done
    {
      hide Run, Told, Entered, InRange;
      ghost var past, n := steps, Run(steps);
      MappedIsOpen(past, peerId);
      RunOneMore(past, Register(peerId));
      sess := Replace(peerId, n);
      steps := past + [Register(peerId)];
    }

    /** The critical section of Enter. */
    method Replace(peerId: Bytes, ghost n: Net) returns (sess: Session)
      requires InRange(n) && Matches(n) && (peerId in n.agents ==> n.sessions[n.agents[peerId]].closes == 0)
      modifies `agents, `registered, if peerId in agents then {agents[peerId]} else {}
      ensures var m := Entered(Told(n, peerId), peerId); InRange(m) && Matches(m)
      ensures fresh(sess) && registered == old(registered) + [sess] && agents == old(agents)[peerId := sess]
      ensures peerId in old(agents) ==> old(agents)[peerId].done
    {
      hide Told, Entered;
      Tell(peerId, n);
      sess := Put(peerId, Told(n, peerId));
    }

    method Put(peerId: Bytes, ghost n: Net) returns (sess: Session)
      requires InRange(n) && Matches(n)
      modifies this`agents, this`registered
      ensures var m := Entered(n, peerId); InRange(m) && Matches(m)
      ensures fresh(sess) && registered == old(registered) + [sess] && agents == old(agents)[peerId := sess]
    {
      sess := new Session(peerId);
      agents := agents[peerId := sess];
      registered := registered + [sess];
    }

    method Tell(peerId: Bytes, ghost n: Net)
      requires InRange(n) && Matches(n) && (peerId in n.agents ==> n.sessions[n.agents[peerId]].closes == 0)
      modifies if peerId in agents then {agents[peerId]} else {}
      ensures InRange(Told(n, peerId)) && Matches(Told(n, peerId))
      ensures peerId in agents ==> agents[peerId].done
    {
      if peerId in agents {
        agents[peerId].CloseDone();
      }
    }

    /** serveAgent, on the way out: the entry goes only if it is still this session's. */
    method Leave(sess: Session, ghost i: nat)
      requires Valid() && i < |registered| && registered[i] == sess && !Run(steps).sessions[i].ended
      modifies this
      ensures Valid() && steps == old(steps) + [End(i)] && registered == old(registered)
      ensures agents == if sess.peerId in old(agents) && old(agents)[sess.peerId] == sess
                        then old(agents) - {sess.peerId} else old(agents)
    {
      hide Run, Next, InRange;
      RunOneMore(steps, End(i));
      Remove(sess, i, Run(steps));
      steps := steps + [End(i)];
    }

    /** The critical section of Leave. */
    method Remove(sess: Session, ghost i: nat, ghost n: Net)
      requires InRange(n) && Matches(n) && i < |registered| && registered[i] == sess && !n.sessions[i].ended
      modifies this`agents
      ensures var m := Next(n, End(i)); InRange(m) && Matches(m)
      ensures agents == if sess.peerId in old(agents) && old(agents)[sess.peerId] == sess
                        then old(agents) - {sess.peerId} else old(agents)
    {
      if sess.peerId in agents && agents[sess.peerId] == sess {
        agents := agents - {sess.peerId};
      }
    }
  }
}
