/** The agent's edge tunnels (internal/agent/agent.go, lines 328-363 and 415-463): which ones run
    as the gateway's edge lists change, and that each one is stopped once. */
module Reconcile {
  import opened ByteText

  datatype EdgeInfo = EdgeInfo(edgeId: Bytes, pubKey: Bytes, addr: Bytes)

  /** A tunnel's context: how often its cancel function was called, and how many supervisors
      were started under it. */
  datatype Context = Context(info: EdgeInfo, cancels: nat, supervisors: nat)

  function Ids(list: seq<EdgeInfo>): set<Bytes> { set e | e in list :: e.edgeId }

  predicate LastAt(list: seq<EdgeInfo>, info: EdgeInfo, k: int) {
    && 0 <= k < |list| && list[k] == info
    && forall j :: k < j < |list| ==> list[j].edgeId != info.edgeId
  }

  /** The last entry of the list for its edge. */
  ghost predicate LastEntry(list: seq<EdgeInfo>, info: EdgeInfo) {
    exists k :: LastAt(list, info, k)
  }

  lemma LastEntryStays(list: seq<EdgeInfo>, e: EdgeInfo, info: EdgeInfo)
    requires LastEntry(list, info) && e.edgeId != info.edgeId
    ensures LastEntry(list + [e], info)
  {
    var k :| LastAt(list, info, k);
    assert LastAt(list + [e], info, k);
  }

  /** The map reconcileEdges builds: when an edge is listed twice, the later entry counts. */
  method WantedEdges(list: seq<EdgeInfo>) returns (wanted: map<Bytes, EdgeInfo>)
    ensures wanted.Keys == Ids(list)
    ensures forall id :: id in wanted ==> wanted[id].edgeId == id && LastEntry(list, wanted[id])
  {
    wanted := map[];
    for i := 0 to |list|
      invariant wanted.Keys == Ids(list[..i])
      invariant forall id :: id in wanted ==> wanted[id].edgeId == id && LastEntry(list[..i], wanted[id])
    {
      var e := list[i];
      assert list[..i + 1] == list[..i] + [e];
      forall id | id in wanted && id != e.edgeId ensures LastEntry(list[..i + 1], wanted[id]) {
        LastEntryStays(list[..i], e, wanted[id]);
      }
      assert LastAt(list[..i + 1], e, i);
      wanted := wanted[e.edgeId := e];
    }
    assert list[..|list|] == list;
  }

  // ---------- what is conserved ----------

  /** Which context is the active one of each edge, and every context there ever was. */
  predicate InRange(active: map<Bytes, nat>, contexts: seq<Context>) {
    forall id :: id in active ==> active[id] < |contexts| && contexts[active[id]].info.edgeId == id
  }

  predicate IsActive(active: map<Bytes, nat>, contexts: seq<Context>, c: nat)
    requires c < |contexts|
  {
    var id := contexts[c].info.edgeId;
    id in active && active[id] == c
  }

  /** Every context is the active one of its edge and not cancelled, or is not active and was
      cancelled exactly once. */
  predicate Conserved(active: map<Bytes, nat>, contexts: seq<Context>) {
    && InRange(active, contexts)
    && forall c :: 0 <= c < |contexts| ==> contexts[c].cancels == if IsActive(active, contexts, c) then 0 else 1
  }

  function Cancelled(c: Context): Context { c.(cancels := c.cancels + 1) }

  lemma StopConserves(active: map<Bytes, nat>, contexts: seq<Context>, id: Bytes)
    requires Conserved(active, contexts) && id in active
    ensures Conserved(active - {id}, contexts[active[id] := Cancelled(contexts[active[id]])])
  {
    var after := contexts[active[id] := Cancelled(contexts[active[id]])];
    forall c | 0 <= c < |after| ensures after[c].cancels == if IsActive(active - {id}, after, c) then 0 else 1 {
      assert contexts[c].cancels == if IsActive(active, contexts, c) then 0 else 1;
    }
  }

  lemma StartConserves(active: map<Bytes, nat>, contexts: seq<Context>, info: EdgeInfo)
    requires Conserved(active, contexts) && info.edgeId !in active
    ensures Conserved(active[info.edgeId := |contexts|], contexts + [Context(info, 0, 0)])
  {
    var next, after := active[info.edgeId := |contexts|], contexts + [Context(info, 0, 0)];
    forall c | 0 <= c < |after| ensures after[c].cancels == if IsActive(next, after, c) then 0 else 1 {
      if c < |contexts| {
        assert contexts[c].cancels == if IsActive(active, contexts, c) then 0 else 1;
      }
    }
  }

  /** The old contexts are all still there, under the same entries and supervisors. */
  predicate Extends(before: seq<Context>, after: seq<Context>) {
    && |before| <= |after|
    && forall c :: 0 <= c < |before| ==>
         after[c].info == before[c].info && after[c].supervisors == before[c].supervisors
  }

  /** How far the second loop has come: the wanted edges outside todo have a context, the
      active one; the new contexts are for edges that had none. */
  ghost predicate Starting(was: map<Bytes, nat>, before: seq<Context>, wanted: map<Bytes, EdgeInfo>, todo: set<Bytes>,
                           active: map<Bytes, nat>, contexts: seq<Context>) {
    && Conserved(active, contexts) && before <= contexts
    && active.Keys == was.Keys + (wanted.Keys - todo)
    && (forall id :: id in was ==> active[id] == was[id])
    && (forall c :: |before| <= c < |contexts| ==> NewFor(was, wanted, active, c, contexts[c]))
  }

  predicate NewFor(was: map<Bytes, nat>, wanted: map<Bytes, EdgeInfo>, active: map<Bytes, nat>, c: int, ctx: Context) {
    var id := ctx.info.edgeId;
    && ctx.supervisors == 0 && id !in was
    && id in wanted && ctx.info == wanted[id] && id in active && active[id] == c
  }

  lemma StartStep(was: map<Bytes, nat>, before: seq<Context>, wanted: map<Bytes, EdgeInfo>, todo: set<Bytes>,
                  active: map<Bytes, nat>, contexts: seq<Context>, id: Bytes)
    requires Starting(was, before, wanted, todo, active, contexts)
    requires id in wanted && id in todo && id !in active && wanted[id].edgeId == id
    ensures Starting(was, before, wanted, todo - {id}, active[id := |contexts|], contexts + [Context(wanted[id], 0, 0)])
  {
    StartConserves(active, contexts, wanted[id]);
    var next, after := active[id := |contexts|], contexts + [Context(wanted[id], 0, 0)];
    forall c | |before| <= c < |after| ensures NewFor(was, wanted, next, c, after[c]) {
      if c < |contexts| {
        assert NewFor(was, wanted, active, c, contexts[c]);
      }
    }
    assert next.Keys == active.Keys + {id};
  }

  lemma StartSkip(was: map<Bytes, nat>, before: seq<Context>, wanted: map<Bytes, EdgeInfo>, todo: set<Bytes>,
                  active: map<Bytes, nat>, contexts: seq<Context>, id: Bytes)
    requires Starting(was, before, wanted, todo, active, contexts)
    requires id in wanted && id in active
    ensures Starting(was, before, wanted, todo - {id}, active, contexts)
  {
  }

  /** How far the first loop has come. */
  ghost predicate Stopping(was: map<Bytes, nat>, before: seq<Context>, wanted: set<Bytes>, todo: set<Bytes>,
                           active: map<Bytes, nat>, contexts: seq<Context>) {
    && Conserved(active, contexts) && Extends(before, contexts) && |contexts| == |before|
    && todo <= active.Keys <= was.Keys
    && (forall id :: id in active ==> active[id] == was[id])
    && (forall id :: id in was && id !in todo ==> (id in active <==> id in wanted))
  }

  lemma StopBegins(active: map<Bytes, nat>, contexts: seq<Context>, wanted: set<Bytes>)
    requires Conserved(active, contexts)
    ensures Stopping(active, contexts, wanted, active.Keys, active, contexts)
  {
  }

  lemma StopStep(was: map<Bytes, nat>, before: seq<Context>, wanted: set<Bytes>, todo: set<Bytes>,
                 active: map<Bytes, nat>, contexts: seq<Context>, id: Bytes)
    requires Stopping(was, before, wanted, todo, active, contexts) && id in todo && id !in wanted
    ensures active[id] < |contexts|
    ensures Stopping(was, before, wanted, todo - {id}, active - {id},
                     contexts[active[id] := Cancelled(contexts[active[id]])])
  {
    StopConserves(active, contexts, id);
  }

  class Tunnels {
    var active: map<Bytes, nat>
    var contexts: seq<Context>

    /** Conservation, and one supervisor for each context. */
    ghost predicate Valid()
      reads this
    {
      Conserved(active, contexts) && forall c :: 0 <= c < |contexts| ==> contexts[c].supervisors == 1
    }

    constructor ()
      ensures Valid() && active == map[] && contexts == []
    {
      active, contexts := map[], [];
    }

    /** The first loop of reconcileEdges, and all of stopAllEdges: tunnels to edges that are
        not wanted are stopped. */
    method StopOthers(wanted: set<Bytes>)
      requires Conserved(active, contexts)
      modifies this
      ensures Conserved(active, contexts) && Extends(old(contexts), contexts) && |contexts| == |old(contexts)|
      ensures active == map id | id in old(active) && id in wanted :: old(active)[id]
    {
      hide Conserved, Extends;
      StopBegins(active, contexts, wanted);
      var todo := active.Keys;
      while todo != {}
        invariant Stopping(old(active), old(contexts), wanted, todo, active, contexts)
        decreases |todo|
      {
        var id :| id in todo;
        if id !in wanted {
          StopStep(old(active), old(contexts), wanted, todo, active, contexts, id);
          var c := active[id];
          contexts := contexts[c := Cancelled(contexts[c])];
          active := active - {id};
        }
        todo := todo - {id};
      }
    }

    /** The second loop: wanted edges without a tunnel get a context. */
    method StartMissing(wanted: map<Bytes, EdgeInfo>)
      requires Conserved(active, contexts) && active.Keys <= wanted.Keys
      requires forall id :: id in wanted ==> wanted[id].edgeId == id
      modifies this
      ensures Conserved(active, contexts) && active.Keys == wanted.Keys
      ensures Starting(old(active), old(contexts), wanted, {}, active, contexts)
    {
      hide Conserved, NewFor;
      var todo := wanted.Keys;
      while todo != {}
        invariant todo <= wanted.Keys && Starting(old(active), old(contexts), wanted, todo, active, contexts)
        decreases |todo|
      {
        var id :| id in todo;
        if id in active {
          StartSkip(old(active), old(contexts), wanted, todo, active, contexts, id);
        } else {
          StartStep(old(active), old(contexts), wanted, todo, active, contexts, id);
          contexts := contexts + [Context(wanted[id], 0, 0)];
          active := active[id := |contexts| - 1];
        }
        todo := todo - {id};
      }
    }

    /** The third loop: a supervisor for each of the new contexts. */
    method Supervise(from: nat)
      requires Conserved(active, contexts) && from <= |contexts|
      modifies `contexts
      ensures Conserved(active, contexts) && |contexts| == |old(contexts)|
      ensures forall c :: 0 <= c < |contexts| ==>
                contexts[c] == if c < from then old(contexts)[c]
                               else old(contexts)[c].(supervisors := old(contexts)[c].supervisors + 1)
    {
      for i := from to |contexts|
        invariant |contexts| == |old(contexts)|
        invariant forall c :: 0 <= c < |contexts| ==>
                    contexts[c] == if c < from || c >= i then old(contexts)[c]
                                   else old(contexts)[c].(supervisors := old(contexts)[c].supervisors + 1)
      {
        contexts := contexts[i := contexts[i].(supervisors := contexts[i].supervisors + 1)];
      }
    }

    /** reconcileEdges. The active tunnels are those of the list. One that was running is left
        alone, even when the list has a new address for it; a new one has the last entry for
        its edge, and only an edge that had no tunnel gets one. */
    method Reconcile(list: seq<EdgeInfo>)
      requires Valid()
      modifies this
      ensures Valid() && active.Keys == Ids(list) && Extends(old(contexts), contexts)
      ensures forall id :: id in old(active) && id in active ==> active[id] == old(active)[id]
      ensures forall c :: |old(contexts)| <= c < |contexts| ==>
                LastEntry(list, contexts[c].info) && contexts[c].info.edgeId !in old(active)
    {
      var wanted := WantedEdges(list);
      StopOthers(wanted.Keys);
      var from := |contexts|;
      StartMissing(wanted);
      Supervise(from);
    }

    /** stopAllEdges: nothing stays active, and every context has been cancelled, once. */
    method StopAll()
      requires Valid()
      modifies this
      ensures Valid() && active == map[] && |contexts| == |old(contexts)| && Extends(old(contexts), contexts)
      ensures forall c :: 0 <= c < |contexts| ==> contexts[c].cancels == 1
    {
      StopOthers({});
    }

    /** A gateway session, as far as edges go: the list of the welcome, each list that is
        pushed, and the stop when the session ends. */
    method Session(lists: seq<seq<EdgeInfo>>)
      requires Valid()
      modifies this
      ensures Valid() && active == map[] && Extends(old(contexts), contexts)
      ensures forall c :: 0 <= c < |contexts| ==> contexts[c].cancels == 1 && contexts[c].supervisors == 1
    {
      for i := 0 to |lists|
        invariant Valid() && Extends(old(contexts), contexts)
        invariant i > 0 ==> active.Keys == Ids(lists[i - 1])
      {
        Reconcile(lists[i]);
      }
      StopAll();
    }
  }
}
