/** What comparing views achieves: exact answers, completeness when all is quiet, and catch-up. */
module AntiEntropy {
  import opened Prelude
  import opened Gossip
  import opened GossipSystem

  /** The counters of a are ahead of those of b for some origin. */
  ghost predicate Ahead(a: View, b: View) {
    exists o :: o in a && Get(a, o) > Get(b, o)
  }

  // ----- exactness -----

  lemma {:induction false} MissingIsSlice(db: seq<Rumor>, first: nat, lo: nat, hi: nat)
    requires forall i :: 0 <= i < |db| ==> db[i].sequence == first + i + 1
    requires first <= lo <= hi <= first + |db|
    ensures Missing(db, lo + 1, hi) == db[lo - first..hi - first]
  {
    if db != [] {
      if first < lo {
        MissingIsSlice(db[1..], first + 1, lo, hi);
        assert db[1..][lo - first - 1..hi - first - 1] == db[lo - first..hi - first];
      } else if lo < hi {
        MissingIsSlice(db[1..], first + 1, lo + 1, hi);
        MissingSkips(db[1..], lo + 1, hi);
        assert [db[0]] + db[1..][..hi - first - 1] == db[..hi - first];
      } else {
        MissingIsEmpty(db, lo + 1, hi);
      }
    }
  }

  lemma {:induction false} MissingIsEmpty(db: seq<Rumor>, lo: nat, hi: nat)
    requires hi < lo
    ensures Missing(db, lo, hi) == []
  {
    if db != [] { MissingIsEmpty(db[1..], lo, hi); }
  }

  lemma {:induction false} MissingSkips(db: seq<Rumor>, lo: nat, hi: nat)
    requires forall r :: r in db ==> r.sequence > lo
    ensures Missing(db, lo, hi) == Missing(db, lo + 1, hi)
  {
    if db != [] { MissingSkips(db[1..], lo, hi); }
  }

  /** Sequences from + 1, from + 2, ..., to of an origin, as it broadcast them. */
  ghost predicate IsLogSlice(rumors: seq<Rumor>, o: Address, msgs: seq<Message>, from: nat, to: nat) {
    && from <= to <= |msgs| && |rumors| == to - from
    && forall i :: 0 <= i < |rumors| ==> rumors[i] == Rumor(o, from + i + 1, msgs[from + i])
  }

  lemma MissingIsLogSlice(db: seq<Rumor>, o: Address, msgs: seq<Message>, from: nat, to: nat)
    requires IsPrefixOfLog(db, o, msgs) && from <= to <= |db|
    ensures IsLogSlice(Missing(db, from + 1, to), o, msgs, from, to)
  {
    MissingIsSlice(db, 0, from, to);
    var slice := db[from - 0..to - 0];
    assert forall i :: 0 <= i < |slice| ==> slice[i] == db[from + i];
  }

  lemma MissingIsExact(s: NodeState, view: View, logs: Logs, o: Address)
    requires NodeOk(s, logs)
    ensures var missing := Compare(s, view).missing;
      && (o in missing <==> Get(s.receivedSeq, o) > Get(view, o))
      && (o in missing ==> o in logs && IsLogSlice(missing[o], o, logs[o], Get(view, o), Get(s.receivedSeq, o)))
  {
    hide IsLogSlice, Missing;
    assert OriginOk(s, o, logs);
    if Get(s.receivedSeq, o) > Get(view, o) {
      MissingIsLogSlice(Stored(s, o), o, logs[o], Get(view, o), Get(s.receivedSeq, o));
    }
  }

  /** In a sound node the comparison with any view is exact, an absent counter read as 0: the code
      says who is ahead somewhere, and the missing map holds exactly the origins where the local
      node is ahead, each with exactly the sequences the remote lacks, in order. */
  lemma CompareIsExact(s: NodeState, view: View, logs: Logs)
    requires NodeOk(s, logs)
    ensures var c := Compare(s, view);
      && c.code == (if Ahead(view, s.receivedSeq) then (if Ahead(s.receivedSeq, view) then 3 else 1)
                    else (if Ahead(s.receivedSeq, view) then 2 else 4))
      && (c.code == 4 <==> forall o :: Get(s.receivedSeq, o) == Get(view, o))
      && (forall o :: o in c.missing <==> Get(s.receivedSeq, o) > Get(view, o))
      && (forall o :: o in c.missing ==>
            o in logs && IsLogSlice(c.missing[o], o, logs[o], Get(view, o), Get(s.receivedSeq, o)))
  {
    hide NodeOk, IsLogSlice, Missing;
    forall o { MissingIsExact(s, view, logs, o); }
    CodeIsExact(s.receivedSeq, view, Compare(s, view).missing.Keys);
  }

  lemma CodeIsExact(mine: View, view: View, ahead: set<Address>)
    requires forall o :: o in ahead <==> Get(mine, o) > Get(view, o)
    ensures ahead != {} <==> Ahead(mine, view)
    ensures (!Ahead(mine, view) && !Ahead(view, mine)) <==> forall o :: Get(mine, o) == Get(view, o)
  {
    if Ahead(mine, view) {
      var o :| o in mine && Get(mine, o) > Get(view, o);
      assert o in ahead;
    }
    if !Ahead(mine, view) && !Ahead(view, mine) {
      forall o ensures Get(mine, o) == Get(view, o) {}
    }
  }

  /** Run at both ends, the answers pair up: 1 with 2, 3 with 3, 4 with 4. */
  lemma AnswersPair(s: NodeState, t: NodeState, logs: Logs)
    requires NodeOk(s, logs) && NodeOk(t, logs)
    ensures var there, back := Compare(s, t.receivedSeq).code, Compare(t, s.receivedSeq).code;
      (there, back) in {(1, 2), (2, 1), (3, 3), (4, 4)}
  {
    CompareIsExact(s, t.receivedSeq, logs);
    CompareIsExact(t, s.receivedSeq, logs);
  }

  // ----- quiet means complete -----

  type Edge = (Address, Address)

  ghost predicate IsPath(path: seq<Address>, edges: set<Edge>) {
    && path != []
    && forall i :: 0 <= i < |path| - 1 ==> Linked(path[i], path[i + 1], edges)
  }

  ghost predicate Linked(a: Address, b: Address, edges: set<Edge>) {
    (a, b) in edges || (b, a) in edges
  }

  ghost predicate Connects(edges: set<Edge>, ids: set<Address>) {
    && (forall e :: e in edges ==> e.0 in ids && e.1 in ids)
    && forall a, b :: a in ids && b in ids ==> exists path :: IsPathBetween(path, a, b, edges)
  }

  ghost predicate IsPathBetween(path: seq<Address>, a: Address, b: Address, edges: set<Edge>) {
    IsPath(path, edges) && path[0] == a && path[|path| - 1] == b
  }

  /** Along every edge one end finds that the views agree. */
  ghost predicate Quiet(sys: System, edges: set<Edge>)
    requires forall e :: e in edges ==> e.0 in sys.nodes && e.1 in sys.nodes
  {
    forall e :: e in edges ==> Compare(sys.nodes[e.0], sys.nodes[e.1].receivedSeq).code == 4
  }

  /** A node has and has counted everything every origin broadcast, and stores nothing else. */
  ghost predicate Complete(s: NodeState, logs: Logs) {
    forall o :: o in logs ==>
      && Get(s.receivedSeq, o) == |logs[o]| == |Stored(s, o)|
      && IsPrefixOfLog(Stored(s, o), o, logs[o])
  }

  lemma {:induction false} AgreeAlongPath(sys: System, edges: set<Edge>, path: seq<Address>, o: Address)
    requires Inv(sys) && IsPath(path, edges) && forall e :: e in edges ==> e.0 in sys.nodes && e.1 in sys.nodes
    requires Quiet(sys, edges) && path[0] in sys.nodes
    ensures path[|path| - 1] in sys.nodes
    ensures Get(sys.nodes[path[0]].receivedSeq, o) == Get(sys.nodes[path[|path| - 1]].receivedSeq, o)
  {
    if |path| > 1 {
      var a, b := path[0], path[1];
      assert Linked(a, b, edges);
      var e := if (a, b) in edges then (a, b) else (b, a);
      assert MemberOk(e.0, sys.nodes[e.0], sys.accepted[e.0], sys.logs);
      CompareIsExact(sys.nodes[e.0], sys.nodes[e.1].receivedSeq, sys.logs);
      assert Get(sys.nodes[a].receivedSeq, o) == Get(sys.nodes[b].receivedSeq, o);
      assert IsPath(path[1..], edges) by {
        forall i | 0 <= i < |path[1..]| - 1 ensures Linked(path[1..][i], path[1..][i + 1], edges) {
          assert Linked(path[i + 1], path[i + 2], edges);
        }
      }
      AgreeAlongPath(sys, edges, path[1..], o);
    }
  }

  lemma QuietIsComplete(sys: System, edges: set<Edge>, n: Address, o: Address)
    requires Inv(sys) && Connects(edges, sys.nodes.Keys) && Quiet(sys, edges) && {n, o} <= sys.nodes.Keys
    ensures var s := sys.nodes[n];
      && Get(s.receivedSeq, o) == |sys.logs[o]| == |Stored(s, o)|
      && IsPrefixOfLog(Stored(s, o), o, sys.logs[o])
  {
    var path :| IsPathBetween(path, n, o, edges);
    AgreeAlongPath(sys, edges, path, o);
    StoresPrefix(sys, n, o);
  }

  lemma QuietNodeIsComplete(sys: System, edges: set<Edge>, n: Address)
    requires Inv(sys) && Connects(edges, sys.nodes.Keys) && Quiet(sys, edges) && n in sys.nodes
    ensures Complete(sys.nodes[n], sys.logs)
  {
    forall o | o in sys.logs ensures var s := sys.nodes[n];
      Get(s.receivedSeq, o) == |sys.logs[o]| == |Stored(s, o)| && IsPrefixOfLog(Stored(s, o), o, sys.logs[o])
    {
      QuietIsComplete(sys, edges, n, o);
    }
  }

  /** When a graph connects all nodes, its edges are quiet exactly when every node holds and has
      counted every origin's full log: no rumor is missing and none is stored but uncounted. */
  lemma QuietIffComplete(sys: System, edges: set<Edge>)
    requires Inv(sys) && Connects(edges, sys.nodes.Keys)
    ensures Quiet(sys, edges) <==> forall n :: n in sys.nodes ==> Complete(sys.nodes[n], sys.logs)
  {
    hide Inv, Complete, Compare;
    if Quiet(sys, edges) {
      forall n | n in sys.nodes ensures Complete(sys.nodes[n], sys.logs) { QuietNodeIsComplete(sys, edges, n); }
    }
    if forall n :: n in sys.nodes ==> Complete(sys.nodes[n], sys.logs) {
      forall e | e in edges ensures Compare(sys.nodes[e.0], sys.nodes[e.1].receivedSeq).code == 4 {
        CompleteAgree(sys, e.0, e.1);
      }
    }
  }

  lemma CompleteAgree(sys: System, a: Address, b: Address)
    requires Inv(sys) && {a, b} <= sys.nodes.Keys
    requires Complete(sys.nodes[a], sys.logs) && Complete(sys.nodes[b], sys.logs)
    ensures Compare(sys.nodes[a], sys.nodes[b].receivedSeq).code == 4
  {
    var s, t := sys.nodes[a], sys.nodes[b];
    assert MemberOk(a, s, sys.accepted[a], sys.logs) && MemberOk(b, t, sys.accepted[b], sys.logs);
    CompareIsExact(s, t.receivedSeq, sys.logs);
    forall o ensures Get(s.receivedSeq, o) == Get(t.receivedSeq, o) {
      assert OriginOk(s, o, sys.logs) && OriginOk(t, o, sys.logs);
    }
  }

  // ----- catch-up is a join -----

  function AllOk(n: nat): seq<Outcome> {
    seq(n, _ => Outcome(true, true))
  }

  /** A run of consecutive sequences of one origin, the first of them not beyond the next expected one. */
  lemma {:induction false} ProcessSlice(s: NodeState, o: Address, rumors: seq<Rumor>, lo: nat, relayedBy: Address)
    requires forall i :: 0 <= i < |rumors| ==> rumors[i].origin == o && rumors[i].sequence == lo + i + 1
    requires lo <= Get(s.receivedSeq, o)
    ensures var h := Process(s, rumors, relayedBy, AllOk(|rumors|));
      && !h.stopped
      && Get(h.state.receivedSeq, o) == Max(Get(s.receivedSeq, o), lo + |rumors|)
      && forall x :: x != o ==> Get(h.state.receivedSeq, x) == Get(s.receivedSeq, x)
    decreases |rumors|
  {
    if rumors != [] {
      var outs := AllOk(|rumors|);
      assert outs[1..] == AllOk(|rumors[1..]|);
      ProcessSlice(ProcessOne(s, rumors[0], relayedBy, outs[0]).state, o, rumors[1..], lo + 1, relayedBy);
    }
  }

  lemma {:induction false} ProcessConcat(s: NodeState, a: seq<Rumor>, b: seq<Rumor>, relayedBy: Address)
    requires !Process(s, a, relayedBy, AllOk(|a|)).stopped
    ensures var first := Process(s, a, relayedBy, AllOk(|a|));
      var second := Process(first.state, b, relayedBy, AllOk(|b|));
      var both := Process(s, a + b, relayedBy, AllOk(|a + b|));
      both.state == second.state && both.stopped == second.stopped
    decreases |a|
  {
    if a == [] {
      assert a + b == b;
    } else {
      assert AllOk(|a|)[1..] == AllOk(|a[1..]|);
      assert AllOk(|a + b|)[1..] == AllOk(|a[1..] + b|);
      assert (a + b)[1..] == a[1..] + b && (a + b)[0] == a[0];
      ProcessConcat(ProcessOne(s, a[0], relayedBy, Outcome(true, true)).state, a[1..], b, relayedBy);
    }
  }

  lemma {:induction false} ProcessFlattened(s: NodeState, order: seq<Address>, missing: map<Address, seq<Rumor>>,
      view: View, relayedBy: Address)
    requires Distinct(order) && forall o :: o in order ==> o in missing
    requires forall o, i :: o in order && 0 <= i < |missing[o]| ==>
               missing[o][i].origin == o && missing[o][i].sequence == Get(view, o) + i + 1
    requires forall o :: o in order ==> Get(view, o) <= Get(s.receivedSeq, o)
    ensures var h := Process(s, Flatten(order, missing), relayedBy, AllOk(|Flatten(order, missing)|));
      && !h.stopped
      && forall o :: Get(h.state.receivedSeq, o) ==
           if o in order then Max(Get(s.receivedSeq, o), Get(view, o) + |missing[o]|) else Get(s.receivedSeq, o)
    decreases |order|
  {
    if order != [] {
      var o, rest := order[0], order[1..];
      var slice := missing[o];
      ProcessSlice(s, o, slice, Get(view, o), relayedBy);
      var first := Process(s, slice, relayedBy, AllOk(|slice|)).state;
      assert o !in rest;
      ProcessFlattened(first, rest, missing, view, relayedBy);
      ProcessConcat(s, slice, Flatten(rest, missing), relayedBy);
    }
  }

  lemma StepMonotone(sys: System, step: Step, b: Address, o: Address)
    requires Inv(sys) && Enabled(sys, step) && b in sys.nodes
    ensures b in Apply(sys, step).nodes
    ensures Get(Apply(sys, step).nodes[b].receivedSeq, o) >= Get(sys.nodes[b].receivedSeq, o)
  {
    var n := step.node;
    assert MemberOk(n, sys.nodes[n], sys.accepted[n], sys.logs);
    if step.Receive? && step.pkt.body.Rumors? {
      ProcessMonotone(sys.nodes[n], step.pkt.body.rumors, step.pkt.relayedBy, step.outs, o);
    } else if step.AddPeer? {
      AddPeersKeeps(sys.nodes[n], step.peers, sys.logs);
    }
  }

  /** Counters never go back. */
  lemma {:induction false} RunMonotone(sys: System, steps: seq<Step>, b: Address, o: Address)
    requires Inv(sys) && Legal(sys, steps) && b in sys.nodes
    ensures b in Run(sys, steps).nodes
    ensures Get(Run(sys, steps).nodes[b].receivedSeq, o) >= Get(sys.nodes[b].receivedSeq, o)
    decreases |steps|
  {
    if steps != [] {
      StepKeeps(sys, steps[0]);
      StepMonotone(sys, steps[0], b, o);
      RunMonotone(Apply(sys, steps[0]), steps[1..], b, o);
    }
  }

  lemma {:induction false} JoinOnDelivery(s: NodeState, t: NodeState, view: View, logs: Logs, order: seq<Address>,
      relayedBy: Address)
    requires NodeOk(s, logs) && Lists(order, Compare(s, view).missing)
    requires forall o :: Get(view, o) <= Get(t.receivedSeq, o)
    ensures var rumors := Flatten(order, Compare(s, view).missing);
      var h := Process(t, rumors, relayedBy, AllOk(|rumors|));
      && !h.stopped
      && forall o :: Get(h.state.receivedSeq, o) == Max(Get(t.receivedSeq, o), Get(s.receivedSeq, o))
  {
    CompareIsExact(s, view, logs);
    ProcessFlattened(t, order, Compare(s, view).missing, view, relayedBy);
  }

  /** next is reached from sys by some run. */
  ghost predicate Later(sys: System, next: System) {
    exists steps :: Legal(sys, steps) && Run(sys, steps) == next
  }

  lemma LaterIsSound(sys: System, next: System, b: Address)
    requires Inv(sys) && Later(sys, next) && b in sys.nodes
    ensures Inv(next) && b in next.nodes
    ensures forall o :: Get(next.nodes[b].receivedSeq, o) >= Get(sys.nodes[b].receivedSeq, o)
  {
    var steps :| Legal(sys, steps) && Run(sys, steps) == next;
    RunKeeps(sys, steps);
    forall o ensures b in next.nodes && Get(next.nodes[b].receivedSeq, o) >= Get(sys.nodes[b].receivedSeq, o) {
      RunMonotone(sys, steps, b, o);
    }
    RunMonotone(sys, steps, b, "");
  }

  /** b sends its status in state sys; later, in mid, a compares it and sends what b lacks, in any
      origin order; later still, in end, b handles the message, all handlers and acknowledgements
      succeeding. Then every counter of b is the maximum of its own at delivery and a's at the
      comparison, whatever else happened in between. */
  lemma {:induction false} CatchUpIsJoin(sys: System, mid: System, end: System, a: Address, b: Address,
      order: seq<Address>, relayedBy: Address)
    requires Inv(sys) && {a, b} <= sys.nodes.Keys
    requires Later(sys, mid) && Later(mid, end)
    requires a in mid.nodes && b in end.nodes
    requires Lists(order, Compare(mid.nodes[a], sys.nodes[b].receivedSeq).missing)
    ensures var rumors := Flatten(order, Compare(mid.nodes[a], sys.nodes[b].receivedSeq).missing);
      var h := Process(end.nodes[b], rumors, relayedBy, AllOk(|rumors|));
      && !h.stopped
      && forall o :: Get(h.state.receivedSeq, o) ==
                Max(Get(end.nodes[b].receivedSeq, o), Get(mid.nodes[a].receivedSeq, o))
  {
    hide Later;
    LaterIsSound(sys, mid, b);
    LaterIsSound(mid, end, b);
    assert MemberOk(a, mid.nodes[a], mid.accepted[a], mid.logs);
    JoinOnDelivery(mid.nodes[a], end.nodes[b], sys.nodes[b].receivedSeq, mid.logs, order, relayedBy);
  }
}
