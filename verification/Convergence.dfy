/** From every reachable state the gossiping nodes can still bring each other up to date. */
module Convergence {
  import opened Prelude
  import opened Gossip
  import opened GossipSystem
  import opened AntiEntropy

  /** The same nodes with the same peers and the same broadcasts, and no counter gone back. */
  ghost predicate Advances(sys: System, later: System) {
    && later.logs == sys.logs && later.nodes.Keys == sys.nodes.Keys
    && forall n {:trigger NodeAdvances(sys, later, n)} :: n in sys.nodes ==> NodeAdvances(sys, later, n)
  }

  ghost predicate NodeAdvances(sys: System, later: System, n: Address) {
    && n in sys.nodes && n in later.nodes
    && later.nodes[n].directPeers == sys.nodes[n].directPeers
    && AtLeast(later.nodes[n].receivedSeq, sys.nodes[n].receivedSeq)
  }

  ghost predicate AtLeast(view: View, other: View) {
    forall o :: Get(view, o) >= Get(other, o)
  }

  /** A legal continuation and the state it leads to. */
  ghost predicate Leads(sys: System, steps: seq<Step>, later: System) {
    Legal(sys, steps) && Run(sys, steps) == later && Inv(later) && Advances(sys, later)
  }

  lemma {:induction false} RunConcat(sys: System, a: seq<Step>, b: seq<Step>)
    requires Legal(sys, a) && Legal(Run(sys, a), b)
    ensures Legal(sys, a + b) && Run(sys, a + b) == Run(Run(sys, a), b)
    decreases |a|
  {
    if a == [] {
      assert a + b == b;
    } else {
      assert (a + b)[0] == a[0] && (a + b)[1..] == a[1..] + b;
      RunConcat(Apply(sys, a[0]), a[1..], b);
    }
  }

  lemma LeadsOn(sys: System, a: seq<Step>, mid: System, b: seq<Step>, later: System)
    requires Leads(sys, a, mid) && Leads(mid, b, later)
    ensures Leads(sys, a + b, later)
  {
    hide Inv, Legal, Run;
    RunConcat(sys, a, b);
    forall n | n in sys.nodes ensures NodeAdvances(sys, later, n) {
      assert NodeAdvances(sys, mid, n) && NodeAdvances(mid, later, n);
    }
  }

  lemma StandStill(sys: System)
    requires Inv(sys)
    ensures Leads(sys, [], sys)
  {
    forall n | n in sys.nodes ensures NodeAdvances(sys, sys, n) {}
  }

  lemma ListOf(keys: set<Address>) returns (order: seq<Address>)
    ensures Distinct(order) && forall o :: o in order <==> o in keys
    decreases |keys|
  {
    if keys == {} {
      order := [];
    } else {
      var o :| o in keys;
      order := ListOf(keys - {o});
      order := [o] + order;
    }
  }

  // ----- one exchange -----

  /** The status a node sends in this state. */
  function StatusPacket(sys: System, from: Address, to: Address): Packet
    requires from in sys.nodes
  {
    Packet(from, from, to, Status(sys.nodes[from].receivedSeq))
  }

  /** The rumors b lacks, as a sends them. */
  function AnswerPacket(sys: System, a: Address, b: Address, order: seq<Address>): Packet
    requires {a, b} <= sys.nodes.Keys
    requires forall o :: o in order ==> o in Compare(sys.nodes[a], sys.nodes[b].receivedSeq).missing
  {
    Packet(a, a, b, Rumors(Flatten(order, Compare(sys.nodes[a], sys.nodes[b].receivedSeq).missing)))
  }

  /** One of the two has the other as a direct peer. */
  ghost predicate Peered(sys: System, a: Address, b: Address) {
    {a, b} <= sys.nodes.Keys && (a in sys.nodes[b].directPeers || b in sys.nodes[a].directPeers)
  }

  lemma {:induction false} FlattenNotEmpty(order: seq<Address>, missing: map<Address, seq<Rumor>>)
    requires order != [] && forall o :: o in order ==> o in missing && missing[o] != []
    ensures Flatten(order, missing) != []
  {
    assert order[0] in order;
  }

  /** a answers the status of b with everything b lacks, addressed to b. */
  lemma {:induction false} AnswerIsSent(sys: System, a: Address, b: Address, order: seq<Address>)
    requires Inv(sys) && {a, b} <= sys.nodes.Keys
    requires var missing := Compare(sys.nodes[a], sys.nodes[b].receivedSeq).missing;
      Lists(order, missing) && missing.Keys != {}
    ensures var c := Compare(sys.nodes[a], sys.nodes[b].receivedSeq);
      AnswerPacket(sys, a, b, order) in Replies(sys.nodes[a], b, c, order, None)
  {
    assert MemberOk(a, sys.nodes[a], sys.accepted[a], sys.logs);
    var s, view := sys.nodes[a], sys.nodes[b].receivedSeq;
    var c := Compare(s, view);
    CompareIsExact(s, view, sys.logs);
    var first :| first in c.missing;
    assert first in order;
    FlattenNotEmpty(order, c.missing);
    assert Get(s.receivedSeq, first) > Get(view, first);
  }

  lemma {:induction false} OneStep(sys: System, step: Step)
    requires Inv(sys) && Enabled(sys, step)
    ensures Legal(sys, [step]) && Run(sys, [step]) == Apply(sys, step) && Inv(Apply(sys, step))
  {
    StepKeeps(sys, step);
    assert [step][1..] == [];
  }

  /** b sends its status to its peer a. */
  lemma {:induction false} Ask(sys: System, a: Address, b: Address)
    requires Inv(sys) && {a, b} <= sys.nodes.Keys && a in sys.nodes[b].directPeers
    ensures Legal(sys, [SendStatus(b, a)])
    ensures var next := Run(sys, [SendStatus(b, a)]);
      Inv(next) && next.nodes == sys.nodes && next.logs == sys.logs && StatusPacket(sys, b, a) in next.network
  {
    OneStep(sys, SendStatus(b, a));
  }

  /** a handles the status of b: its answer is sent and no node changes. */
  lemma {:induction false} Answer(sys: System, a: Address, b: Address, order: seq<Address>)
    requires Inv(sys) && {a, b} <= sys.nodes.Keys && StatusPacket(sys, b, a) in sys.network
    requires var missing := Compare(sys.nodes[a], sys.nodes[b].receivedSeq).missing;
      Lists(order, missing) && missing.Keys != {}
    ensures Legal(sys, [Receive(a, StatusPacket(sys, b, a), [], order, None)])
    ensures var next := Run(sys, [Receive(a, StatusPacket(sys, b, a), [], order, None)]);
      && Inv(next) && next.nodes == sys.nodes && next.logs == sys.logs
      && AnswerPacket(sys, a, b, order) in next.network
  {
    assert MemberOk(a, sys.nodes[a], sys.accepted[a], sys.logs);
    AnswerIsSent(sys, a, b, order);
    hide Compare, Replies, Flatten, MembersOk, NetworkOk;
    OneStep(sys, Receive(a, StatusPacket(sys, b, a), [], order, None));
  }

  /** a, ahead of b somewhere, sends its status to its peer b, and b answers with its own. */
  lemma Provoke(sys: System, a: Address, b: Address) returns (steps: seq<Step>)
    requires Inv(sys) && {a, b} <= sys.nodes.Keys && b in sys.nodes[a].directPeers
    requires Ahead(sys.nodes[a].receivedSeq, sys.nodes[b].receivedSeq)
    ensures Legal(sys, steps)
    ensures var next := Run(sys, steps);
      Inv(next) && next.nodes == sys.nodes && next.logs == sys.logs && StatusPacket(sys, b, a) in next.network
  {
    Ask(sys, b, a);
    var told := Run(sys, [SendStatus(a, b)]);
    var order := ListOf(Compare(sys.nodes[b], sys.nodes[a].receivedSeq).missing.Keys);
    var reply := Receive(b, StatusPacket(sys, a, b), [], order, None);
    StatusAnswered(told, a, b, order);
    steps := [SendStatus(a, b)] + [reply];
    RunConcat(sys, [SendStatus(a, b)], [reply]);
  }

  lemma StatusAnswered(sys: System, a: Address, b: Address, order: seq<Address>)
    requires Inv(sys) && {a, b} <= sys.nodes.Keys && StatusPacket(sys, a, b) in sys.network
    requires Ahead(sys.nodes[a].receivedSeq, sys.nodes[b].receivedSeq)
    requires Lists(order, Compare(sys.nodes[b], sys.nodes[a].receivedSeq).missing)
    ensures Legal(sys, [Receive(b, StatusPacket(sys, a, b), [], order, None)])
    ensures var next := Run(sys, [Receive(b, StatusPacket(sys, a, b), [], order, None)]);
      Inv(next) && next.nodes == sys.nodes && next.logs == sys.logs && StatusPacket(sys, b, a) in next.network
  {
    assert MemberOk(b, sys.nodes[b], sys.accepted[b], sys.logs);
    assert StatusPacket(sys, b, a) in
      Replies(sys.nodes[b], a, Compare(sys.nodes[b], sys.nodes[a].receivedSeq), order, None);
    hide Compare, Replies, Flatten, MembersOk, NetworkOk;
    OneStep(sys, Receive(b, StatusPacket(sys, a, b), [], order, None));
  }

  /** Steps after which what b lacks is on its way from a, and no node has changed: b asks, or a makes
      b ask by a status of its own. */
  lemma AskAndAnswer(sys: System, a: Address, b: Address, order: seq<Address>) returns (steps: seq<Step>)
    requires Inv(sys) && Peered(sys, a, b)
    requires var missing := Compare(sys.nodes[a], sys.nodes[b].receivedSeq).missing;
      Lists(order, missing) && missing.Keys != {}
    ensures Legal(sys, steps)
    ensures var next := Run(sys, steps);
      && Inv(next) && next.nodes == sys.nodes && next.logs == sys.logs
      && AnswerPacket(sys, a, b, order) in next.network
  {
    var first := [SendStatus(b, a)];
    if a in sys.nodes[b].directPeers {
      Ask(sys, a, b);
    } else {
      MissingMeansAhead(sys, a, b);
      first := Provoke(sys, a, b);
    }
    hide Inv, Legal, Run, Compare, Flatten;
    var asked := Run(sys, first);
    Answer(asked, a, b, order);
    var answer := [Receive(a, StatusPacket(sys, b, a), [], order, None)];
    steps := first + answer;
    RunConcat(sys, first, answer);
  }

  lemma MissingMeansAhead(sys: System, a: Address, b: Address)
    requires Inv(sys) && {a, b} <= sys.nodes.Keys
    requires Compare(sys.nodes[a], sys.nodes[b].receivedSeq).missing.Keys != {}
    ensures Ahead(sys.nodes[a].receivedSeq, sys.nodes[b].receivedSeq)
  {
    assert MemberOk(a, sys.nodes[a], sys.accepted[a], sys.logs);
    CompareIsExact(sys.nodes[a], sys.nodes[b].receivedSeq, sys.logs);
    var o :| o in Compare(sys.nodes[a], sys.nodes[b].receivedSeq).missing;
    assert Get(sys.nodes[a].receivedSeq, o) > Get(sys.nodes[b].receivedSeq, o);
  }

  lemma {:induction false} JoinKeepsOthers(sys: System, a: Address, b: Address, order: seq<Address>, pkt: Packet)
    requires Inv(sys) && {a, b} <= sys.nodes.Keys && pkt in sys.network && pkt.destination == b
    requires Lists(order, Compare(sys.nodes[a], sys.nodes[b].receivedSeq).missing)
    requires pkt.body == Rumors(Flatten(order, Compare(sys.nodes[a], sys.nodes[b].receivedSeq).missing))
    ensures var later := ReceiveRumors(sys, b, pkt, AllOk(|pkt.body.rumors|), None);
      && Inv(later) && Advances(sys, later) && AtLeast(later.nodes[b].receivedSeq, sys.nodes[a].receivedSeq)
  {
    var outs := AllOk(|pkt.body.rumors|);
    var s, t := sys.nodes[a], sys.nodes[b];
    assert MemberOk(a, s, sys.accepted[a], sys.logs);
    JoinOnDelivery(s, t, t.receivedSeq, sys.logs, order, pkt.relayedBy);
    ReceiveRumorsKeeps(sys, b, pkt, outs, None);
    ProcessKeepsPeers(t, pkt.body.rumors, pkt.relayedBy, outs);
    var later := ReceiveRumors(sys, b, pkt, outs, None);
    forall n | n in sys.nodes ensures NodeAdvances(sys, later, n) {}
  }

  lemma {:induction false} ProcessKeepsPeers(s: NodeState, rumors: seq<Rumor>, relayedBy: Address, outs: seq<Outcome>)
    requires |outs| == |rumors|
    ensures Process(s, rumors, relayedBy, outs).state.directPeers == s.directPeers
    decreases |rumors|
  {
    if rumors != [] {
      var one := ProcessOne(s, rumors[0], relayedBy, outs[0]);
      if !one.stopped { ProcessKeepsPeers(one.state, rumors[1..], relayedBy, outs[1..]); }
    }
  }

  /** When one of the two has the other as a peer, a few steps make b know all that a knows: three if a
      is a peer of b, one more if only b is a peer of a, none if b lacks nothing. */
  lemma Exchange(sys: System, a: Address, b: Address) returns (steps: seq<Step>, later: System)
    requires Inv(sys) && Peered(sys, a, b)
    ensures Leads(sys, steps, later) && b in later.nodes
    ensures AtLeast(later.nodes[b].receivedSeq, sys.nodes[a].receivedSeq)
  {
    var missing := Compare(sys.nodes[a], sys.nodes[b].receivedSeq).missing;
    if missing.Keys == {} {
      NothingMissing(sys, a, b);
      StandStill(sys);
      return [], sys;
    }
    var order := ListOf(missing.Keys);
    var first := AskAndAnswer(sys, a, b, order);
    var mid := Run(sys, first);
    var pkt := AnswerPacket(sys, a, b, order);
    later := Deliver(sys, mid, a, b, order, pkt);
    var delivery := Receive(b, pkt, AllOk(|pkt.body.rumors|), [], None);
    steps := first + [delivery];
    RunConcat(sys, first, [delivery]);
  }

  lemma NothingMissing(sys: System, a: Address, b: Address)
    requires Inv(sys) && {a, b} <= sys.nodes.Keys
    requires Compare(sys.nodes[a], sys.nodes[b].receivedSeq).missing.Keys == {}
    ensures AtLeast(sys.nodes[b].receivedSeq, sys.nodes[a].receivedSeq)
  {
    assert MemberOk(a, sys.nodes[a], sys.accepted[a], sys.logs);
    CompareIsExact(sys.nodes[a], sys.nodes[b].receivedSeq, sys.logs);
    var missing := Compare(sys.nodes[a], sys.nodes[b].receivedSeq).missing;
    forall o ensures Get(sys.nodes[b].receivedSeq, o) >= Get(sys.nodes[a].receivedSeq, o) {
      assert o !in missing.Keys;
    }
  }

  lemma Deliver(sys: System, mid: System, a: Address, b: Address, order: seq<Address>, pkt: Packet)
    returns (later: System)
    requires Inv(mid) && mid.nodes == sys.nodes && mid.logs == sys.logs
    requires {a, b} <= sys.nodes.Keys && pkt in mid.network && pkt.destination == b
    requires Lists(order, Compare(sys.nodes[a], sys.nodes[b].receivedSeq).missing)
    requires pkt.body == Rumors(Flatten(order, Compare(sys.nodes[a], sys.nodes[b].receivedSeq).missing))
    ensures var delivery := Receive(b, pkt, AllOk(|pkt.body.rumors|), [], None);
      && Legal(mid, [delivery]) && later == Run(mid, [delivery])
      && Inv(later) && Advances(sys, later) && b in later.nodes
      && AtLeast(later.nodes[b].receivedSeq, sys.nodes[a].receivedSeq)
  {
    var delivery := Receive(b, pkt, AllOk(|pkt.body.rumors|), [], None);
    JoinKeepsOthers(mid, a, b, order, pkt);
    assert Enabled(mid, delivery);
    later := Apply(mid, delivery);
    assert [delivery][1..] == [];
    forall n | n in sys.nodes ensures NodeAdvances(sys, later, n) { assert NodeAdvances(mid, later, n); }
  }

  // ----- along paths, and everywhere -----

  /** Of any two neighbors on the path one has the other as a direct peer. */
  ghost predicate IsPeerPath(sys: System, path: seq<Address>) {
    && path != [] && path[0] in sys.nodes
    && forall i :: 0 <= i < |path| - 1 ==> Peered(sys, path[i], path[i + 1])
  }

  ghost predicate IsPeerPathBetween(sys: System, path: seq<Address>, from: Address, to: Address) {
    IsPeerPath(sys, path) && path[0] == from && path[|path| - 1] == to
  }

  lemma PathStays(sys: System, later: System, path: seq<Address>)
    requires Advances(sys, later) && IsPeerPath(sys, path)
    ensures IsPeerPath(later, path)
  {
    forall i | 0 <= i < |path| - 1 ensures Peered(later, path[i], path[i + 1]) {
      assert Peered(sys, path[i], path[i + 1]);
      assert NodeAdvances(sys, later, path[i]) && NodeAdvances(sys, later, path[i + 1]);
    }
  }

  lemma {:induction false} SpreadAlong(sys: System, path: seq<Address>) returns (steps: seq<Step>, later: System)
    requires Inv(sys) && IsPeerPath(sys, path)
    ensures Leads(sys, steps, later) && path[|path| - 1] in later.nodes
    ensures AtLeast(later.nodes[path[|path| - 1]].receivedSeq, sys.nodes[path[0]].receivedSeq)
    decreases |path|
  {
    if |path| == 1 {
      StandStill(sys);
      return [], sys;
    }
    hide Inv, Peered;
    assert Peered(sys, path[0], path[1]);
    var first, mid := Exchange(sys, path[0], path[1]);
    PathStays(sys, mid, path);
    var rest;
    rest, later := SpreadAlong(mid, path[1..]);
    steps := first + rest;
    LeadsOn(sys, first, mid, rest, later);
  }

  ghost predicate Knows(sys: System, n: Address, o: Address) {
    n in sys.nodes && o in sys.logs && Get(sys.nodes[n].receivedSeq, o) == |sys.logs[o]|
  }

  lemma KnowsForever(sys: System, later: System, n: Address, o: Address)
    requires Inv(later) && Advances(sys, later) && Knows(sys, n, o)
    ensures Knows(later, n, o)
  {
    assert NodeAdvances(sys, later, n);
    StoresPrefix(later, n, o);
  }

  /** Some path leads from every node to every other, whichever way its peerings point. */
  ghost predicate PeersConnect(sys: System) {
    forall o, n :: o in sys.nodes && n in sys.nodes ==> exists path :: IsPeerPathBetween(sys, path, o, n)
  }

  /** One more pair: n learns everything o broadcast. */
  lemma Learn(sys: System, o: Address, n: Address) returns (steps: seq<Step>, later: System)
    requires Inv(sys) && {o, n} <= sys.nodes.Keys && PeersConnect(sys)
    ensures Leads(sys, steps, later) && Knows(later, n, o)
  {
    var path :| IsPeerPathBetween(sys, path, o, n);
    steps, later := SpreadAlong(sys, path);
    StoresPrefix(sys, o, o);
    StoresPrefix(later, n, o);
  }

  lemma StayConnected(sys: System, later: System)
    requires PeersConnect(sys) && Advances(sys, later)
    ensures PeersConnect(later)
  {
    forall o, n | o in later.nodes && n in later.nodes ensures exists path :: IsPeerPathBetween(later, path, o, n) {
      var path :| IsPeerPathBetween(sys, path, o, n);
      PathStays(sys, later, path);
      assert IsPeerPathBetween(later, path, o, n);
    }
  }

  ghost predicate AllKnown(sys: System, pairs: set<(Address, Address)>) {
    forall p :: p in pairs ==> Knows(sys, p.1, p.0)
  }

  lemma LearnAll(sys: System, pairs: set<(Address, Address)>) returns (steps: seq<Step>, later: System)
    requires Inv(sys) && PeersConnect(sys) && forall p :: p in pairs ==> p.0 in sys.nodes && p.1 in sys.nodes
    ensures Leads(sys, steps, later) && AllKnown(later, pairs)
    decreases |pairs|
  {
    hide Inv, Legal, Run, Knows, PeersConnect, NodeAdvances;
    if pairs == {} {
      StandStill(sys);
      return [], sys;
    }
    var p :| p in pairs;
    var first, mid := LearnAll(sys, pairs - {p});
    StayConnected(sys, mid);
    var rest;
    rest, later := Learn(mid, p.0, p.1);
    steps := first + rest;
    LeadsOn(sys, first, mid, rest, later);
    forall q | q in pairs ensures Knows(later, q.1, q.0) {
      if q != p { KnowsForever(mid, later, q.1, q.0); }
    }
  }

  lemma KnownIsComplete(sys: System, n: Address)
    requires Inv(sys) && n in sys.nodes && forall o :: o in sys.nodes ==> Knows(sys, n, o)
    ensures Complete(sys.nodes[n], sys.logs)
  {
    forall o | o in sys.logs ensures Get(sys.nodes[n].receivedSeq, o) == |sys.logs[o]| == |Stored(sys.nodes[n], o)| &&
                                     IsPrefixOfLog(Stored(sys.nodes[n], o), o, sys.logs[o]) {
      StoresPrefix(sys, n, o);
      assert Knows(sys, n, o);
    }
  }

  /** Whatever was lost or failed before: from every reachable state whose peerings connect all nodes,
      in whatever direction, a legal continuation without any further broadcast or peering makes every
      node hold and count every origin's full log. */
  lemma ConvergenceIsAlwaysPossible(ids: set<Address>, before: seq<Step>) returns (steps: seq<Step>)
    requires "" !in ids && Legal(Initial(ids), before) && PeersConnect(Run(Initial(ids), before))
    ensures Legal(Run(Initial(ids), before), steps)
    ensures var sys, later := Run(Initial(ids), before), Run(Run(Initial(ids), before), steps);
      Advances(sys, later) && later.nodes.Keys == ids && forall n :: n in ids ==> Complete(later.nodes[n], later.logs)
  {
    hide Inv, PeersConnect, Complete, Knows;
    RunIsSound(ids, before);
    var sys := Run(Initial(ids), before);
    var pairs := set o, n | o in ids && n in ids :: (o, n);
    var later;
    steps, later := LearnAll(sys, pairs);
    forall n | n in ids ensures Complete(later.nodes[n], later.logs) {
      forall o | o in ids ensures Knows(later, n, o) {
        assert (o, n) in pairs;
      }
      KnownIsComplete(later, n);
    }
  }
}
