/** Convergence of whole runs: without further broadcasts, a round in which both ends of every edge of a
    connecting graph handle an answer to a status brings every origin's log one node further. */
module Rounds {
  import opened Prelude
  import opened Gossip
  import opened GossipSystem
  import opened AntiEntropy
  import opened Convergence

  // ----- statuses are never ahead of their sender -----

  ghost predicate IsStatus(body: Body) {
    body.Status? || body.Ack?
  }

  ghost predicate OldView(pkt: Packet, nodes: map<Address, NodeState>) {
    IsStatus(pkt.body) ==> pkt.source in nodes && AtLeast(nodes[pkt.source].receivedSeq, pkt.body.view)
  }

  /** What a status or an acknowledgement reports its sender still knows. */
  ghost predicate OldViews(sys: System) {
    forall p :: p in sys.network ==> OldView(p, sys.nodes)
  }

  ghost predicate NoneAhead(views: seq<View>, known: View) {
    forall i :: 0 <= i < |views| ==> AtLeast(known, views[i])
  }

  lemma NoneAheadJoins(a: seq<View>, b: seq<View>, known: View)
    requires NoneAhead(a, known) && NoneAhead(b, known)
    ensures NoneAhead(a + b, known)
  {
  }

  lemma {:induction false} AcksAreOld(s: NodeState, rumors: seq<Rumor>, relayedBy: Address, outs: seq<Outcome>)
    requires |outs| == |rumors|
    ensures var h := Process(s, rumors, relayedBy, outs); NoneAhead(h.acks, h.state.receivedSeq)
    decreases |rumors|
  {
    if rumors != [] {
      var one := ProcessOne(s, rumors[0], relayedBy, outs[0]);
      if !one.stopped {
        var rest := Process(one.state, rumors[1..], relayedBy, outs[1..]);
        AcksAreOld(one.state, rumors[1..], relayedBy, outs[1..]);
        ProcessAdvances(one.state, rumors[1..], relayedBy, outs[1..]);
        NoneAheadJoins(one.acks, rest.acks, rest.state.receivedSeq);
      }
    }
  }

  lemma ProcessAdvances(s: NodeState, rumors: seq<Rumor>, relayedBy: Address, outs: seq<Outcome>)
    requires |outs| == |rumors|
    ensures AtLeast(Process(s, rumors, relayedBy, outs).state.receivedSeq, s.receivedSeq)
  {
    forall o ensures Get(Process(s, rumors, relayedBy, outs).state.receivedSeq, o) >= Get(s.receivedSeq, o) {
      ProcessMonotone(s, rumors, relayedBy, outs, o);
    }
  }

  lemma RumorPacketsAreOld(sys: System, n: Address, pkt: Packet, outs: seq<Outcome>, pick: Option<Address>, p: Packet)
    requires n in sys.nodes && n in sys.accepted && pkt.body.Rumors? && |outs| == |pkt.body.rumors|
    requires p in RumorPackets(n, pkt, Process(sys.nodes[n], pkt.body.rumors, pkt.relayedBy, outs), pick)
    ensures OldView(p, ReceiveRumors(sys, n, pkt, outs, pick).nodes)
  {
    AcksAreOld(sys.nodes[n], pkt.body.rumors, pkt.relayedBy, outs);
    var h := Process(sys.nodes[n], pkt.body.rumors, pkt.relayedBy, outs);
    hide Process, AtLeast;
    if p in AckPackets(n, pkt.source, h.acks) {
      var i :| 0 <= i < |h.acks| && p == AckPackets(n, pkt.source, h.acks)[i];
      assert AtLeast(h.state.receivedSeq, h.acks[i]);
    }
  }

  lemma RepliesAreOld(sys: System, n: Address, source: Address, view: View, order: seq<Address>,
      pick: Option<Address>, p: Packet)
    requires Inv(sys) && n in sys.nodes && Lists(order, Compare(sys.nodes[n], view).missing)
    requires p in Replies(sys.nodes[n], source, Compare(sys.nodes[n], view), order, pick)
    ensures OldView(p, sys.nodes)
  {
    assert MemberOk(n, sys.nodes[n], sys.accepted[n], sys.logs);
  }

  /** What a step adds to the network is an old packet under another destination or relay, carries no
      view, or carries one its sender has. */
  lemma SentViewsAreOld(sys: System, step: Step, p: Packet)
    requires Inv(sys) && OldViews(sys) && Enabled(sys, step)
    requires p in Apply(sys, step).network && p !in sys.network
    ensures OldView(p, Apply(sys, step).nodes) || OldView(p, sys.nodes)
  {
    hide Inv, Process, Compare, Replies, RumorPackets;
    match step
    case AddPeer(_, _) =>
    case Publish(_, _) =>
    case SendOwn(_, _, _) =>
    case SendStatus(n, _) =>
    case Receive(n, pkt, outs, order, pick) =>
      if pkt.body.Rumors? {
        RumorPacketsAreOld(sys, n, pkt, outs, pick, p);
      } else {
        RepliesAreOld(sys, n, pkt.source, pkt.body.view, order, pick, p);
      }
    case Resend(_, _, _) =>
    case Relay(_, pkt) => assert OldView(pkt, sys.nodes);
  }

  lemma StepKeepsViews(sys: System, step: Step)
    requires Inv(sys) && OldViews(sys) && Enabled(sys, step)
    ensures OldViews(Apply(sys, step))
  {
    var next := Apply(sys, step);
    forall p | p in next.network ensures OldView(p, next.nodes) {
      if p !in sys.network { SentViewsAreOld(sys, step, p); } else { assert OldView(p, sys.nodes); }
      if IsStatus(p.body) && OldView(p, sys.nodes) {
        forall o ensures p.source in next.nodes && Get(next.nodes[p.source].receivedSeq, o) >= Get(p.body.view, o) {
          StepMonotone(sys, step, p.source, o);
        }
        StepMonotone(sys, step, p.source, "");
      }
    }
  }

  lemma {:induction false} RunKeepsViews(sys: System, steps: seq<Step>)
    requires Inv(sys) && OldViews(sys) && Legal(sys, steps)
    ensures OldViews(Run(sys, steps))
    decreases |steps|
  {
    if steps != [] {
      StepKeeps(sys, steps[0]);
      StepKeepsViews(sys, steps[0]);
      RunKeepsViews(Apply(sys, steps[0]), steps[1..]);
    }
  }

  lemma {:induction false} RunAdvances(sys: System, steps: seq<Step>, n: Address)
    requires Inv(sys) && Legal(sys, steps) && n in sys.nodes
    ensures Inv(Run(sys, steps)) && n in Run(sys, steps).nodes
    ensures AtLeast(Run(sys, steps).nodes[n].receivedSeq, sys.nodes[n].receivedSeq)
  {
    RunKeeps(sys, steps);
    RunMonotone(sys, steps, n, "");
    forall o ensures Get(Run(sys, steps).nodes[n].receivedSeq, o) >= Get(sys.nodes[n].receivedSeq, o) {
      RunMonotone(sys, steps, n, o);
    }
  }

  // ----- one answer -----

  /** a compares its counters with a status or an acknowledgement of b. */
  ghost predicate Compares(step: Step, a: Address, b: Address) {
    step.Receive? && step.node == a && step.pkt.source == b && IsStatus(step.pkt.body)
  }

  /** What it then sends to b. */
  function AnswerOf(s: NodeState, step: Step): seq<Rumor>
    requires step.Receive? && (step.pkt.body.Status? || step.pkt.body.Ack?)
    requires forall o :: o in step.order ==> o in Compare(s, step.pkt.body.view).missing
  {
    Flatten(step.order, Compare(s, step.pkt.body.view).missing)
  }

  /** b handles a message with these rumors, all handlers and acknowledgements succeeding. */
  ghost predicate Handles(step: Step, b: Address, rumors: seq<Rumor>) {
    step.Receive? && step.node == b && step.pkt.body == Rumors(rumors) && step.outs == AllOk(|rumors|)
  }

  /** An empty answer is not sent. */
  ghost predicate Delivered(steps: seq<Step>, b: Address, rumors: seq<Rumor>) {
    rumors == [] || exists k :: 0 <= k < |steps| && Handles(steps[k], b, rumors)
  }

  /** Somewhere in the run a answers a status of b, and later b handles the answer. */
  ghost predicate Answered(sys: System, steps: seq<Step>, a: Address, b: Address)
    requires Legal(sys, steps)
    decreases |steps|
  {
    steps != [] &&
    (|| (Compares(steps[0], a, b) && Delivered(steps[1..], b, AnswerOf(sys.nodes[a], steps[0])))
     || Answered(Apply(sys, steps[0]), steps[1..], a, b))
  }

  /** b handles what s once answered to an old view of b: it then knows all that s knew. */
  lemma {:induction false} DeliveryJoins(sys: System, steps: seq<Step>, s: NodeState, logs: Logs, view: View,
      order: seq<Address>, b: Address)
    requires Inv(sys) && Legal(sys, steps) && b in sys.nodes
    requires NodeOk(s, logs) && Lists(order, Compare(s, view).missing) && AtLeast(sys.nodes[b].receivedSeq, view)
    requires Delivered(steps, b, Flatten(order, Compare(s, view).missing))
    ensures b in Run(sys, steps).nodes && AtLeast(Run(sys, steps).nodes[b].receivedSeq, s.receivedSeq)
    decreases |steps|
  {
    var rumors := Flatten(order, Compare(s, view).missing);
    if rumors == [] {
      JoinOnDelivery(s, sys.nodes[b], view, logs, order, "");
      RunAdvances(sys, steps, b);
    } else {
      var k :| 0 <= k < |steps| && Handles(steps[k], b, rumors);
      StepKeeps(sys, steps[0]);
      if k == 0 {
        HandledJoins(sys, steps[0], s, logs, view, order, b);
        RunAdvances(Apply(sys, steps[0]), steps[1..], b);
      } else {
        OneAdvances(sys, steps[0], b);
        assert Handles(steps[1..][k - 1], b, rumors);
        DeliveryJoins(Apply(sys, steps[0]), steps[1..], s, logs, view, order, b);
      }
    }
  }

  lemma OneAdvances(sys: System, step: Step, n: Address)
    requires Inv(sys) && Enabled(sys, step) && n in sys.nodes
    ensures n in Apply(sys, step).nodes && AtLeast(Apply(sys, step).nodes[n].receivedSeq, sys.nodes[n].receivedSeq)
  {
    StepMonotone(sys, step, n, "");
    forall o ensures Get(Apply(sys, step).nodes[n].receivedSeq, o) >= Get(sys.nodes[n].receivedSeq, o) {
      StepMonotone(sys, step, n, o);
    }
  }

  lemma HandledJoins(sys: System, step: Step, s: NodeState, logs: Logs, view: View, order: seq<Address>, b: Address)
    requires Inv(sys) && Enabled(sys, step) && b in sys.nodes
    requires NodeOk(s, logs) && Lists(order, Compare(s, view).missing) && AtLeast(sys.nodes[b].receivedSeq, view)
    requires Handles(step, b, Flatten(order, Compare(s, view).missing))
    ensures b in Apply(sys, step).nodes && AtLeast(Apply(sys, step).nodes[b].receivedSeq, s.receivedSeq)
  {
    JoinOnDelivery(s, sys.nodes[b], view, logs, order, step.pkt.relayedBy);
  }

  /** After a run in which b handles an answer of a, b knows all that a knew before it. */
  lemma {:induction false} AnswerJoins(sys: System, steps: seq<Step>, a: Address, b: Address)
    requires Inv(sys) && OldViews(sys) && Legal(sys, steps) && {a, b} <= sys.nodes.Keys
    requires Answered(sys, steps, a, b)
    ensures b in Run(sys, steps).nodes && AtLeast(Run(sys, steps).nodes[b].receivedSeq, sys.nodes[a].receivedSeq)
    decreases |steps|
  {
    var step, next, rest := steps[0], Apply(sys, steps[0]), steps[1..];
    StepKeeps(sys, step);
    OneAdvances(sys, step, a);
    OneAdvances(sys, step, b);
    if Compares(step, a, b) && Delivered(rest, b, AnswerOf(sys.nodes[a], step)) {
      assert MemberOk(a, sys.nodes[a], sys.accepted[a], sys.logs);
      assert OldView(step.pkt, sys.nodes);
      DeliveryJoins(next, rest, sys.nodes[a], sys.logs, step.pkt.body.view, step.order, b);
    } else {
      StepKeepsViews(sys, step);
      AnswerJoins(next, rest, a, b);
    }
  }

  // ----- rounds -----

  ghost predicate NoPublish(steps: seq<Step>) {
    forall i :: 0 <= i < |steps| ==> !steps[i].Publish?
  }

  /** A run without broadcasts in which along every edge both ends are answered. */
  ghost predicate IsRound(sys: System, steps: seq<Step>, edges: set<Edge>) {
    && Legal(sys, steps) && NoPublish(steps)
    && forall a, b :: Linked(a, b, edges) ==> Answered(sys, steps, a, b)
  }

  ghost predicate AreRounds(sys: System, rounds: seq<seq<Step>>, edges: set<Edge>)
    decreases |rounds|
  {
    rounds == [] || (IsRound(sys, rounds[0], edges) && AreRounds(Run(sys, rounds[0]), rounds[1..], edges))
  }

  ghost function RunRounds(sys: System, rounds: seq<seq<Step>>, edges: set<Edge>): System
    requires AreRounds(sys, rounds, edges)
    decreases |rounds|
  {
    if rounds == [] then sys else RunRounds(Run(sys, rounds[0]), rounds[1..], edges)
  }

  lemma {:induction false} NoPublishKeepsLogs(sys: System, steps: seq<Step>)
    requires Legal(sys, steps) && NoPublish(steps)
    ensures Run(sys, steps).logs == sys.logs
    decreases |steps|
  {
    if steps != [] { NoPublishKeepsLogs(Apply(sys, steps[0]), steps[1..]); }
  }

  /** The nodes that hold and have counted the whole log of o. */
  ghost function Informed(sys: System, o: Address): set<Address> {
    set n | n in sys.nodes && Knows(sys, n, o)
  }

  /** Some edge leads out of a set that is neither empty nor all. */
  lemma {:induction false} EdgeOut(path: seq<Address>, edges: set<Edge>, inside: set<Address>)
    returns (a: Address, b: Address)
    requires IsPath(path, edges) && path[0] in inside && path[|path| - 1] !in inside
    ensures Linked(a, b, edges) && a in inside && b !in inside
    decreases |path|
  {
    assert Linked(path[0], path[1], edges);
    if path[1] !in inside { return path[0], path[1]; }
    forall i | 0 <= i < |path[1..]| - 1 ensures Linked(path[1..][i], path[1..][i + 1], edges) {
      assert Linked(path[i + 1], path[i + 2], edges);
    }
    a, b := EdgeOut(path[1..], edges, inside);
  }

  lemma LearnsFrom(sys: System, steps: seq<Step>, a: Address, b: Address, o: Address)
    requires Inv(sys) && OldViews(sys) && Legal(sys, steps) && NoPublish(steps) && b in sys.nodes
    requires Knows(sys, a, o) && (a == b || Answered(sys, steps, a, b))
    ensures Knows(Run(sys, steps), b, o)
  {
    var later := Run(sys, steps);
    RunAdvances(sys, steps, b);
    RunKeepsNodes(sys, steps);
    NoPublishKeepsLogs(sys, steps);
    if a != b { AnswerJoins(sys, steps, a, b); }
    assert Get(later.nodes[b].receivedSeq, o) >= Get(sys.nodes[a].receivedSeq, o);
    StoresPrefix(later, b, o);
  }

  lemma RoundLosesNone(sys: System, steps: seq<Step>, o: Address)
    requires Inv(sys) && OldViews(sys) && Legal(sys, steps) && NoPublish(steps)
    ensures Informed(sys, o) <= Informed(Run(sys, steps), o)
  {
    hide Inv, OldViews, Knows, Legal, Run;
    RunKeepsNodes(sys, steps);
    forall n | n in Informed(sys, o) ensures n in Informed(Run(sys, steps), o) { LearnsFrom(sys, steps, n, n, o); }
  }

  /** A round loses none of the informed nodes, and informs one more if there is one. */
  lemma RoundInforms(sys: System, steps: seq<Step>, edges: set<Edge>, o: Address)
    requires Inv(sys) && OldViews(sys) && IsRound(sys, steps, edges)
    requires Connects(edges, sys.nodes.Keys) && o in sys.nodes && Knows(sys, o, o)
    ensures Knows(Run(sys, steps), o, o)
    ensures |Informed(Run(sys, steps), o)| > |Informed(sys, o)| || Informed(Run(sys, steps), o) == sys.nodes.Keys
  {
    hide Inv, OldViews, Knows, Answered, Legal, Run;
    var later := Run(sys, steps);
    RunKeepsNodes(sys, steps);
    var before, after := Informed(sys, o), Informed(later, o);
    RoundLosesNone(sys, steps, o);
    assert o in before;
    if after != sys.nodes.Keys {
      var n :| n in sys.nodes.Keys && n !in after;
      var path :| IsPathBetween(path, o, n, edges);
      var a, b := EdgeOut(path, edges, before);
      LearnsFrom(sys, steps, a, b, o);
      Grows(before, after, b);
    }
  }

  lemma Grows(before: set<Address>, after: set<Address>, b: Address)
    requires before <= after && b in after && b !in before
    ensures |after| > |before|
  {
    Subset(before, after - {b});
  }

  lemma {:induction false} Subset(a: set<Address>, b: set<Address>)
    requires a <= b
    ensures |a| <= |b|
    decreases |a|
  {
    if x :| x in a { Subset(a - {x}, b - {x}); }
  }

  lemma {:induction false} RoundsInform(sys: System, rounds: seq<seq<Step>>, edges: set<Edge>, o: Address)
    requires Inv(sys) && OldViews(sys) && AreRounds(sys, rounds, edges)
    requires Connects(edges, sys.nodes.Keys) && o in sys.nodes && Knows(sys, o, o)
    ensures var last := RunRounds(sys, rounds, edges);
      Informed(last, o) == sys.nodes.Keys || |Informed(last, o)| >= |Informed(sys, o)| + |rounds|
    decreases |rounds|
  {
    if rounds != [] {
      var later := Run(sys, rounds[0]);
      RoundInforms(sys, rounds[0], edges, o);
      RunKeeps(sys, rounds[0]);
      RunKeepsViews(sys, rounds[0]);
      RunKeepsNodes(sys, rounds[0]);
      RoundsInform(later, rounds[1..], edges, o);
      if Informed(later, o) == sys.nodes.Keys { StayInformed(later, rounds[1..], edges, o); }
    }
  }

  lemma {:induction false} StayInformed(sys: System, rounds: seq<seq<Step>>, edges: set<Edge>, o: Address)
    requires Inv(sys) && OldViews(sys) && AreRounds(sys, rounds, edges)
    requires Informed(sys, o) == sys.nodes.Keys
    ensures Informed(RunRounds(sys, rounds, edges), o) == sys.nodes.Keys
    decreases |rounds|
  {
    if rounds != [] {
      var later := Run(sys, rounds[0]);
      RunKeeps(sys, rounds[0]);
      RunKeepsViews(sys, rounds[0]);
      RunKeepsNodes(sys, rounds[0]);
      RoundLosesNone(sys, rounds[0], o);
      StayInformed(later, rounds[1..], edges, o);
    }
  }

  lemma {:induction false} RoundsKeep(sys: System, rounds: seq<seq<Step>>, edges: set<Edge>)
    requires Inv(sys) && AreRounds(sys, rounds, edges)
    ensures var last := RunRounds(sys, rounds, edges);
      Inv(last) && last.nodes.Keys == sys.nodes.Keys && last.logs == sys.logs
    decreases |rounds|
  {
    if rounds != [] {
      RunKeeps(sys, rounds[0]);
      RunKeepsNodes(sys, rounds[0]);
      NoPublishKeepsLogs(sys, rounds[0]);
      RoundsKeep(Run(sys, rounds[0]), rounds[1..], edges);
    }
  }

  /** Whatever happened before: once nobody broadcasts, N - 1 rounds over any graph that connects the N
      nodes, whatever else happens, is lost or fails in them, leave every node with every origin's full
      log, held and counted. */
  lemma {:induction false} RoundsMakeComplete(ids: set<Address>, before: seq<Step>, edges: set<Edge>,
      rounds: seq<seq<Step>>)
    requires "" !in ids && Legal(Initial(ids), before) && Connects(edges, ids)
    requires AreRounds(Run(Initial(ids), before), rounds, edges) && |rounds| + 1 >= |ids|
    ensures var sys := Run(Initial(ids), before);
      var last := RunRounds(sys, rounds, edges);
      last.logs == sys.logs && last.nodes.Keys == ids && forall n :: n in ids ==> Complete(last.nodes[n], last.logs)
  {
    hide Inv, OldViews, Complete, Knows, Legal, Run, AreRounds, RunRounds;
    var sys := Run(Initial(ids), before);
    RunIsSound(ids, before);
    InitialOk(ids);
    RunKeepsViews(Initial(ids), before);
    RoundsKeep(sys, rounds, edges);
    var last := RunRounds(sys, rounds, edges);
    forall n | n in ids ensures Complete(last.nodes[n], last.logs) {
      forall o | o in ids ensures Knows(last, n, o) {
        KnowsOwn(sys, o);
        RoundsInform(sys, rounds, edges, o);
        AllInformed(sys, last, o, |rounds|);
        assert n in Informed(last, o);
      }
      KnownIsComplete(last, n);
    }
  }

  lemma KnowsOwn(sys: System, o: Address)
    requires Inv(sys) && o in sys.nodes
    ensures Knows(sys, o, o)
  {
    StoresPrefix(sys, o, o);
  }

  lemma AllInformed(sys: System, last: System, o: Address, rounds: nat)
    requires last.nodes.Keys == sys.nodes.Keys && o in sys.nodes && Knows(sys, o, o)
    requires Informed(last, o) == sys.nodes.Keys || |Informed(last, o)| >= |Informed(sys, o)| + rounds
    requires rounds + 1 >= |sys.nodes.Keys|
    ensures Informed(last, o) == sys.nodes.Keys
  {
    assert o in Informed(sys, o);
    Subset({o}, Informed(sys, o));
    if n :| n in sys.nodes.Keys && n !in Informed(last, o) { Grows(Informed(last, o), sys.nodes.Keys, n); }
  }
}
