/** How often rumors are accepted, acknowledged and forwarded over a whole run. */
module GossipAccounting {
  import opened Prelude
  import opened Gossip
  import opened GossipSystem

  function AcceptedBy(sys: System, n: Address): seq<Rumor> {
    if n in sys.accepted then sys.accepted[n] else []
  }

  function CounterAt(sys: System, n: Address, o: Address): nat {
    if n in sys.nodes && n != o then Get(sys.nodes[n].receivedSeq, o) else 0
  }

  function Published(sys: System, o: Address): nat {
    if o in sys.logs then |sys.logs[o]| else 0
  }

  /** The counters of a node for the other origins, added up. */
  function RowSum(ids: seq<Address>, sys: System, n: Address): nat {
    SumOver(ids, o => CounterAt(sys, n, o))
  }

  function TotalAccepted(ids: seq<Address>, sys: System): nat {
    SumOver(ids, n => |AcceptedBy(sys, n)|)
  }

  /** All counters of all nodes for other origins, added up. */
  function TotalCounters(ids: seq<Address>, sys: System): nat {
    SumOver(ids, n => RowSum(ids, sys, n))
  }

  function TotalPublished(ids: seq<Address>, sys: System): nat {
    SumOver(ids, o => Published(sys, o))
  }

  /** The number of broadcasts among the steps. */
  function Publishes(steps: seq<Step>): nat {
    if steps == [] then 0 else (if steps[0].Publish? then 1 else 0) + Publishes(steps[1..])
  }

  ghost predicate Members(ids: seq<Address>, sys: System) {
    Distinct(ids) && sys.nodes.Keys == set n | n in ids
  }

  lemma {:induction false} ProjectForeign(rumors: seq<Rumor>, o: Address)
    requires forall r :: r in rumors ==> r.origin != o
    ensures Project(rumors, o) == []
  {
    if rumors != [] { ProjectForeign(rumors[1..], o); }
  }

  /** A history splits into its projections onto the origins. */
  lemma {:induction false} ProjectionsAddUp(ids: seq<Address>, rumors: seq<Rumor>)
    requires Distinct(ids) && forall r :: r in rumors ==> r.origin in ids
    ensures SumOver(ids, o => |Project(rumors, o)|) == |rumors|
    decreases |rumors|
  {
    var f := o => |Project(rumors, o)|;
    if rumors == [] {
      SumOverComplement(ids, 0, f, f);
    } else {
      var rest := rumors[1..];
      var g := o => |Project(rest, o)|;
      ProjectionsAddUp(ids, rest);
      SumOverChange(ids, rumors[0].origin, g, f);
    }
  }

  /** A node has accepted as many rumors as its counters for the other origins add up to. */
  lemma NodeAcceptsItsCounters(ids: seq<Address>, sys: System, n: Address)
    requires Inv(sys) && Members(ids, sys) && n in ids
    ensures |AcceptedBy(sys, n)| == RowSum(ids, sys, n)
  {
    var acc := sys.accepted[n];
    forall o ensures |Project(acc, o)| == CounterAt(sys, n, o) { HistoryOfOne(sys, n, o); }
    AcceptedFromMembers(sys, n);
    ProjectionsAddUp(ids, acc);
    SumOverSame(ids, o => |Project(acc, o)|, o => CounterAt(sys, n, o));
  }

  lemma AcceptedFromMembers(sys: System, n: Address)
    requires Inv(sys) && n in sys.nodes
    ensures forall r :: r in sys.accepted[n] ==> r.origin in sys.nodes
  {
    assert MemberOk(n, sys.nodes[n], sys.accepted[n], sys.logs);
  }

  /** What a node accepted of one other origin is what it counted of it. */
  lemma {:induction false} HistoryOfOne(sys: System, n: Address, o: Address)
    requires Inv(sys) && n in sys.nodes
    ensures var taken := Project(sys.accepted[n], o);
      && |taken| == CounterAt(sys, n, o)
      && (n != o ==> taken == Counted(sys.nodes[n], o) && OriginOk(sys.nodes[n], o, sys.logs))
  {
    assert MemberOk(n, sys.nodes[n], sys.accepted[n], sys.logs);
    if n == o { ProjectForeign(sys.accepted[n], n); } else { assert OriginOk(sys.nodes[n], o, sys.logs); }
  }

  /** The counters of a node for the other origins are bounded by what the others published. */
  lemma RowIsBounded(ids: seq<Address>, sys: System, n: Address)
    requires Inv(sys) && Members(ids, sys) && n in ids
    ensures RowSum(ids, sys, n) + Published(sys, n) <= TotalPublished(ids, sys)
  {
    var f := o => CounterAt(sys, n, o);
    var g := o => if o == n then 0 else Published(sys, o);
    var all := o => Published(sys, o);
    forall o | o in ids ensures f(o) <= g(o) {
      StoresPrefix(sys, n, o);
    }
    SumOverAtMost(ids, f, g);
    SumOverChange(ids, n, all, g);
  }

  lemma {:induction false} HistoryIsLogPrefix(sys: System, n: Address, o: Address)
    requires Inv(sys) && n in sys.nodes && o in sys.nodes
    ensures var taken := Project(AcceptedBy(sys, n), o);
      && |taken| == CounterAt(sys, n, o) <= |sys.logs[o]|
      && forall i :: 0 <= i < |taken| ==> taken[i] == Rumor(o, i + 1, sys.logs[o][i])
  {
    HistoryOfOne(sys, n, o);
  }

  /** Each (origin, sequence) is accepted at most once per node and in order: what a node accepted of
      another origin is exactly sequences 1, 2, ..., its counter; of its own it accepts nothing. */
  lemma {:induction false} AcceptedOnceInOrder(ids: set<Address>, steps: seq<Step>, n: Address, o: Address)
    requires "" !in ids && Legal(Initial(ids), steps) && {n, o} <= ids
    ensures var sys := Run(Initial(ids), steps);
      && n in sys.nodes && o in sys.logs
      && var taken := Project(AcceptedBy(sys, n), o);
      && |taken| == (if n == o then 0 else Get(sys.nodes[n].receivedSeq, o)) <= |sys.logs[o]|
      && forall i :: 0 <= i < |taken| ==> taken[i] == Rumor(o, i + 1, sys.logs[o][i])
  {
    RunIsSound(ids, steps);
    HistoryIsLogPrefix(Run(Initial(ids), steps), n, o);
  }

  /** The acknowledgement of an accepted rumor reports a status in which that rumor is counted, and
      when no error ends the loop there is one for each accepted rumor. */
  lemma {:induction false} AcksReportTheirRumor(s: NodeState, rumors: seq<Rumor>, relayedBy: Address,
      outs: seq<Outcome>)
    requires |outs| == |rumors|
    ensures var h := Process(s, rumors, relayedBy, outs);
      && |h.acks| <= |h.accepted| <= |h.acks| + 1
      && (!h.stopped ==> |h.acks| == |h.accepted|)
      && forall i :: 0 <= i < |h.acks| ==> Get(h.acks[i], h.accepted[i].origin) == h.accepted[i].sequence
    decreases |rumors|
  {
    hide Store, SetRoute;
    if rumors != [] {
      var one := ProcessOne(s, rumors[0], relayedBy, outs[0]);
      if !one.stopped { AcksReportTheirRumor(one.state, rumors[1..], relayedBy, outs[1..]); }
    }
  }

  // ----- counting over a run -----

  lemma {:induction false} ReceiveCounts(ids: seq<Address>, sys: System, n: Address, pkt: Packet, outs: seq<Outcome>,
      pick: Option<Address>)
    requires Inv(sys) && Members(ids, sys) && n in ids && pkt in sys.network && n in sys.accepted
    requires pkt.body.Rumors? && |outs| == |pkt.body.rumors|
    ensures var next := ReceiveRumors(sys, n, pkt, outs, pick);
      var accepted := Process(sys.nodes[n], pkt.body.rumors, pkt.relayedBy, outs).accepted;
      && TotalAccepted(ids, next) == TotalAccepted(ids, sys) + |accepted|
      && next.acks <= sys.acks + |accepted| && next.forwards <= sys.forwards + |accepted|
  {
    HandlingKeeps(sys, n, pkt, outs);
    var next := ReceiveRumors(sys, n, pkt, outs, pick);
    SumOverChange(ids, n, m => |AcceptedBy(sys, m)|, m => |AcceptedBy(next, m)|);
  }

  lemma StepCounts(ids: seq<Address>, sys: System, step: Step)
    requires Inv(sys) && Members(ids, sys) && Enabled(sys, step)
    requires sys.acks <= TotalAccepted(ids, sys) && sys.forwards <= TotalAccepted(ids, sys)
    ensures var next := Apply(sys, step);
      && next.acks <= TotalAccepted(ids, next) && next.forwards <= TotalAccepted(ids, next)
      && TotalPublished(ids, next) == TotalPublished(ids, sys) + if step.Publish? then 1 else 0
  {
    var next := Apply(sys, step);
    var n := step.node;
    if step.Receive? && step.pkt.body.Rumors? {
      ReceiveCounts(ids, sys, n, step.pkt, step.outs, step.pick);
    } else {
      SumOverSame(ids, m => |AcceptedBy(sys, m)|, m => |AcceptedBy(next, m)|);
    }
    if step.Publish? {
      SumOverChange(ids, n, o => Published(sys, o), o => Published(next, o));
    } else {
      SumOverSame(ids, o => Published(sys, o), o => Published(next, o));
    }
  }

  lemma {:induction false} RunCounts(ids: seq<Address>, sys: System, steps: seq<Step>)
    requires Inv(sys) && Members(ids, sys) && Legal(sys, steps)
    requires sys.acks <= TotalAccepted(ids, sys) && sys.forwards <= TotalAccepted(ids, sys)
    ensures var last := Run(sys, steps);
      && last.acks <= TotalAccepted(ids, last) && last.forwards <= TotalAccepted(ids, last)
      && TotalPublished(ids, last) == TotalPublished(ids, sys) + Publishes(steps)
    decreases |steps|
  {
    if steps != [] {
      StepKeeps(sys, steps[0]);
      StepCounts(ids, sys, steps[0]);
      RunCounts(ids, Apply(sys, steps[0]), steps[1..]);
    }
  }

  lemma AcceptedIsCounters(ids: seq<Address>, sys: System)
    requires Inv(sys) && Members(ids, sys)
    ensures TotalAccepted(ids, sys) == TotalCounters(ids, sys)
  {
    hide Inv, RowSum;
    forall n | n in ids ensures |AcceptedBy(sys, n)| == RowSum(ids, sys, n) { NodeAcceptsItsCounters(ids, sys, n); }
    SumOverSame(ids, n => |AcceptedBy(sys, n)|, n => RowSum(ids, sys, n));
  }

  /** What the others than n published. */
  function PublishedByOthers(ids: seq<Address>, sys: System, n: Address): nat {
    if Published(sys, n) <= TotalPublished(ids, sys) then TotalPublished(ids, sys) - Published(sys, n) else 0
  }

  lemma CountersAreBounded(ids: seq<Address>, sys: System)
    requires Inv(sys) && Members(ids, sys) && ids != []
    ensures TotalCounters(ids, sys) <= TotalPublished(ids, sys) * (|ids| - 1)
  {
    hide Inv, RowSum;
    var k := TotalPublished(ids, sys);
    forall n | n in ids
      ensures RowSum(ids, sys, n) <= PublishedByOthers(ids, sys, n) &&
                Published(sys, n) + PublishedByOthers(ids, sys, n) == k
    {
      RowIsBounded(ids, sys, n);
    }
    SumOverAtMost(ids, n => RowSum(ids, sys, n), n => PublishedByOthers(ids, sys, n));
    SumOverComplement(ids, k, n => Published(sys, n), n => PublishedByOthers(ids, sys, n));
    assert k * (|ids| - 1) == |ids| * k - k;
  }

  lemma NothingPublishedYet(ids: seq<Address>, start: set<Address>)
    ensures TotalPublished(ids, Initial(start)) == 0
  {
    var none := o => Published(Initial(start), o);
    SumOverComplement(ids, 0, none, none);
  }

  /** Over any run of N nodes with K broadcasts, all acceptances together are the sum over the nodes
      of their counters for the other origins, and at most K * (N - 1); acknowledgements sent and
      packets forwarded for rumors are no more than that, however often packets are duplicated. */
  lemma {:induction false} AcceptancesAreBounded(ids: seq<Address>, steps: seq<Step>)
    requires ids != [] && Distinct(ids) && "" !in ids
    requires Legal(Initial(set n | n in ids), steps)
    ensures var sys := Run(Initial(set n | n in ids), steps);
      && TotalAccepted(ids, sys) == TotalCounters(ids, sys)
      && TotalAccepted(ids, sys) <= Publishes(steps) * (|ids| - 1)
      && sys.acks <= TotalAccepted(ids, sys)
      && sys.forwards <= TotalAccepted(ids, sys)
  {
    hide Legal, Run, Inv, TotalCounters, TotalAccepted, TotalPublished;
    var start := set n | n in ids;
    RunIsSound(start, steps);
    InitialOk(start);
    NothingPublishedYet(ids, start);
    RunCounts(ids, Initial(start), steps);
    AcceptedIsCounters(ids, Run(Initial(start), steps));
    CountersAreBounded(ids, Run(Initial(start), steps));
  }
}
