/** N gossiping nodes over a network that may lose, duplicate and reorder packets: every packet ever
    sent stays in the network and may be delivered any number of times, or never. */
module GossipSystem {
  import opened Prelude
  import opened Gossip

  /** What each node has broadcast so far. */
  type Logs = map<Address, seq<Message>>

  /** The ghost part records what happened: each node's broadcasts, the rumors each node accepted in
      order, and how many acknowledgements and forwarded packets were sent for rumors. */
  datatype System = System(
    nodes: map<Address, NodeState>,
    network: set<Packet>,
    logs: Logs,
    accepted: map<Address, seq<Rumor>>,
    acks: nat,
    forwards: nat)

  datatype Step =
    | AddPeer(node: Address, peers: seq<Address>)
    | Publish(node: Address, msg: Message)
    /** The routine started by a broadcast sends the rumor to a direct peer, at any later time. */
    | SendOwn(node: Address, index: nat, to: Address)
    | SendStatus(node: Address, to: Address)
    | Receive(node: Address, pkt: Packet, outs: seq<Outcome>, order: seq<Address>, pick: Option<Address>)
    /** An acknowledgement did not come in time: the same rumors go to another neighbor. */
    | Resend(node: Address, pkt: Packet, to: Address)
    | Relay(node: Address, pkt: Packet)

  function Initial(ids: set<Address>): System {
    System(map n | n in ids :: InitialNode(n), {}, map n | n in ids :: [], map n | n in ids :: [], 0, 0)
  }

  ghost predicate Enabled(sys: System, step: Step) {
    && step.node in sys.nodes && step.node in sys.logs && step.node in sys.accepted
    && var s := sys.nodes[step.node];
    match step
    case AddPeer(_, _) => true
    case Publish(_, _) => true
    case SendOwn(n, index, to) => index < |Stored(s, n)| && to in s.directPeers
    case SendStatus(_, to) => to in s.directPeers
    case Receive(n, pkt, outs, order, pick) =>
      && pkt in sys.network && pkt.destination == n
      && (pick.Some? ==> pick.value in OtherNeighbors(s, pkt.source))
      && (match pkt.body
          case Rumors(rumors) => |outs| == |rumors|
          case Status(view) => Lists(order, Compare(s, view).missing)
          case Ack(view) => Lists(order, Compare(s, view).missing))
    case Resend(n, pkt, to) =>
      pkt in sys.network && pkt.source == n && pkt.body.Rumors? && to in OtherNeighbors(s, pkt.destination)
    case Relay(n, pkt) => pkt in sys.network && pkt.destination != n
  }

  function Send(sys: System, sent: set<Packet>): System {
    sys.(network := sys.network + sent)
  }

  /** What handling a rumors message sends: the acknowledgements and perhaps the forwarded message. */
  function RumorPackets(n: Address, pkt: Packet, h: Handling, pick: Option<Address>): set<Packet> {
    var forward := Forwarded(n, pkt, h, pick);
    (set p | p in AckPackets(n, pkt.source, h.acks)) + if forward.Some? then {forward.value} else {}
  }

  function ReceiveRumors(sys: System, n: Address, pkt: Packet, outs: seq<Outcome>, pick: Option<Address>): System
    requires n in sys.nodes && n in sys.accepted
    requires pkt.body.Rumors? && |outs| == |pkt.body.rumors|
  {
    var h := Process(sys.nodes[n], pkt.body.rumors, pkt.relayedBy, outs);
    System(sys.nodes[n := h.state],
           sys.network + RumorPackets(n, pkt, h, pick),
           sys.logs,
           sys.accepted[n := sys.accepted[n] + h.accepted],
           sys.acks + |h.acks|,
           sys.forwards + if Forwarded(n, pkt, h, pick).Some? then 1 else 0)
  }

  function Apply(sys: System, step: Step): System
    requires Enabled(sys, step)
  {
    var n := step.node;
    var s := sys.nodes[n];
    match step
    case AddPeer(_, peers) => sys.(nodes := sys.nodes[n := AddPeers(s, peers)])
    case Publish(_, msg) =>
      sys.(nodes := sys.nodes[n := Broadcast(s, msg)], logs := sys.logs[n := sys.logs[n] + [msg]])
    case SendOwn(_, index, to) => Send(sys, {Packet(n, n, to, Rumors([Stored(s, n)[index]]))})
    case SendStatus(_, to) => Send(sys, {Packet(n, n, to, Status(s.receivedSeq))})
    case Receive(_, pkt, outs, order, pick) =>
      (match pkt.body
       case Rumors(_) => ReceiveRumors(sys, n, pkt, outs, pick)
       case Status(view) => Send(sys, set p | p in Replies(s, pkt.source, Compare(s, view), order, pick))
       case Ack(view) => Send(sys, set p | p in Replies(s, pkt.source, Compare(s, view), order, pick)))
    case Resend(_, pkt, to) => Send(sys, {Packet(n, n, to, pkt.body)})
    case Relay(_, pkt) => Send(sys, {pkt.(relayedBy := n)})
  }

  ghost predicate Legal(sys: System, steps: seq<Step>)
    decreases |steps|
  {
    steps == [] || (Enabled(sys, steps[0]) && Legal(Apply(sys, steps[0]), steps[1..]))
  }

  ghost function Run(sys: System, steps: seq<Step>): System
    requires Legal(sys, steps)
    decreases |steps|
  {
    if steps == [] then sys else Run(Apply(sys, steps[0]), steps[1..])
  }

  // ----- the invariant -----

  /** db holds sequences 1, 2, 3, ... and is a prefix of what origin broadcast. */
  ghost predicate IsPrefixOfLog(db: seq<Rumor>, origin: Address, msgs: seq<Message>) {
    |db| <= |msgs| && forall i :: 0 <= i < |db| ==> db[i] == Rumor(origin, i + 1, msgs[i])
  }

  /** What is stored for one origin: one rumor at most beyond the counter, and nothing uncounted
      for an origin that was never seen. */
  ghost predicate OriginOk(s: NodeState, o: Address, logs: Logs) {
    && (o in s.receivedSeq ==> o in s.rumorDB && 1 <= s.receivedSeq[o])
    && (o in s.rumorDB ==> o in logs && IsPrefixOfLog(s.rumorDB[o], o, logs[o]))
    && Get(s.receivedSeq, o) <= |Stored(s, o)| <= Get(s.receivedSeq, o) + 1
  }

  ghost predicate NodeOk(s: NodeState, logs: Logs) {
    && s.self in logs
    && s.seqNumber == Get(s.receivedSeq, s.self) == |logs[s.self]|
    && forall o :: OriginOk(s, o, logs)
  }

  /** The routing table knows self, the direct peers and the origins with a counter, and no one else;
      who is not a direct peer is reached through a node of the system. */
  ghost predicate RoutesOk(s: NodeState, logs: Logs) {
    && s.routes.Keys == {s.self} + s.directPeers + s.receivedSeq.Keys
    && s.routes[s.self] == s.self && s.self !in s.directPeers
    && (forall p :: p in s.directPeers ==> s.routes[p] == p)
    && forall a :: a in s.routes ==> a in s.directPeers || s.routes[a] in logs
  }

  ghost predicate RumorOk(r: Rumor, logs: Logs) {
    r.origin in logs && 1 <= r.sequence <= |logs[r.origin]| && r.msg == logs[r.origin][r.sequence - 1]
  }

  ghost predicate ViewOk(view: View, logs: Logs) {
    forall o :: o in view ==> o in logs && 1 <= view[o] <= |logs[o]|
  }

  ghost predicate PacketOk(pkt: Packet, logs: Logs) {
    && pkt.relayedBy in logs
    && match pkt.body
       case Rumors(rumors) => forall r :: r in rumors ==> RumorOk(r, logs)
       case Status(view) => ViewOk(view, logs)
       case Ack(view) => ViewOk(view, logs)
  }

  /** The rumors of one origin, in order. */
  function Project(rumors: seq<Rumor>, origin: Address): seq<Rumor> {
    if rumors == [] then []
    else (if rumors[0].origin == origin then [rumors[0]] else []) + Project(rumors[1..], origin)
  }

  /** The first c stored rumors of an origin, c being its counter. */
  ghost function Counted(s: NodeState, origin: Address): seq<Rumor> {
    var c := Get(s.receivedSeq, origin);
    if c <= |Stored(s, origin)| then Stored(s, origin)[..c] else []
  }

  /** The rumors a node accepted of another origin are exactly the counted ones, once each and in
      order; of its own it accepted none. */
  ghost predicate HistoryOk(s: NodeState, accepted: seq<Rumor>, logs: Logs) {
    && (forall r :: r in accepted ==> r.origin in logs && r.origin != s.self)
    && forall o :: o != s.self ==> Project(accepted, o) == Counted(s, o)
  }

  ghost predicate MemberOk(n: Address, s: NodeState, accepted: seq<Rumor>, logs: Logs) {
    s.self == n && NodeOk(s, logs) && RoutesOk(s, logs) && HistoryOk(s, accepted, logs)
  }

  ghost predicate MembersOk(nodes: map<Address, NodeState>, accepted: map<Address, seq<Rumor>>, logs: Logs) {
    && nodes.Keys == accepted.Keys
    && forall n {:trigger MemberOk(n, nodes[n], accepted[n], logs)} :: n in nodes ==>
              MemberOk(n, nodes[n], accepted[n], logs)
  }

  ghost predicate NetworkOk(network: set<Packet>, logs: Logs) {
    forall p {:trigger PacketOk(p, logs)} :: p in network ==> PacketOk(p, logs)
  }

  ghost predicate Inv(sys: System) {
    && sys.nodes.Keys == sys.logs.Keys == sys.accepted.Keys && "" !in sys.nodes
    && MembersOk(sys.nodes, sys.accepted, sys.logs)
    && NetworkOk(sys.network, sys.logs)
  }

  // ----- what one node's operations keep -----

  ghost predicate Extends(longer: Logs, logs: Logs) {
    && logs.Keys == longer.Keys
    && forall o :: o in logs ==> logs[o] <= longer[o]
  }

  lemma ExtendsOne(logs: Logs, n: Address, log: seq<Message>)
    requires n in logs && logs[n] <= log
    ensures Extends(logs[n := log], logs)
  {
  }

  lemma PacketKept(pkt: Packet, logs: Logs, longer: Logs)
    requires PacketOk(pkt, logs) && Extends(longer, logs)
    ensures PacketOk(pkt, longer)
  {
    if pkt.body.Rumors? {
      forall r | r in pkt.body.rumors ensures RumorOk(r, longer) {
        assert logs[r.origin] <= longer[r.origin];
      }
    }
  }

  /** Storing the next rumor of an origin, stored already or not. */
  lemma InsertNext(db: seq<Rumor>, o: Address, msgs: seq<Message>, c: nat)
    requires IsPrefixOfLog(db, o, msgs) && c <= |db| <= c + 1 && c < |msgs|
    ensures IsPrefixOfLog(Insert(db, Rumor(o, c + 1, msgs[c])), o, msgs)
    ensures |Insert(db, Rumor(o, c + 1, msgs[c]))| == c + 1
    ensures Insert(db, Rumor(o, c + 1, msgs[c]))[..c] == db[..c]
  {
    InsertAt(db, Rumor(o, c + 1, msgs[c]), c);
  }

  lemma StoreKeeps(s: NodeState, r: Rumor, logs: Logs)
    requires NodeOk(s, logs) && RumorOk(r, logs) && Expected(s, r)
    ensures r.origin != s.self
    ensures NodeOk(Store(s, r), logs)
    ensures |Stored(Store(s, r), r.origin)| == r.sequence
    ensures forall o :: Counted(Store(s, r), o) == Counted(s, o)
  {
    var c := Get(s.receivedSeq, r.origin);
    assert OriginOk(s, r.origin, logs);
    InsertNext(Stored(s, r.origin), r.origin, logs[r.origin], c);
    forall o ensures OriginOk(Store(s, r), o, logs) && Counted(Store(s, r), o) == Counted(s, o) {
      assert OriginOk(s, o, logs);
    }
  }

  lemma CountKeeps(s: NodeState, r: Rumor, relayedBy: Address, logs: Logs)
    requires NodeOk(s, logs) && RumorOk(r, logs) && Expected(s, r)
    requires |Stored(s, r.origin)| == r.sequence && r.origin != s.self
    ensures NodeOk(Count(s, r, relayedBy), logs)
    ensures forall o :: Counted(Count(s, r, relayedBy), o) == Counted(s, o) + Project([r], o)
  {
    var s' := Count(s, r, relayedBy);
    var db := Stored(s, r.origin);
    var c := Get(s.receivedSeq, r.origin);
    assert OriginOk(s, r.origin, logs);
    assert db[..c + 1] == db[..c] + [db[c]];
    forall o ensures OriginOk(s', o, logs) && Counted(s', o) == Counted(s, o) + Project([r], o) {
      assert OriginOk(s, o, logs);
    }
  }

  /** What handling rumors keeps and does: the node stays sound, its counted rumors grow by exactly
      the accepted ones, and only views of broadcast rumors are acknowledged. */
  ghost predicate HandlingOk(s: NodeState, h: Handling, logs: Logs) {
    && h.state.self == s.self && NodeOk(h.state, logs) && RoutesOk(h.state, logs)
    && (forall r :: r in h.accepted ==> r.origin in logs && r.origin != s.self)
    && (forall o :: Counted(h.state, o) == Counted(s, o) + Project(h.accepted, o))
    && (forall v :: v in h.acks ==> ViewOk(v, logs))
    && |h.acks| <= |h.accepted|
  }

  lemma OneKeeps(s: NodeState, r: Rumor, relayedBy: Address, out: Outcome, logs: Logs)
    requires relayedBy in logs && "" !in logs && NodeOk(s, logs) && RoutesOk(s, logs) && RumorOk(r, logs)
    ensures HandlingOk(s, ProcessOne(s, r, relayedBy, out), logs)
  {
    if Expected(s, r) {
      StoreKeeps(s, r, logs);
      CountKeeps(Store(s, r), r, relayedBy, logs);
      ViewsOk(Count(Store(s, r), r, relayedBy), logs);
    }
  }

  lemma PrependOk(s: NodeState, one: Handling, rest: Handling, logs: Logs)
    requires HandlingOk(s, one, logs) && HandlingOk(one.state, rest, logs)
    ensures HandlingOk(s, Prepend(one.accepted, one.acks, rest), logs)
  {
    forall o ensures Counted(rest.state, o) == Counted(s, o) + Project(one.accepted + rest.accepted, o) {
      ProjectConcat(one.accepted, rest.accepted, o);
    }
  }

  lemma ViewsOk(s: NodeState, logs: Logs)
    requires NodeOk(s, logs)
    ensures ViewOk(s.receivedSeq, logs)
  {
    forall o | o in s.receivedSeq ensures o in logs && 1 <= s.receivedSeq[o] <= |logs[o]| {
      assert OriginOk(s, o, logs);
    }
  }

  /** Handling any rumors that were really broadcast keeps the node's invariant, and adds to the
      counted rumors of each origin exactly the accepted ones. */
  lemma {:induction false} ProcessKeeps(s: NodeState, rumors: seq<Rumor>, relayedBy: Address, outs: seq<Outcome>,
      logs: Logs)
    requires |outs| == |rumors| && relayedBy in logs && "" !in logs
    requires NodeOk(s, logs) && RoutesOk(s, logs) && forall r :: r in rumors ==> RumorOk(r, logs)
    ensures HandlingOk(s, Process(s, rumors, relayedBy, outs), logs)
    decreases |rumors|
  {
    if rumors != [] {
      OneKeeps(s, rumors[0], relayedBy, outs[0], logs);
      var one := ProcessOne(s, rumors[0], relayedBy, outs[0]);
      if !one.stopped {
        ProcessKeeps(one.state, rumors[1..], relayedBy, outs[1..], logs);
        PrependOk(s, one, Process(one.state, rumors[1..], relayedBy, outs[1..]), logs);
      }
    }
  }

  lemma {:induction false} ProjectConcat(a: seq<Rumor>, b: seq<Rumor>, o: Address)
    ensures Project(a + b, o) == Project(a, o) + Project(b, o)
  {
    if a == [] {
      assert a + b == b;
    } else {
      assert (a + b)[1..] == a[1..] + b;
      ProjectConcat(a[1..], b, o);
    }
  }

  // ----- what every step of the system keeps -----

  lemma StoredRumorsOk(s: NodeState, o: Address, logs: Logs)
    requires NodeOk(s, logs)
    ensures forall r :: r in Stored(s, o) ==> RumorOk(r, logs)
  {
    assert OriginOk(s, o, logs);
  }

  lemma {:induction false} MissingAreStored(db: seq<Rumor>, lo: nat, hi: nat)
    ensures forall r :: r in Missing(db, lo, hi) ==> r in db
  {
    if db != [] { MissingAreStored(db[1..], lo, hi); }
  }

  lemma {:induction false} FlattenedOk(order: seq<Address>, missing: map<Address, seq<Rumor>>, logs: Logs)
    requires forall o :: o in order ==> o in missing
    requires forall o, r :: o in missing && r in missing[o] ==> RumorOk(r, logs)
    ensures forall r :: r in Flatten(order, missing) ==> RumorOk(r, logs)
  {
    if order != [] { FlattenedOk(order[1..], missing, logs); }
  }

  /** Everything a node answers to a status carries only broadcast rumors and sound views. */
  lemma RepliesOk(s: NodeState, source: Address, view: View, order: seq<Address>, onward: Option<Address>, logs: Logs)
    requires NodeOk(s, logs) && Lists(order, Compare(s, view).missing)
    ensures forall p :: p in Replies(s, source, Compare(s, view), order, onward) ==> PacketOk(p, logs)
  {
    ViewsOk(s, logs);
    var missing := Compare(s, view).missing;
    forall o, r | o in missing && r in missing[o] ensures RumorOk(r, logs) {
      MissingAreStored(Stored(s, o), Get(view, o) + 1, Get(s.receivedSeq, o));
      StoredRumorsOk(s, o, logs);
    }
    FlattenedOk(order, missing, logs);
  }

  lemma {:induction false} AddPeersKeeps(s: NodeState, addrs: seq<Address>, logs: Logs)
    requires NodeOk(s, logs) && RoutesOk(s, logs)
    ensures var s' := AddPeers(s, addrs);
      && s'.self == s.self && NodeOk(s', logs) && RoutesOk(s', logs)
      && s'.rumorDB == s.rumorDB && s'.receivedSeq == s.receivedSeq
    decreases |addrs|
  {
    if addrs != [] {
      var a := addrs[0];
      var s1 := if a == s.self then s
                else s.(directPeers := s.directPeers + {a}, routes := s.routes[a := a]);
      forall o ensures OriginOk(s1, o, logs) { assert OriginOk(s, o, logs); }
      AddPeersKeeps(s1, addrs[1..], logs);
    }
  }

  lemma MemberKept(n: Address, s: NodeState, accepted: seq<Rumor>, logs: Logs, longer: Logs)
    requires MemberOk(n, s, accepted, logs) && Extends(longer, logs) && longer[n] == logs[n]
    ensures MemberOk(n, s, accepted, longer)
  {
    forall o ensures OriginOk(s, o, longer) {
      assert OriginOk(s, o, logs);
      if o in s.rumorDB {
        assert logs[o] <= longer[o];
      }
    }
  }

  lemma PublisherKept(n: Address, s: NodeState, accepted: seq<Rumor>, logs: Logs, msg: Message)
    requires MemberOk(n, s, accepted, logs)
    ensures MemberOk(n, Broadcast(s, msg), accepted, logs[n := logs[n] + [msg]])
  {
    var logs' := logs[n := logs[n] + [msg]];
    var s' := Broadcast(s, msg);
    assert OriginOk(s, n, logs);
    InsertNext(Stored(s, n), n, logs'[n], |logs[n]|);
    forall o ensures OriginOk(s', o, logs') && (o != n ==> Counted(s', o) == Counted(s, o)) {
      assert OriginOk(s, o, logs);
    }
  }

  lemma HistoryGrows(s: NodeState, h: Handling, accepted: seq<Rumor>, logs: Logs)
    requires HistoryOk(s, accepted, logs) && HandlingOk(s, h, logs)
    ensures HistoryOk(h.state, accepted + h.accepted, logs)
  {
    forall o | o != s.self ensures Project(accepted + h.accepted, o) == Counted(h.state, o) {
      ProjectConcat(accepted, h.accepted, o);
    }
  }

  lemma MembersKept(nodes: map<Address, NodeState>, accepted: map<Address, seq<Rumor>>, logs: Logs,
                    n: Address, s: NodeState, acc: seq<Rumor>, log: seq<Message>)
    requires MembersOk(nodes, accepted, logs) && nodes.Keys == logs.Keys && n in nodes && logs[n] <= log
    requires MemberOk(n, s, acc, logs[n := log])
    ensures MembersOk(nodes[n := s], accepted[n := acc], logs[n := log])
  {
    var nodes', accepted', longer := nodes[n := s], accepted[n := acc], logs[n := log];
    ExtendsOne(logs, n, log);
    forall m | m in nodes' ensures m in accepted' && MemberOk(m, nodes'[m], accepted'[m], longer) {
      if m != n {
        MemberKept(m, nodes[m], accepted[m], logs, longer);
      }
    }
  }

  lemma NetworkKept(network: set<Packet>, logs: Logs, longer: Logs)
    requires NetworkOk(network, logs) && Extends(longer, logs)
    ensures NetworkOk(network, longer)
  {
    forall p | p in network ensures PacketOk(p, longer) { PacketKept(p, logs, longer); }
  }

  lemma NetworksJoin(a: set<Packet>, b: set<Packet>, logs: Logs)
    requires NetworkOk(a, logs) && NetworkOk(b, logs)
    ensures NetworkOk(a + b, logs)
  {
    forall p | p in a + b ensures PacketOk(p, logs) {
      if p in a {} else {}
    }
  }

  /** One node changes, its log perhaps grows, packets are added: the rest of the system stays sound. */
  lemma UpdateKeeps(sys: System, n: Address, s: NodeState, accepted: seq<Rumor>, log: seq<Message>,
                    sent: set<Packet>, acks: nat, forwards: nat)
    requires Inv(sys) && n in sys.nodes && sys.logs[n] <= log
    requires MemberOk(n, s, accepted, sys.logs[n := log])
    requires NetworkOk(sent, sys.logs[n := log])
    ensures Inv(System(sys.nodes[n := s], sys.network + sent,
                       sys.logs[n := log], sys.accepted[n := accepted], acks, forwards))
    ensures Extends(sys.logs[n := log], sys.logs)
  {
    var logs := sys.logs[n := log];
    ExtendsOne(sys.logs, n, log);
    MembersKept(sys.nodes, sys.accepted, sys.logs, n, s, accepted, log);
    NetworkKept(sys.network, sys.logs, logs);
    NetworksJoin(sys.network, sent, logs);
    var sys' := System(sys.nodes[n := s], sys.network + sent, logs, sys.accepted[n := accepted], acks, forwards);
    assert MembersOk(sys'.nodes, sys'.accepted, sys'.logs);
    assert NetworkOk(sys'.network, sys'.logs);
    assert sys'.nodes.Keys == sys'.logs.Keys == sys'.accepted.Keys;
  }

  lemma UpdateNodeKeeps(sys: System, n: Address, s: NodeState, accepted: seq<Rumor>, sent: set<Packet>, acks: nat,
      forwards: nat)
    requires Inv(sys) && n in sys.nodes
    requires MemberOk(n, s, accepted, sys.logs) && NetworkOk(sent, sys.logs)
    ensures Inv(System(sys.nodes[n := s], sys.network + sent, sys.logs, sys.accepted[n := accepted], acks, forwards))
  {
    assert sys.logs[n := sys.logs[n]] == sys.logs;
    UpdateKeeps(sys, n, s, accepted, sys.logs[n], sent, acks, forwards);
  }

  lemma PublishKeeps(sys: System, n: Address, msg: Message)
    requires Inv(sys) && n in sys.nodes
    ensures var logs := sys.logs[n := sys.logs[n] + [msg]];
      && Inv(sys.(nodes := sys.nodes[n := Broadcast(sys.nodes[n], msg)], logs := logs))
      && Extends(logs, sys.logs)
  {
    PublisherKept(n, sys.nodes[n], sys.accepted[n], sys.logs, msg);
    UpdateKeeps(sys, n, Broadcast(sys.nodes[n], msg), sys.accepted[n], sys.logs[n] + [msg], {}, sys.acks, sys.forwards);
    assert sys.accepted[n := sys.accepted[n]] == sys.accepted && sys.network + {} == sys.network;
  }

  lemma {:induction false} HandlingKeeps(sys: System, n: Address, pkt: Packet, outs: seq<Outcome>)
    requires Inv(sys) && n in sys.nodes && pkt in sys.network
    requires pkt.body.Rumors? && |outs| == |pkt.body.rumors|
    ensures var h := Process(sys.nodes[n], pkt.body.rumors, pkt.relayedBy, outs);
      && HandlingOk(sys.nodes[n], h, sys.logs)
      && MemberOk(n, h.state, sys.accepted[n] + h.accepted, sys.logs)
  {
    var s := sys.nodes[n];
    assert MemberOk(n, s, sys.accepted[n], sys.logs) && PacketOk(pkt, sys.logs);
    ProcessKeeps(s, pkt.body.rumors, pkt.relayedBy, outs, sys.logs);
    HistoryGrows(s, Process(s, pkt.body.rumors, pkt.relayedBy, outs), sys.accepted[n], sys.logs);
  }

  lemma RumorPacketsOk(n: Address, pkt: Packet, h: Handling, pick: Option<Address>, logs: Logs)
    requires n in logs && PacketOk(pkt, logs) && forall v :: v in h.acks ==> ViewOk(v, logs)
    ensures NetworkOk(RumorPackets(n, pkt, h, pick), logs)
  {
    forall p | p in AckPackets(n, pkt.source, h.acks) ensures PacketOk(p, logs) {
      var i :| 0 <= i < |h.acks| && p == AckPackets(n, pkt.source, h.acks)[i];
      assert h.acks[i] in h.acks;
    }
  }

  lemma ReceiveRumorsKeeps(sys: System, n: Address, pkt: Packet, outs: seq<Outcome>, pick: Option<Address>)
    requires Inv(sys) && n in sys.nodes && pkt in sys.network
    requires pkt.body.Rumors? && |outs| == |pkt.body.rumors|
    ensures Inv(ReceiveRumors(sys, n, pkt, outs, pick))
  {
    HandlingKeeps(sys, n, pkt, outs);
    var h := Process(sys.nodes[n], pkt.body.rumors, pkt.relayedBy, outs);
    RumorPacketsOk(n, pkt, h, pick, sys.logs);
    var sys' := ReceiveRumors(sys, n, pkt, outs, pick);
    var sent := RumorPackets(n, pkt, h, pick);
    UpdateNodeKeeps(sys, n, h.state, sys.accepted[n] + h.accepted, sent, sys'.acks, sys'.forwards);
  }

  lemma ReceiveStatusKeeps(sys: System, n: Address, source: Address, view: View, order: seq<Address>,
      pick: Option<Address>)
    requires Inv(sys) && n in sys.nodes && Lists(order, Compare(sys.nodes[n], view).missing)
    ensures Inv(Send(sys, set p | p in Replies(sys.nodes[n], source, Compare(sys.nodes[n], view), order, pick)))
  {
    assert MemberOk(n, sys.nodes[n], sys.accepted[n], sys.logs);
    RepliesOk(sys.nodes[n], source, view, order, pick, sys.logs);
  }

  lemma SendOwnKeeps(sys: System, n: Address, index: nat, to: Address)
    requires Inv(sys) && n in sys.nodes && index < |Stored(sys.nodes[n], n)|
    ensures Inv(Send(sys, {Packet(n, n, to, Rumors([Stored(sys.nodes[n], n)[index]]))}))
  {
    assert MemberOk(n, sys.nodes[n], sys.accepted[n], sys.logs);
    StoredRumorsOk(sys.nodes[n], n, sys.logs);
  }

  lemma {:induction false} PeeringMemberKept(n: Address, s: NodeState, peers: seq<Address>, accepted: seq<Rumor>,
      logs: Logs)
    requires MemberOk(n, s, accepted, logs)
    ensures MemberOk(n, AddPeers(s, peers), accepted, logs)
  {
    AddPeersKeeps(s, peers, logs);
    forall o ensures Counted(AddPeers(s, peers), o) == Counted(s, o) {}
  }

  lemma {:induction false} AddPeerKeeps(sys: System, n: Address, peers: seq<Address>)
    requires Inv(sys) && n in sys.nodes
    ensures Inv(sys.(nodes := sys.nodes[n := AddPeers(sys.nodes[n], peers)]))
  {
    PeeringMemberKept(n, sys.nodes[n], peers, sys.accepted[n], sys.logs);
    UpdateNodeKeeps(sys, n, AddPeers(sys.nodes[n], peers), sys.accepted[n], {}, sys.acks, sys.forwards);
    assert sys.accepted[n := sys.accepted[n]] == sys.accepted && sys.network + {} == sys.network;
  }

  lemma ReceiveKeeps(sys: System, step: Step)
    requires Inv(sys) && Enabled(sys, step) && step.Receive?
    ensures Inv(Apply(sys, step)) && Apply(sys, step).logs == sys.logs
  {
    var Receive(n, pkt, outs, order, pick) := step;
    if pkt.body.Rumors? {
      ReceiveRumorsKeeps(sys, n, pkt, outs, pick);
    } else {
      ReceiveStatusKeeps(sys, n, pkt.source, pkt.body.view, order, pick);
    }
  }

  lemma SendStatusKeeps(sys: System, n: Address, to: Address)
    requires Inv(sys) && n in sys.nodes
    ensures Inv(Send(sys, {Packet(n, n, to, Status(sys.nodes[n].receivedSeq))}))
  {
    assert MemberOk(n, sys.nodes[n], sys.accepted[n], sys.logs);
    ViewsOk(sys.nodes[n], sys.logs);
  }

  lemma AgainKeeps(sys: System, n: Address, pkt: Packet, to: Address)
    requires Inv(sys) && n in sys.nodes && pkt in sys.network
    ensures Inv(Send(sys, {Packet(n, n, to, pkt.body)})) && Inv(Send(sys, {pkt.(relayedBy := n)}))
  {
    assert PacketOk(pkt, sys.logs);
  }

  /** Every step keeps the invariant, and logs only grow at their end. */
  lemma StepKeeps(sys: System, step: Step)
    requires Inv(sys) && Enabled(sys, step)
    ensures Inv(Apply(sys, step)) && Extends(Apply(sys, step).logs, sys.logs)
  {
    match step
    case AddPeer(n, peers) => AddPeerKeeps(sys, n, peers);
    case Publish(n, msg) => PublishKeeps(sys, n, msg);
    case SendOwn(n, index, to) => SendOwnKeeps(sys, n, index, to);
    case SendStatus(n, to) => SendStatusKeeps(sys, n, to);
    case Receive(_, _, _, _, _) => ReceiveKeeps(sys, step);
    case Resend(n, pkt, to) => AgainKeeps(sys, n, pkt, to);
    case Relay(n, pkt) => AgainKeeps(sys, n, pkt, n);
  }

  lemma {:induction false} RunKeeps(sys: System, steps: seq<Step>)
    requires Inv(sys) && Legal(sys, steps)
    ensures Inv(Run(sys, steps)) && Extends(Run(sys, steps).logs, sys.logs)
    decreases |steps|
  {
    if steps != [] {
      StepKeeps(sys, steps[0]);
      var next := Apply(sys, steps[0]);
      RunKeeps(next, steps[1..]);
      ExtendsTransitively(Run(sys, steps).logs, next.logs, sys.logs);
    }
  }

  lemma {:induction false} RunKeepsNodes(sys: System, steps: seq<Step>)
    requires Legal(sys, steps)
    ensures Run(sys, steps).nodes.Keys == sys.nodes.Keys && Run(sys, steps).logs.Keys == sys.logs.Keys
    decreases |steps|
  {
    if steps != [] { RunKeepsNodes(Apply(sys, steps[0]), steps[1..]); }
  }

  lemma ExtendsTransitively(longest: Logs, longer: Logs, logs: Logs)
    requires Extends(longest, longer) && Extends(longer, logs)
    ensures Extends(longest, logs)
  {
  }

  lemma InitialOk(ids: set<Address>)
    requires "" !in ids
    ensures Inv(Initial(ids))
  {
    var sys := Initial(ids);
    forall n | n in ids ensures MemberOk(n, sys.nodes[n], sys.accepted[n], sys.logs) {
      forall o ensures OriginOk(sys.nodes[n], o, sys.logs) {}
    }
  }

  // ----- safety over every run -----

  lemma {:induction false} RunIsSound(ids: set<Address>, steps: seq<Step>)
    requires "" !in ids && Legal(Initial(ids), steps)
    ensures var sys := Run(Initial(ids), steps);
      Inv(sys) && sys.nodes.Keys == sys.logs.Keys == ids
  {
    InitialOk(ids);
    RunKeeps(Initial(ids), steps);
    RunKeepsNodes(Initial(ids), steps);
  }

  lemma StoresPrefix(sys: System, n: Address, o: Address)
    requires Inv(sys) && n in sys.nodes && o in sys.nodes
    ensures var db, c := Stored(sys.nodes[n], o), Get(sys.nodes[n].receivedSeq, o);
      && IsPrefixOfLog(db, o, sys.logs[o]) && c <= |db| <= c + 1
      && c <= Get(sys.nodes[o].receivedSeq, o) == |sys.logs[o]| == sys.nodes[o].seqNumber
  {
    assert MemberOk(n, sys.nodes[n], sys.accepted[n], sys.logs);
    assert MemberOk(o, sys.nodes[o], sys.accepted[o], sys.logs);
    assert OriginOk(sys.nodes[n], o, sys.logs);
  }

  /** In every run each node's database for an origin is a prefix of what that origin broadcast, as
      long as its counter or one longer, and any two nodes agree wherever both have an entry; no
      counter exceeds the origin's own. */
  lemma {:induction false} LogsAreSafe(ids: set<Address>, steps: seq<Step>, n: Address, m: Address, o: Address)
    requires "" !in ids && Legal(Initial(ids), steps) && {n, m, o} <= ids
    ensures var sys := Run(Initial(ids), steps);
      && sys.nodes.Keys == ids == sys.logs.Keys
      && var db, other := Stored(sys.nodes[n], o), Stored(sys.nodes[m], o);
         var c := Get(sys.nodes[n].receivedSeq, o);
      && IsPrefixOfLog(db, o, sys.logs[o])
      && c <= |db| <= c + 1
      && c <= Get(sys.nodes[o].receivedSeq, o) == |sys.logs[o]| == sys.nodes[o].seqNumber
      && forall i :: 0 <= i < |db| && i < |other| ==> db[i] == other[i]
  {
    RunIsSound(ids, steps);
    var sys := Run(Initial(ids), steps);
    StoresPrefix(sys, n, o);
    StoresPrefix(sys, m, o);
  }

  /** In every run the routing table of a node knows itself, its direct peers and the origins it has
      counted a rumor of, and nobody else; it reaches itself and each direct peer directly, and
      everybody else through a node of the system. */
  lemma {:induction false} RoutesKnowExactly(ids: set<Address>, steps: seq<Step>, n: Address)
    requires "" !in ids && Legal(Initial(ids), steps) && n in ids
    ensures var sys := Run(Initial(ids), steps);
      n in sys.nodes && var s := sys.nodes[n];
      && (forall a :: a in s.routes <==> a == n || a in s.directPeers || a in s.receivedSeq)
      && s.routes[n] == n
      && (forall p :: p in s.directPeers ==> s.routes[p] == p)
      && forall a :: a in s.routes && a !in s.directPeers ==> s.routes[a] in ids
  {
    RunIsSound(ids, steps);
    var sys := Run(Initial(ids), steps);
    assert MemberOk(n, sys.nodes[n], sys.accepted[n], sys.logs);
  }

  /** A routing entry set from outside keeps the table as it was described exactly when it removes
      nothing that is there, or changes the entry of a known address and leaves self and the direct
      peers reached directly and everybody else reached through a node of the system. */
  lemma SetRoutingEntryKeepsIff(s: NodeState, origin: Address, relay: Address, logs: Logs)
    requires RoutesOk(s, logs)
    ensures RoutesOk(s.(routes := SetRoute(s.routes, origin, relay)), logs) <==>
            if relay == "" then origin !in s.routes
            else
              && origin in s.routes
              && if origin == s.self || origin in s.directPeers then relay == origin else relay in logs
  {
    assert relay == "" && origin !in s.routes ==> SetRoute(s.routes, origin, relay) == s.routes;
  }

  // ----- where packets go -----

  ghost predicate Sent(sys: System, next: System, p: Packet) {
    p in next.network && p !in sys.network
  }

  /** A node that counted some rumor of a message and was stopped by no error sends the whole message on
      to the neighbor picked, who is not the one it came from; beside it only acknowledgements go out,
      back to where the message came from. */
  lemma AcceptedGoesToAnother(sys: System, step: Step)
    requires Inv(sys) && Enabled(sys, step) && step.Receive? && step.pkt.body.Rumors?
    ensures var n, pkt, next := step.node, step.pkt, Apply(sys, step);
      var h := Process(sys.nodes[n], pkt.body.rumors, pkt.relayedBy, step.outs);
      var counted := next.nodes[n].receivedSeq != sys.nodes[n].receivedSeq;
      && (counted && !h.stopped && step.pick.Some? ==>
            && Packet(n, n, step.pick.value, pkt.body) in next.network
            && step.pick.value in sys.nodes[n].directPeers && step.pick.value != pkt.source)
      && forall p :: Sent(sys, next, p) ==>
           && p.source == p.relayedBy == n
           && if p.body.Ack? then p.destination == pkt.source
              else counted && step.pick.Some? && p == Packet(n, n, step.pick.value, pkt.body)
  {
    var n, pkt := step.node, step.pkt;
    assert MemberOk(n, sys.nodes[n], sys.accepted[n], sys.logs);
    AcceptsIffCounts(sys.nodes[n], pkt.body.rumors, pkt.relayedBy, step.outs);
    hide Process, Inv;
  }

  /** A status that agrees with the counters of the node is passed on, as a status, to the neighbor picked,
      who is not the one it came from, or to nobody; any other is answered to where it came from only. */
  lemma StatusGoesOnOrBack(sys: System, step: Step)
    requires Inv(sys) && Enabled(sys, step) && step.Receive? && !step.pkt.body.Rumors?
    ensures var n, pkt, next := step.node, step.pkt, Apply(sys, step);
      var mine := sys.nodes[n].receivedSeq;
      if Agree(mine, pkt.body.view) then
        && next.network == sys.network +
             (if step.pick.Some? then {Packet(n, n, step.pick.value, Status(mine))} else {})
        && (step.pick.Some? ==> step.pick.value in sys.nodes[n].directPeers && step.pick.value != pkt.source)
      else
        forall p :: Sent(sys, next, p) ==> p.source == n && p.destination == pkt.source
  {
    var s, view := sys.nodes[step.node], step.pkt.body.view;
    assert MemberOk(step.node, s, sys.accepted[step.node], sys.logs);
    CountersArePositive(s, sys.logs);
    RepliesAnswerWell(s, view, step.pkt.source, step.order, step.pick);
    hide Compare, Replies, Agree, Inv;
  }

  lemma CountersArePositive(s: NodeState, logs: Logs)
    requires NodeOk(s, logs)
    ensures Positive(s.receivedSeq)
  {
    forall o | o in s.receivedSeq ensures s.receivedSeq[o] >= 1 { assert OriginOk(s, o, logs); }
  }
}
