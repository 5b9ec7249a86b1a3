/** The gossip protocol of one node, on values: what each operation of the node computes. */
module Gossip {
  import opened Prelude

  type Address = string

  /** A marshalled message: its type name and its payload. */
  datatype Message = Message(kind: string, payload: Bytes)

  datatype Rumor = Rumor(origin: Address, sequence: nat, msg: Message)

  /** A status message: the last sequence known of each origin. */
  type View = map<Address, nat>

  datatype Body =
    | Rumors(rumors: seq<Rumor>)
    | Status(view: View)
    | Ack(view: View)

  datatype Packet = Packet(source: Address, relayedBy: Address, destination: Address, body: Body)

  /** The gossip fields of a node. */
  datatype NodeState = NodeState(
    self: Address,
    seqNumber: nat,
    receivedSeq: View,
    rumorDB: map<Address, seq<Rumor>>,
    directPeers: set<Address>,
    routes: map<Address, Address>)

  /** A counter that is absent reads as 0. */
  function Get(view: View, origin: Address): nat {
    if origin in view then view[origin] else 0
  }

  function Stored(s: NodeState, origin: Address): seq<Rumor> {
    if origin in s.rumorDB then s.rumorDB[origin] else []
  }

  function InitialNode(self: Address): NodeState {
    NodeState(self, 0, map[], map[], {}, map[self := self])
  }

  function OtherNeighbors(s: NodeState, exclude: Address): set<Address> {
    s.directPeers - {exclude, s.self}
  }

  // ----- the rumor database -----

  ghost predicate StrictlyIncreasing(db: seq<Rumor>) {
    forall i, j :: 0 <= i < j < |db| ==> db[i].sequence < db[j].sequence
  }

  /** db with r at its place by sequence number, or db itself when that sequence is taken. */
  function Insert(db: seq<Rumor>, r: Rumor): seq<Rumor> {
    if db == [] || r.sequence < db[0].sequence then [r] + db
    else if db[0].sequence == r.sequence then db
    else [db[0]] + Insert(db[1..], r)
  }

  /** Exactly r is added to what is stored, unless its sequence is stored already. */
  ghost predicate Adds(s: NodeState, later: NodeState, r: Rumor) {
    && (forall o :: o != r.origin ==> Stored(later, o) == Stored(s, o))
    && forall x :: x in Stored(later, r.origin) <==>
         x in Stored(s, r.origin) || (x == r && forall y :: y in Stored(s, r.origin) ==> y.sequence != r.sequence)
  }

  function Store(s: NodeState, r: Rumor): NodeState {
    s.(rumorDB := s.rumorDB[r.origin := Insert(Stored(s, r.origin), r)])
  }

  /** The rumors of db with a sequence from lo up to and including hi. */
  function Missing(db: seq<Rumor>, lo: nat, hi: nat): seq<Rumor> {
    if db == [] then []
    else (if lo <= db[0].sequence <= hi then [db[0]] else []) + Missing(db[1..], lo, hi)
  }

  // ----- receiving rumors -----

  /** What happens outside the gossip code for one accepted rumor: whether the handler of the
      embedded message succeeds, and whether the acknowledgement can be sent. */
  datatype Outcome = Outcome(handled: bool, acked: bool)

  /** The effect of handling a list of rumors: the new state, the rumors counted, the views
      acknowledged, and whether an error ended the loop early. */
  datatype Handling = Handling(state: NodeState, accepted: seq<Rumor>, acks: seq<View>, stopped: bool)

  predicate Expected(s: NodeState, r: Rumor) {
    r.sequence == Get(s.receivedSeq, r.origin) + 1
  }

  function SetRoute(routes: map<Address, Address>, origin: Address, relay: Address): map<Address, Address> {
    if relay == "" then routes - {origin} else routes[origin := relay]
  }

  function Count(s: NodeState, r: Rumor, relayedBy: Address): NodeState {
    s.(receivedSeq := s.receivedSeq[r.origin := r.sequence],
       routes := if r.origin in s.directPeers || r.origin == s.self then s.routes
                 else SetRoute(s.routes, r.origin, relayedBy))
  }

  function ProcessOne(s: NodeState, r: Rumor, relayedBy: Address, out: Outcome): Handling {
    if !Expected(s, r) then Handling(s, [], [], false)
    else if !out.handled then Handling(Store(s, r), [], [], true)
    else
      var counted := Count(Store(s, r), r, relayedBy);
      if !out.acked then Handling(counted, [r], [], true)
      else Handling(counted, [r], [counted.receivedSeq], false)
  }

  function Process(s: NodeState, rumors: seq<Rumor>, relayedBy: Address, outs: seq<Outcome>): Handling
    requires |outs| == |rumors|
    decreases |rumors|
  {
    if rumors == [] then Handling(s, [], [], false)
    else
      var one := ProcessOne(s, rumors[0], relayedBy, outs[0]);
      if one.stopped then one
      else Prepend(one.accepted, one.acks, Process(one.state, rumors[1..], relayedBy, outs[1..]))
  }

  function Prepend(accepted: seq<Rumor>, acks: seq<View>, h: Handling): Handling {
    h.(accepted := accepted + h.accepted, acks := acks + h.acks)
  }

  // ----- sending and peering -----

  function Broadcast(s: NodeState, msg: Message): NodeState {
    Store(s.(seqNumber := s.seqNumber + 1, receivedSeq := s.receivedSeq[s.self := s.seqNumber + 1]),
          Rumor(s.self, s.seqNumber + 1, msg))
  }

  function AddPeers(s: NodeState, addrs: seq<Address>): NodeState
    decreases |addrs|
  {
    if addrs == [] then s
    else if addrs[0] == s.self then AddPeers(s, addrs[1..])
    else AddPeers(s.(directPeers := s.directPeers + {addrs[0]}, routes := s.routes[addrs[0] := addrs[0]]), addrs[1..])
  }

  /** Every address but self has become a direct peer that is reached directly; nothing else changed. */
  ghost predicate PeersAdded(s: NodeState, later: NodeState, addrs: seq<Address>) {
    && later.self == s.self
    && (forall a :: a in later.directPeers <==> a in s.directPeers || (a in addrs && a != s.self))
    && forall a ::
         if a in addrs && a != s.self then a in later.routes && later.routes[a] == a
         else (a in later.routes <==> a in s.routes) && (a in s.routes ==> later.routes[a] == s.routes[a])
  }

  lemma NobodyAdded(s: NodeState)
    ensures PeersAdded(s, s, [])
  {
  }

  lemma OneMoreAdded(s: NodeState, later: NodeState, addrs: seq<Address>, a: Address)
    requires PeersAdded(s, later, addrs)
    ensures a == s.self ==> PeersAdded(s, later, addrs + [a])
    ensures a != s.self ==>
              PeersAdded(s, later.(directPeers := later.directPeers + {a}, routes := later.routes[a := a]), addrs + [a])
  {
  }

  // ----- anti-entropy -----

  /** 1: the remote is ahead somewhere; 2: the local node is; 3: both; 4: neither. */
  datatype Comparison = Comparison(code: nat, missing: map<Address, seq<Rumor>>)

  predicate RemoteAhead(s: NodeState, view: View) {
    exists o :: o in view && view[o] > Get(s.receivedSeq, o)
  }

  function AheadOrigins(s: NodeState, view: View): set<Address> {
    (set o | o in view && Get(s.receivedSeq, o) > view[o]) + (s.receivedSeq.Keys - view.Keys)
  }

  function Compare(s: NodeState, view: View): Comparison {
    var ahead := AheadOrigins(s, view);
    Comparison(
      if RemoteAhead(s, view) then (if ahead != {} then 3 else 1) else (if ahead != {} then 2 else 4),
      map o | o in ahead :: Missing(Stored(s, o), Get(view, o) + 1, Get(s.receivedSeq, o)))
  }

  /** The missing rumors as one list, origin after origin. */
  function Flatten(order: seq<Address>, missing: map<Address, seq<Rumor>>): seq<Rumor>
    requires forall o :: o in order ==> o in missing
  {
    if order == [] then [] else missing[order[0]] + Flatten(order[1..], missing)
  }

  /** order lists every key of missing once. */
  ghost predicate Lists(order: seq<Address>, missing: map<Address, seq<Rumor>>) {
    Distinct(order) && forall o :: o in order <==> o in missing
  }

  /** The packets a node sends in answer to a status received from source, given how the views
      compare: a status when the remote is ahead, the missing rumors when the local node is, and
      when the views agree possibly a status to one other neighbor. */
  function Replies(s: NodeState, source: Address, c: Comparison, order: seq<Address>,
      onward: Option<Address>): seq<Packet>
    requires forall o :: o in order ==> o in c.missing
  {
    (if c.code == 1 || c.code == 3 then [Packet(s.self, s.self, source, Status(s.receivedSeq))] else []) +
    (if c.code == 2 || c.code == 3 then MissingPackets(s.self, source, Flatten(order, c.missing)) else []) +
    (if c.code == 4 && onward.Some? then [Packet(s.self, s.self, onward.value, Status(s.receivedSeq))] else [])
  }

  function MissingPackets(self: Address, destination: Address, rumors: seq<Rumor>): seq<Packet> {
    if rumors == [] then [] else [Packet(self, self, destination, Rumors(rumors))]
  }

  function AckPackets(self: Address, source: Address, acks: seq<View>): seq<Packet> {
    seq(|acks|, i requires 0 <= i < |acks| => Packet(self, self, source, Ack(acks[i])))
  }

  /** A loop run to its end that counted something forwards the whole message to one other neighbor. */
  function Forwarded(self: Address, pkt: Packet, h: Handling, pick: Option<Address>): Option<Packet> {
    if h.stopped || h.accepted == [] || pick.None? then None else Some(Packet(self, self, pick.value, pkt.body))
  }

  // ----- what handling rumors does to counters and routes -----

  lemma {:induction false} ProcessMonotone(s: NodeState, rumors: seq<Rumor>, relayedBy: Address, outs: seq<Outcome>,
      o: Address)
    requires |outs| == |rumors|
    ensures Get(Process(s, rumors, relayedBy, outs).state.receivedSeq, o) >= Get(s.receivedSeq, o)
    decreases |rumors|
  {
    if rumors != [] {
      var one := ProcessOne(s, rumors[0], relayedBy, outs[0]);
      if !one.stopped { ProcessMonotone(one.state, rumors[1..], relayedBy, outs[1..], o); }
    }
  }

  /** Some rumor was accepted exactly when some counter changed. */
  lemma {:induction false} AcceptsIffCounts(s: NodeState, rumors: seq<Rumor>, relayedBy: Address, outs: seq<Outcome>)
    requires |outs| == |rumors|
    ensures var h := Process(s, rumors, relayedBy, outs); h.accepted != [] <==> h.state.receivedSeq != s.receivedSeq
    decreases |rumors|
  {
    if rumors != [] {
      var one := ProcessOne(s, rumors[0], relayedBy, outs[0]);
      if one.accepted != [] {
        ProcessMonotone(s, rumors, relayedBy, outs, rumors[0].origin);
        if !one.stopped { ProcessMonotone(one.state, rumors[1..], relayedBy, outs[1..], rumors[0].origin); }
        assert Get(one.state.receivedSeq, rumors[0].origin) > Get(s.receivedSeq, rumors[0].origin);
      } else if !one.stopped {
        AcceptsIffCounts(one.state, rumors[1..], relayedBy, outs[1..]);
      }
    }
  }

  /** How the route to o may change: it is the relay of the packet once a rumor of o was counted, except
      for self and direct peers, and stays as it was otherwise. */
  ghost predicate LearnsRoute(s: NodeState, later: NodeState, o: Address, relayedBy: Address) {
    if Get(later.receivedSeq, o) == Get(s.receivedSeq, o) || o == s.self || o in s.directPeers
    then (o in later.routes <==> o in s.routes) && (o in s.routes ==> later.routes[o] == s.routes[o])
    else (o in later.routes <==> relayedBy != "") && (o in later.routes ==> later.routes[o] == relayedBy)
  }

  lemma {:induction false} RoutesLearned(s: NodeState, rumors: seq<Rumor>, relayedBy: Address, outs: seq<Outcome>,
      o: Address)
    requires |outs| == |rumors|
    ensures LearnsRoute(s, Process(s, rumors, relayedBy, outs).state, o, relayedBy)
    decreases |rumors|
  {
    if rumors != [] {
      var one := ProcessOne(s, rumors[0], relayedBy, outs[0]);
      assert LearnsRoute(s, one.state, o, relayedBy);
      if !one.stopped {
        RoutesLearned(one.state, rumors[1..], relayedBy, outs[1..], o);
        ProcessMonotone(one.state, rumors[1..], relayedBy, outs[1..], o);
      }
    }
  }

  // ----- what a node answers to a status -----

  ghost predicate Agree(a: View, b: View) {
    forall o :: Get(a, o) == Get(b, o)
  }

  /** A counter that is there is not 0. */
  ghost predicate Positive(view: View) {
    forall o :: o in view ==> view[o] >= 1
  }

  /** When the views agree the only packet there can be is a status to the neighbor chosen to go on with;
      when they differ everything goes back to where the status came from: a status when that node is
      ahead somewhere, rumors when this one is. */
  ghost predicate AnswersWell(self: Address, mine: View, view: View, source: Address, onward: Option<Address>,
      sent: seq<Packet>)
  {
    if Agree(mine, view) then
      sent == if onward.Some? then [Packet(self, self, onward.value, Status(mine))] else []
    else
      && (forall p :: p in sent ==> p.source == p.relayedBy == self && p.destination == source)
      && (Packet(self, self, source, Status(mine)) in sent <==> exists o :: Get(view, o) > Get(mine, o))
      && (forall p :: p in sent && p.body.Status? ==> p.body.view == mine)
      && (forall p :: p in sent ==> !p.body.Ack?)
      && |sent| <= 2
  }

  lemma CodeTellsWhoIsAhead(s: NodeState, view: View)
    requires Positive(s.receivedSeq)
    ensures var code := Compare(s, view).code;
      && 1 <= code <= 4
      && (code == 4 <==> Agree(s.receivedSeq, view))
      && (code == 1 || code == 3 <==> exists o :: Get(view, o) > Get(s.receivedSeq, o))
  {
    hide Missing;
    var ahead := AheadOrigins(s, view);
    if Agree(s.receivedSeq, view) {
      forall o ensures o !in ahead { assert Get(s.receivedSeq, o) == Get(view, o); }
      assert ahead == {};
      forall o | o in view ensures view[o] <= Get(s.receivedSeq, o) { assert Get(s.receivedSeq, o) == Get(view, o); }
    } else {
      var o :| Get(s.receivedSeq, o) != Get(view, o);
      if Get(s.receivedSeq, o) > Get(view, o) { assert o in ahead; } else { assert o in view; }
    }
  }

  lemma RepliesAnswerWell(s: NodeState, view: View, source: Address, order: seq<Address>, onward: Option<Address>)
    requires Positive(s.receivedSeq) && Lists(order, Compare(s, view).missing)
    ensures AnswersWell(s.self, s.receivedSeq, view, source, onward,
                        Replies(s, source, Compare(s, view), order, onward))
  {
    hide Compare, Agree, Flatten;
    CodeTellsWhoIsAhead(s, view);
  }

  // ----- facts about the rumor database -----

  /** Insertion at the index a search for r.sequence finds. */
  lemma {:induction false} InsertAt(db: seq<Rumor>, r: Rumor, index: nat)
    requires index <= |db|
    requires forall k :: 0 <= k < index ==> db[k].sequence < r.sequence
    requires forall k :: index <= k < |db| ==> db[k].sequence >= r.sequence
    ensures Insert(db, r) == if index < |db| && db[index].sequence == r.sequence then db
                             else db[..index] + [r] + db[index..]
  {
    if index > 0 {
      InsertAt(db[1..], r, index - 1);
    }
  }

  /** Insertion keeps the order, keeps every old rumor, and adds r exactly when its sequence is new. */
  lemma {:induction false} InsertFacts(db: seq<Rumor>, r: Rumor)
    requires StrictlyIncreasing(db)
    ensures StrictlyIncreasing(Insert(db, r))
    ensures forall x :: x in Insert(db, r) <==> x in db || (x == r && forall y :: y in db ==> y.sequence != r.sequence)
  {
    if db == [] || r.sequence < db[0].sequence {
    } else if db[0].sequence == r.sequence {
    } else {
      var tail := db[1..];
      InsertFacts(tail, r);
      assert db == [db[0]] + tail;
      var rest := Insert(tail, r);
      forall x | x in rest ensures db[0].sequence < x.sequence {
        if x in tail { var i :| 0 <= i < |tail| && tail[i] == x; assert db[i + 1] == x; }
      }
    }
  }

  function InsertAll(db: seq<Rumor>, arrivals: seq<Rumor>): seq<Rumor>
    decreases |arrivals|
  {
    if arrivals == [] then db else Insert(InsertAll(db, arrivals[..|arrivals| - 1]), arrivals[|arrivals| - 1])
  }

  /** x is the first of the arrivals that carries its sequence number. */
  ghost predicate FirstArrival(arrivals: seq<Rumor>, x: Rumor) {
    exists i :: 0 <= i < |arrivals| && arrivals[i] == x && forall j :: 0 <= j < i ==> arrivals[j].sequence != x.sequence
  }

  lemma FirstArrivalExtends(front: seq<Rumor>, r: Rumor, x: Rumor)
    ensures FirstArrival(front + [r], x) <==>
            FirstArrival(front, x) || (x == r && forall y :: y in front ==> y.sequence != r.sequence)
  {
    var all := front + [r];
    if FirstArrival(front, x) {
      var i :| 0 <= i < |front| && front[i] == x && forall j :: 0 <= j < i ==> front[j].sequence != x.sequence;
      assert all[i] == x && forall j :: 0 <= j < i ==> all[j] == front[j];
    }
    if FirstArrival(all, x) {
      var i :| 0 <= i < |all| && all[i] == x && forall j :: 0 <= j < i ==> all[j].sequence != x.sequence;
      assert forall j :: 0 <= j < i ==> front[j] == all[j];
      if i < |front| { assert front[i] == x; }
    }
    if x == r && forall y :: y in front ==> y.sequence != r.sequence {
      assert all[|front|] == x;
    }
  }

  lemma {:induction false} EverySequenceHasFirst(arrivals: seq<Rumor>, i: nat)
    requires i < |arrivals|
    ensures exists x :: FirstArrival(arrivals, x) && x.sequence == arrivals[i].sequence
  {
    if j: nat :| j < i && arrivals[j].sequence == arrivals[i].sequence {
      EverySequenceHasFirst(arrivals, j);
    } else {
      assert FirstArrival(arrivals, arrivals[i]);
    }
  }

  /** For any order of arrival the database is sorted and holds, for each sequence number that
      arrived, the message that came first. */
  lemma {:induction false} ArrivalOrderKeepsFirst(arrivals: seq<Rumor>)
    ensures StrictlyIncreasing(InsertAll([], arrivals))
    ensures forall x :: x in InsertAll([], arrivals) <==> FirstArrival(arrivals, x)
    ensures forall i: nat :: i < |arrivals| ==>
              exists x :: x in InsertAll([], arrivals) && x.sequence == arrivals[i].sequence
    decreases |arrivals|
  {
    if arrivals != [] {
      var n := |arrivals| - 1;
      var front, r := arrivals[..n], arrivals[n];
      assert arrivals == front + [r];
      ArrivalOrderKeepsFirst(front);
      var before := InsertAll([], front);
      InsertFacts(before, r);
      forall x ensures x in Insert(before, r) <==> FirstArrival(arrivals, x) {
        FirstArrivalExtends(front, r, x);
        SequencesArrived(front, before, r.sequence);
      }
    }
    forall i: nat | i < |arrivals|
      ensures exists x :: x in InsertAll([], arrivals) && x.sequence == arrivals[i].sequence
    {
      EverySequenceHasFirst(arrivals, i);
    }
  }

  lemma SequencesArrived(front: seq<Rumor>, db: seq<Rumor>, sequence: nat)
    requires forall x :: x in db <==> FirstArrival(front, x)
    ensures (exists y :: y in db && y.sequence == sequence) <==> (exists y :: y in front && y.sequence == sequence)
  {
    if y :| y in front && y.sequence == sequence {
      var i :| 0 <= i < |front| && front[i] == y;
      EverySequenceHasFirst(front, i);
    }
  }
}
