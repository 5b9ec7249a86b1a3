/** The gossip part of a node: an object whose methods update its maps, each proved to compute what
    the functions of module Gossip say. */
module GossipNode {
  import opened Prelude
  import G = Gossip

  class Node {
    const self: G.Address
    var seqNumber: nat
    var receivedSeq: G.View
    var rumorDB: map<G.Address, seq<G.Rumor>>
    var directPeers: set<G.Address>
    var routes: map<G.Address, G.Address>

    ghost function State(): G.NodeState
      reads this
    {
      G.NodeState(self, seqNumber, receivedSeq, rumorDB, directPeers, routes)
    }

    /** Every stored slice is ordered by sequence number: what the binary search relies on. A counter
        starts at 1. */
    ghost predicate Valid()
      reads this
    {
      && (forall o :: o in rumorDB ==> G.StrictlyIncreasing(rumorDB[o]))
      && G.Positive(receivedSeq)
    }

    constructor (address: G.Address)
      ensures Valid() && State() == G.InitialNode(address)
    {
      self := address;
      seqNumber, receivedSeq, rumorDB, directPeers := 0, map[], map[], {};
      routes := map[address := address];
    }

    /** Inserts the rumor at its place by sequence number, unless that sequence is stored already. */
    method StoreRumor(rumor: G.Rumor)
      requires Valid()
      modifies this`rumorDB
      ensures Valid() && State() == G.Store(old(State()), rumor)
      ensures G.Adds(old(State()), State(), rumor)
    {
      var stored := if rumor.origin in rumorDB then rumorDB[rumor.origin] else [];
      var index := Search(stored, rumor.sequence);
      G.InsertAt(stored, rumor, index);
      G.InsertFacts(stored, rumor);
      if index < |stored| && stored[index].sequence == rumor.sequence {
        assert rumorDB[rumor.origin := stored] == rumorDB;
        return;
      }
      var slice := GrowAndShift(stored, index, rumor);
      rumorDB := rumorDB[rumor.origin := slice[..]];
    }

    /** Binary search for the first rumor with this sequence or a later one. */
    static method Search(stored: seq<G.Rumor>, sequence: nat) returns (index: nat)
      requires G.StrictlyIncreasing(stored)
      ensures index <= |stored|
      ensures forall k :: 0 <= k < index ==> stored[k].sequence < sequence
      ensures forall k :: index <= k < |stored| ==> stored[k].sequence >= sequence
    {
      index := 0;
      var high := |stored|;
      while index < high
        invariant 0 <= index <= high <= |stored|
        invariant forall k :: 0 <= k < index ==> stored[k].sequence < sequence
        invariant forall k :: high <= k < |stored| ==> stored[k].sequence >= sequence
      {
        var h := (index + high) / 2;
        if stored[h].sequence >= sequence { high := h; } else { index := h + 1; }
      }
    }

    /** The slice with the rumor at index. */
    static method GrowAndShift(stored: seq<G.Rumor>, index: nat, rumor: G.Rumor) returns (slice: array<G.Rumor>)
      requires index <= |stored|
      ensures fresh(slice) && slice[..] == stored[..index] + [rumor] + stored[index..]
    {
      slice := Append(stored, rumor);
      ghost var grown := slice[..];
      assert grown[..index] == stored[..index] && grown[index..|stored|] == stored[index..];
      Shift(slice, index, rumor);
    }

    /** A slice one cell longer. */
    static method Append(stored: seq<G.Rumor>, last: G.Rumor) returns (slice: array<G.Rumor>)
      ensures fresh(slice) && slice[..] == stored + [last]
    {
      slice := new G.Rumor[|stored| + 1](_ => last);
      forall i | 0 <= i < |stored| { slice[i] := stored[i]; }
    }

    /** The cells from index on move one place to the right, over the last cell, to make room. */
    static method Shift(slice: array<G.Rumor>, index: nat, rumor: G.Rumor)
      requires index < slice.Length
      modifies slice
      ensures slice[..] == old(slice[..])[..index] + [rumor] + old(slice[..])[index..slice.Length - 1]
    {
      ghost var was := slice[..];
      var j := slice.Length - 1;
      while j > index
        invariant index <= j < slice.Length
        invariant forall k :: 0 <= k <= j ==> slice[k] == was[k]
        invariant forall k :: j < k < slice.Length ==> slice[k] == was[k - 1]
      {
        slice[j] := slice[j - 1];
        j := j - 1;
        assert slice[j + 1] == was[j];
      }
      slice[index] := rumor;
      ShiftedIs(was, slice[..], index, rumor);
    }

    static lemma ShiftedIs(was: seq<G.Rumor>, shifted: seq<G.Rumor>, index: nat, rumor: G.Rumor)
      requires index < |was| == |shifted| && shifted[index] == rumor
      requires forall k :: 0 <= k < index ==> shifted[k] == was[k]
      requires forall k :: index < k < |was| ==> shifted[k] == was[k - 1]
      ensures shifted == was[..index] + [rumor] + was[index..|was| - 1]
    {
    }

    /** Scans the stored slice of an origin and stops at the first sequence beyond endSeq. */
    method GetMissingRumors(origin: G.Address, startSeq: nat, endSeq: nat) returns (missing: seq<G.Rumor>)
      requires Valid()
      ensures missing == G.Missing(G.Stored(State(), origin), startSeq, endSeq)
    {
      hide G.Missing;
      MissingStep([], 0, startSeq, endSeq);
      missing := [];
      if origin !in rumorDB { return; }
      var stored := rumorDB[origin];
      var i := 0;
      while i < |stored|
        invariant 0 <= i <= |stored|
        invariant G.Missing(stored, startSeq, endSeq) == missing + G.Missing(stored[i..], startSeq, endSeq)
      {
        MissingStep(stored, i, startSeq, endSeq);
        if stored[i].sequence > endSeq {
          NothingBeyond(stored[i..], startSeq, endSeq);
          break;
        }
        if stored[i].sequence >= startSeq { missing := missing + [stored[i]]; }
        i := i + 1;
      }
    }

    static lemma MissingStep(db: seq<G.Rumor>, i: nat, lo: nat, hi: nat)
      requires i <= |db|
      ensures G.Missing(db[i..], lo, hi) ==
        if i == |db| then []
        else (if lo <= db[i].sequence <= hi then [db[i]] else []) + G.Missing(db[i + 1..], lo, hi)
    {
      if i < |db| { assert db[i..][1..] == db[i + 1..]; }
    }

    static lemma {:induction false} NothingBeyond(db: seq<G.Rumor>, lo: nat, hi: nat)
      requires forall r :: r in db ==> r.sequence > hi
      ensures G.Missing(db, lo, hi) == []
    {
      if db != [] { NothingBeyond(db[1..], lo, hi); }
    }

    method CreateStatusMessage() returns (status: G.View)
      ensures status == receivedSeq
    {
      status := map[];
      var todo := receivedSeq.Keys;
      while todo != {}
        invariant todo <= receivedSeq.Keys
        invariant status.Keys == receivedSeq.Keys - todo
        invariant forall o :: o in status ==> status[o] == receivedSeq[o]
        decreases todo
      {
        var origin :| origin in todo;
        todo := todo - {origin};
        status := status[origin := receivedSeq[origin]];
      }
    }

    /** Two passes over maps in arbitrary order: the received view, then the local counters. */
    method CompareViews(view: G.View) returns (code: nat, missing: map<G.Address, seq<G.Rumor>>)
      requires Valid()
      ensures G.Comparison(code, missing) == G.Compare(State(), view)
    {
      var newRemote, found, first := ScanRemote(view);
      var newLocal;
      newLocal, missing := ScanLocal(view, found, first);
      assert missing.Keys == G.AheadOrigins(State(), view);
      code := if newRemote && newLocal then 3 else if newRemote then 1 else if newLocal then 2 else 4;
    }

    /** The pass over the local counters, for the origins the received view does not mention. */
    method ScanLocal(view: G.View, found: bool, first: map<G.Address, seq<G.Rumor>>)
      returns (newLocal: bool, missing: map<G.Address, seq<G.Rumor>>)
      requires Valid()
      requires found <==> first.Keys != {}
      requires forall o :: o in first ==> first[o] == MissingFrom(view, o)
      ensures newLocal <==> missing.Keys != {}
      ensures forall o :: o in missing <==> o in first || (o in receivedSeq && o !in view)
      ensures forall o :: o in missing ==> missing[o] == MissingFrom(view, o)
    {
      hide G.Missing, G.Stored;
      newLocal, missing := found, first;
      var todo := receivedSeq.Keys;
      while todo != {}
        invariant todo <= receivedSeq.Keys
        invariant newLocal <==> missing.Keys != {}
        invariant forall o :: o in missing <==> o in first || (o in receivedSeq && o !in todo && o !in view)
        invariant forall o :: o in missing ==> missing[o] == MissingFrom(view, o)
        decreases todo
      {
        var origin :| origin in todo;
        todo := todo - {origin};
        if origin !in view {
          newLocal := true;
          var rumors := GetMissingRumors(origin, 1, receivedSeq[origin]);
          missing := missing[origin := rumors];
          assert origin in missing.Keys;
        }
      }
    }

    ghost function MissingFrom(view: G.View, origin: G.Address): seq<G.Rumor>
      reads this
    {
      G.Missing(G.Stored(State(), origin), G.Get(view, origin) + 1, G.Get(receivedSeq, origin))
    }

    /** The pass over the received view. */
    method ScanRemote(view: G.View) returns (newRemote: bool, newLocal: bool, missing: map<G.Address, seq<G.Rumor>>)
      requires Valid()
      ensures newRemote == G.RemoteAhead(State(), view)
      ensures newLocal <==> missing.Keys != {}
      ensures forall o :: o in missing <==> o in view && G.Get(receivedSeq, o) > view[o]
      ensures forall o :: o in missing ==> missing[o] == MissingFrom(view, o)
    {
      hide G.Missing, G.Stored;
      newRemote, newLocal, missing := false, false, map[];
      var todo := view.Keys;
      while todo != {}
        invariant todo <= view.Keys
        invariant newRemote <==> exists o :: o in view && o !in todo && view[o] > G.Get(receivedSeq, o)
        invariant newLocal <==> missing.Keys != {}
        invariant forall o :: o in missing <==> o in view && o !in todo && G.Get(receivedSeq, o) > view[o]
        invariant forall o :: o in missing ==> missing[o] == MissingFrom(view, o)
        decreases todo
      {
        var origin :| origin in todo;
        todo := todo - {origin};
        var remoteSeq := view[origin];
        var localSeq := if origin in receivedSeq then receivedSeq[origin] else 0;
        if origin !in receivedSeq && remoteSeq > 0 {
          newRemote := true;
        } else if remoteSeq > localSeq {
          newRemote := true;
        } else if localSeq > remoteSeq {
          newLocal := true;
          var rumors := GetMissingRumors(origin, remoteSeq + 1, localSeq);
          missing := missing[origin := rumors];
          assert origin in missing.Keys;
        }
      }
    }

    /** Processes rumors one after the other; an error of a handler or of an acknowledgement ends the
        loop, and only a loop run to its end that counted something forwards the whole message. */
    method HandleRumor(pkt: G.Packet, outs: seq<G.Outcome>, pick: Option<G.Address>)
      returns (ok: bool, acks: seq<G.Packet>, forward: Option<G.Packet>)
      requires Valid()
      requires pkt.body.Rumors? && |outs| == |pkt.body.rumors|
      requires pick.Some? ==> pick.value in G.OtherNeighbors(State(), pkt.source)
      modifies this`rumorDB, this`receivedSeq, this`routes
      ensures var h := G.Process(old(State()), pkt.body.rumors, pkt.relayedBy, outs);
        && Valid() && State() == h.state
        && ok == !h.stopped
        && acks == G.AckPackets(self, pkt.source, h.acks)
        && forward == G.Forwarded(self, pkt, h, pick)
      ensures forward.Some? <==> ok && pick.Some? && receivedSeq != old(receivedSeq)
      ensures forward.Some? ==>
                forward.value == G.Packet(self, self, pick.value, pkt.body) && pick.value in directPeers - {pkt.source}
      ensures forall p :: p in acks ==> p.source == p.relayedBy == self && p.destination == pkt.source && p.body.Ack?
      ensures forall o :: G.LearnsRoute(old(State()), State(), o, pkt.relayedBy)
    {
      hide G.LearnsRoute, G.ProcessOne, G.Adds;
      G.AcceptsIffCounts(State(), pkt.body.rumors, pkt.relayedBy, outs);
      ghost var last := G.Process(State(), pkt.body.rumors, pkt.relayedBy, outs).state;
      forall o ensures G.LearnsRoute(State(), last, o, pkt.relayedBy) {
        G.RoutesLearned(State(), pkt.body.rumors, pkt.relayedBy, outs, o);
      }
      var rumors := pkt.body.rumors;
      ghost var counted, views := [], [];
      ghost var whole := G.Process(State(), rumors, pkt.relayedBy, outs);
      var processedRumor := false;
      acks, forward := [], None;
      var i := 0;
      while i < |rumors|
        invariant 0 <= i <= |rumors| && Valid()
        invariant var rest := G.Process(State(), rumors[i..], pkt.relayedBy, outs[i..]);
          whole == G.Prepend(counted, views, rest)
        invariant acks == G.AckPackets(self, pkt.source, views)
        invariant processedRumor <==> counted != []
      {
        assert rumors[i..][0] == rumors[i] && outs[i..][0] == outs[i];
        assert rumors[i..][1..] == rumors[i + 1..] && outs[i..][1..] == outs[i + 1..];
        ghost var one := G.ProcessOne(State(), rumors[i], pkt.relayedBy, outs[i]);
        var accepted, ack, failed := HandleOne(rumors[i], pkt, outs[i]);
        processedRumor := processedRumor || accepted;
        AckPacketsConcat(pkt.source, views, one.acks);
        acks := acks + ack;
        if failed {
          return false, acks, None;
        }
        PrependTwice(counted, views, one, G.Process(State(), rumors[i + 1..], pkt.relayedBy, outs[i + 1..]));
        counted, views := counted + one.accepted, views + one.acks;
        i := i + 1;
      }
      assert rumors[i..] == [];
      ok := true;
      if processedRumor && pick.Some? {
        forward := Some(G.Packet(self, self, pick.value, pkt.body));
      }
    }

    static lemma PrependTwice(a: seq<G.Rumor>, v: seq<G.View>, one: G.Handling, h: G.Handling)
      ensures G.Prepend(a, v, G.Prepend(one.accepted, one.acks, h)) == G.Prepend(a + one.accepted, v + one.acks, h)
    {
      assert a + (one.accepted + h.accepted) == (a + one.accepted) + h.accepted;
      assert v + (one.acks + h.acks) == (v + one.acks) + h.acks;
    }

    lemma AckPacketsConcat(source: G.Address, a: seq<G.View>, b: seq<G.View>)
      ensures G.AckPackets(self, source, a + b) == G.AckPackets(self, source, a) + G.AckPackets(self, source, b)
    {
    }

    /** One round of the loop: a rumor with the expected sequence is stored, handled, counted and acknowledged. */
    method HandleOne(rumor: G.Rumor, pkt: G.Packet, out: G.Outcome)
      returns (accepted: bool, acks: seq<G.Packet>, failed: bool)
      requires Valid()
      modifies this`rumorDB, this`receivedSeq, this`routes
      ensures var one := G.ProcessOne(old(State()), rumor, pkt.relayedBy, out);
        && Valid() && State() == one.state && failed == one.stopped
        && (accepted <==> one.accepted != [])
        && acks == G.AckPackets(self, pkt.source, one.acks)
      ensures var expected := rumor.sequence == G.Get(old(receivedSeq), rumor.origin) + 1;
        && (expected ==> G.Adds(old(State()), State(), rumor))
        && (!expected ==> !failed && State() == old(State()))
        && (accepted <==> expected && out.handled)
        && (failed <==> expected && !(out.handled && out.acked))
        && receivedSeq == (if accepted then old(receivedSeq)[rumor.origin := rumor.sequence] else old(receivedSeq))
        && acks == if accepted && out.acked then [G.Packet(self, self, pkt.source, G.Ack(receivedSeq))] else []
    {
      accepted, acks, failed := false, [], false;
      var lastSeq := if rumor.origin in receivedSeq then receivedSeq[rumor.origin] else 0;
      if rumor.sequence == lastSeq + 1 {
        var handled := ProcessRumorMessage(rumor, out);
        if !handled { return false, [], true; }
        CountRumor(rumor, pkt.relayedBy);
        accepted := true;
        if !out.acked { return true, [], true; }
        var status := CreateStatusMessage();
        acks := [G.Packet(self, self, pkt.source, G.Ack(status))];
      }
    }

    /** Stores the rumor before the handler of its message runs, so a failing handler leaves it stored. */
    method ProcessRumorMessage(rumor: G.Rumor, out: G.Outcome) returns (handled: bool)
      requires Valid()
      modifies this`rumorDB
      ensures Valid() && State() == G.Store(old(State()), rumor) && handled == out.handled
      ensures G.Adds(old(State()), State(), rumor)
    {
      StoreRumor(rumor);
      handled := out.handled;
    }

    /** Counts an accepted rumor and learns the route to its origin from the relay. */
    method CountRumor(rumor: G.Rumor, relayedBy: G.Address)
      modifies this`receivedSeq, this`routes
      ensures State() == G.Count(old(State()), rumor, relayedBy)
    {
      receivedSeq := receivedSeq[rumor.origin := rumor.sequence];
      if rumor.origin !in directPeers && rumor.origin != self {
        SetRoutingEntry(rumor.origin, relayedBy);
      }
    }

    /** Answers a status, received on its own or inside an acknowledgement. */
    method HandleStatusMessage(source: G.Address, view: G.View, order: seq<G.Address>, onward: Option<G.Address>)
      returns (sent: seq<G.Packet>)
      requires Valid()
      requires G.Lists(order, G.Compare(State(), view).missing)
      requires onward.Some? ==> onward.value in G.OtherNeighbors(State(), source)
      ensures sent == G.Replies(State(), source, G.Compare(State(), view), order, onward)
      ensures G.AnswersWell(self, receivedSeq, view, source, onward, sent)
    {
      hide G.AnswersWell, G.Compare, G.Flatten;
      G.RepliesAnswerWell(State(), view, source, order, onward);
      var code, missing := CompareViews(view);
      sent := [];
      if code == 1 || code == 3 {
        var status := CreateStatusMessage();
        sent := sent + [G.Packet(self, self, source, G.Status(status))];
      }
      if code == 2 || code == 3 {
        var packets := SendMissingRumors(source, missing, order);
        sent := sent + packets;
      }
      if code == 4 && onward.Some? {
        var status := CreateStatusMessage();
        sent := sent + [G.Packet(self, self, onward.value, G.Status(status))];
      }
    }

    /** Joins the missing rumors of all origins, in the order a map iteration gives them. */
    method SendMissingRumors(destination: G.Address, missing: map<G.Address, seq<G.Rumor>>, order: seq<G.Address>)
      returns (sent: seq<G.Packet>)
      requires G.Lists(order, missing)
      ensures sent == G.MissingPackets(self, destination, G.Flatten(order, missing))
    {
      var rumors := [];
      var i := 0;
      while i < |order|
        invariant 0 <= i <= |order|
        invariant G.Flatten(order, missing) == rumors + G.Flatten(order[i..], missing)
      {
        assert order[i..][1..] == order[i + 1..];
        rumors := rumors + missing[order[i]];
        i := i + 1;
      }
      assert order[i..] == [] && rumors + [] == rumors;
      sent := if |rumors| == 0 then [] else [G.Packet(self, self, destination, G.Rumors(rumors))];
    }

    /** Takes the next sequence number, counts and stores the node's own rumor. */
    method Broadcast(msg: G.Message) returns (rumor: G.Rumor)
      requires Valid()
      modifies this`seqNumber, this`receivedSeq, this`rumorDB
      ensures Valid() && State() == G.Broadcast(old(State()), msg)
      ensures rumor == G.Rumor(self, old(seqNumber) + 1, msg) && G.Adds(old(State()), State(), rumor)
      ensures seqNumber == old(seqNumber) + 1 && receivedSeq == old(receivedSeq)[self := seqNumber]
    {
      var current := seqNumber;
      seqNumber := current + 1;
      receivedSeq := receivedSeq[self := current + 1];
      rumor := G.Rumor(self, seqNumber, msg);
      StoreRumor(rumor);
    }

    method AddPeer(addrs: seq<G.Address>)
      modifies this`directPeers, this`routes
      ensures State() == G.AddPeers(old(State()), addrs)
      ensures G.PeersAdded(old(State()), State(), addrs)
    {
      hide G.PeersAdded;
      G.NobodyAdded(State());
      var i := 0;
      while i < |addrs|
        invariant 0 <= i <= |addrs|
        invariant G.AddPeers(old(State()), addrs) == G.AddPeers(State(), addrs[i..])
        invariant G.PeersAdded(old(State()), State(), addrs[..i])
      {
        assert addrs[i..][1..] == addrs[i + 1..] && addrs[..i + 1] == addrs[..i] + [addrs[i]];
        G.OneMoreAdded(old(State()), State(), addrs[..i], addrs[i]);
        if addrs[i] != self {
          directPeers := directPeers + {addrs[i]};
          routes := routes[addrs[i] := addrs[i]];
        }
        i := i + 1;
      }
      assert addrs[..|addrs|] == addrs;
    }

    method SetRoutingEntry(origin: G.Address, relayAddr: G.Address)
      modifies this`routes
      ensures routes == G.SetRoute(old(routes), origin, relayAddr)
      ensures relayAddr == "" ==> routes == old(routes) - {origin}
      ensures relayAddr != "" ==> routes == old(routes)[origin := relayAddr]
    {
      if relayAddr == "" {
        routes := routes - {origin};
      } else {
        routes := routes[origin := relayAddr];
      }
    }
  }
}
