/** The ledger part of a node: an object that scans, updates and walks its maps, each method proved to
    compute what the functions of module Ledger say. */
module LedgerNodes {
  import opened Prelude
  import L = Ledger
  import C = Chain

  class LedgerNode {
    var utxos: L.Utxos
    var mempool: map<string, L.Transaction>
    var store: map<string, L.Entry>
    var currentHeight: nat

    ghost function State(): L.LedgerState
      reads this
    {
      L.LedgerState(utxos, mempool, store, currentHeight)
    }

    ghost predicate Valid()
      reads this
    {
      L.Keyed(utxos)
    }

    constructor ()
      ensures Valid() && State() == L.LedgerState(map[], map[], map[], 0)
    {
      utxos, mempool, store, currentHeight := map[], map[], map[], 0;
    }

    /** Scans the names in arbitrary order for one with this domain and owner. */
    method FindUTXO(wanted: L.UTXO) returns (found: Option<L.UTXO>)
      requires Valid()
      ensures found == L.Find(utxos, wanted)
    {
      var todo := utxos.Keys;
      while todo != {}
        invariant todo <= utxos.Keys
        invariant forall k :: k in utxos && k !in todo ==> !L.Matches(utxos[k], wanted)
        decreases todo
      {
        var k :| k in todo;
        todo := todo - {k};
        if utxos[k].domain == wanted.domain && utxos[k].owner == wanted.owner {
          L.ScanIsLookup(utxos, wanted, k);
          return Some(utxos[k]);
        }
      }
      found := None;
    }

    /** Scans the names in arbitrary order for this domain. */
    method DomainExists(domain: string) returns (taken: bool)
      requires Valid()
      ensures taken <==> domain in utxos
    {
      var todo := utxos.Keys;
      while todo != {}
        invariant todo <= utxos.Keys
        invariant forall k :: k in utxos && k !in todo ==> utxos[k].domain != domain
        decreases todo
      {
        var k :| k in todo;
        todo := todo - {k};
        if utxos[k].domain == domain { return true; }
      }
      taken := false;
    }

    method ValidateTransaction(tx: L.Transaction, now: int) returns (verdict: L.Verdict)
      requires Valid()
      ensures verdict == L.ValidateTransaction(utxos, tx, now)
      ensures if verdict == L.Valid then L.MayStand(utxos, tx, now) else L.HasProblem(utxos, tx, now, verdict.problem)
    {
      L.ValidIffMayStand(utxos, tx, now);
      L.ReportedProblemIsThere(utxos, tx, now);
      hide L.MayStand, L.HasProblem;
      if tx.id == "" { return L.Invalid(L.EmptyId); }
      if tx.kind == L.NameNew {
        if |tx.output.domain| == 0 { return L.Invalid(L.EmptyDomain); }
        var taken := DomainExists(tx.output.domain);
        if taken { return L.Invalid(L.DomainExists); }
      } else if tx.kind == L.Unknown {
        return L.Invalid(L.UnknownType);
      } else {
        var input := FindUTXO(tx.input);
        if input == None { return L.Invalid(L.InputNotFound); }
        if tx.kind == L.NameFirstUpdate {
          var nameNew := FindUTXO(input.value);
          assert nameNew == input;
        }
        var domain := if tx.kind == L.NameUpdate then input.value.domain else tx.plainDomain;
        if tx.output.domain != domain { return L.Invalid(L.WrongDomain); }
        if tx.output.expiration < input.value.expiration { return L.Invalid(L.EarlierThanInput); }
      }
      verdict := if tx.output.expiration < now then L.Invalid(L.Expired) else L.Valid;
    }

    /** Checks every transaction against the names as they are before the block, each at its own time. */
    method ValidateBlock(b: L.Block, clock: L.Clock) returns (verdict: L.Verdict)
      requires Valid()
      ensures verdict == L.ValidateBlock(utxos, b, clock)
    {
      if |b.txs| == 0 { return L.Invalid(L.NoTransactions); }
      for i := 0 to |b.txs|
        invariant L.ValidateFrom(utxos, b.txs, 0, clock) == L.ValidateFrom(utxos, b.txs, i, clock)
      {
        verdict := ValidateTransaction(b.txs[i], clock(i));
        if verdict != L.Valid { return; }
      }
      verdict := L.Valid;
    }

    method ApplyTransaction(tx: L.Transaction) returns (ok: bool)
      requires Valid()
      modifies this`utxos
      ensures Valid() && L.Application(utxos, ok) == L.ApplyTransaction(old(utxos), tx)
    {
      ok := true;
      if tx.kind == L.NameNew {
        AddUTXO(tx.output.domain, tx.output);
      } else if tx.kind != L.Unknown {
        var input := FindUTXO(tx.input);
        if input == None { return false; }
        RemoveUTXO(tx.input.domain);
        AddUTXO(tx.output.domain, tx.output);
      }
    }

    method AddUTXO(domain: string, utxo: L.UTXO)
      modifies this`utxos
      ensures utxos == old(utxos)[domain := utxo]
    {
      utxos := utxos[domain := utxo];
    }

    method RemoveUTXO(domain: string)
      modifies this`utxos
      ensures utxos == old(utxos) - {domain}
    {
      utxos := utxos - {domain};
    }

    /** Applies the transactions one after the other, stores the block and walks the chain from it; stops
        at the first transaction whose input is gone, without undoing the ones before it. rounds is how
        far the walk has come. */
    method AddBlockToBlockchain(b: L.Block, rounds: nat) returns (outcome: C.Outcome)
      requires Valid()
      modifies this`utxos, this`store, this`currentHeight
      ensures Valid() && State() == L.AddBlock(old(State()), b)
      ensures outcome == C.AddOutcome(old(State()), b, rounds)
      ensures outcome == C.Stopped ==> store == old(store) && currentHeight == old(currentHeight)
      ensures outcome != C.Stopped ==>
                && utxos == (if b.nonce == 0 then old(utxos) else L.ApplyAll(old(utxos), b.txs).utxos)
                && store == old(store)[b.hash := L.BlockEntry(b)][L.LAST_BLOCK_KEY := L.HashEntry(b.hash)]
                && currentHeight == old(currentHeight) + 1
    {
      if b.nonce != 0 {
        for i := 0 to |b.txs|
          invariant Valid() && store == old(store) && currentHeight == old(currentHeight)
          invariant L.ApplyAll(old(utxos), b.txs) == L.ApplyAll(utxos, b.txs[i..])
        {
          assert b.txs[i..][0] == b.txs[i] && b.txs[i..][1..] == b.txs[i + 1..];
          var applied := ApplyTransaction(b.txs[i]);
          if !applied { return C.Stopped; }
        }
        assert b.txs[|b.txs|..] == [];
      }
      store := store[b.hash := L.BlockEntry(b)];
      store := store[L.LAST_BLOCK_KEY := L.HashEntry(b.hash)];
      currentHeight := currentHeight + 1;
      var nonces, ended := PrintAllNonces(rounds);
      outcome := if ended then C.Added else C.StillWalking;
    }

    /** Exactly the transactions with an id of one of these are gone. */
    static ghost predicate Cleared(before: map<string, L.Transaction>, after: map<string, L.Transaction>,
        txs: seq<L.Transaction>)
    {
      forall id ::
        && (id in after <==> id in before && forall i :: 0 <= i < |txs| ==> txs[i].id != id)
        && (id in after ==> after[id] == before[id])
    }

    method RemoveTxsFromMempool(txs: seq<L.Transaction>)
      modifies this`mempool
      ensures mempool == old(mempool) - L.Ids(txs)
      ensures Cleared(old(mempool), mempool, txs)
    {
      var toRemove: set<string> := {};
      for i := 0 to |txs|
        invariant toRemove == L.Ids(txs[..i])
      {
        assert txs[..i + 1] == txs[..i] + [txs[i]];
        toRemove := toRemove + {txs[i].id};
      }
      assert txs[..|txs|] == txs;
      var todo := mempool.Keys;
      while todo != {}
        invariant todo <= old(mempool).Keys
        invariant mempool == old(mempool) - (toRemove - todo)
        decreases todo
      {
        var id :| id in todo;
        todo := todo - {id};
        if id in toRemove { mempool := mempool - {id}; }
      }
    }

    /** The mempool is cleared only once the walk has ended. */
    method HandleBlockMessage(b: L.Block, clock: L.Clock, rounds: nat) returns (outcome: C.Outcome)
      requires Valid()
      modifies this
      ensures Valid()
      ensures outcome == if L.ValidateBlock(old(utxos), b, clock) != L.Valid then C.Rejected
                         else C.AddOutcome(old(State()), b, rounds)
      ensures State() == if outcome == C.StillWalking then L.AddBlock(old(State()), b)
                         else L.HandleBlock(old(State()), b, clock)
      ensures outcome == C.Rejected ==> State() == old(State())
      ensures if outcome == C.Added then Cleared(old(mempool), mempool, b.txs) else mempool == old(mempool)
      ensures outcome == C.Rejected <==>
                b.txs == [] || exists i :: 0 <= i < |b.txs| && !L.MayStand(old(utxos), b.txs[i], clock(i))
    {
      L.AcceptedIffAllMayStand(utxos, b, clock);
      hide L.MayStand, Cleared;
      var verdict := ValidateBlock(b, clock);
      if verdict != L.Valid { return C.Rejected; }
      outcome := AddBlockToBlockchain(b, rounds);
      if outcome == C.Added { RemoveTxsFromMempool(b.txs); }
    }

    method CreateGenesisBlock(prevHash: string, hash: string, rounds: nat) returns (b: L.Block, outcome: C.Outcome)
      requires Valid()
      modifies this`utxos, this`store, this`currentHeight
      ensures Valid() && b == C.Genesis(prevHash, hash) && State() == L.AddBlock(old(State()), b)
      ensures outcome == C.AddOutcome(old(State()), b, rounds)
      ensures b.hash == hash && b.prevHash == prevHash && b.nonce == 1 && b.txs == [] && utxos == old(utxos)
    {
      b := L.Block(hash, prevHash, 1, []);
      outcome := AddBlockToBlockchain(b, rounds);
    }

    method CreateCandidateBlock(hash: string, txs: seq<L.Transaction>) returns (b: L.Block)
      ensures b == C.Candidate(State(), hash, txs)
      ensures b.hash == hash && b.txs == txs && b.nonce == currentHeight + 1 && b.prevHash == C.LastHash(store)
    {
      var last := L.LAST_BLOCK_KEY;
      var prevHash := if last in store && store[last].HashEntry? then store[last].hash else "";
      b := L.Block(hash, prevHash, currentHeight + 1, txs);
    }

    /** Adds the block mined from these transactions, which is not validated again, and clears them from
        the mempool once the walk has ended. Nothing is added when there are no transactions, when mining
        found no hash before it was told to stop, or when the block could not be broadcast. */
    method AttemptToMine(found: Option<string>, txs: seq<L.Transaction>, sent: bool, rounds: nat)
      returns (outcome: Option<C.Outcome>)
      requires Valid()
      modifies this
      ensures Valid()
      ensures outcome == None <==> txs == [] || found == None || !sent
      ensures outcome == None ==> State() == old(State())
      ensures outcome != None ==>
                var b := C.Candidate(old(State()), found.value, txs);
                var added := L.AddBlock(old(State()), b);
                && outcome == Some(C.AddOutcome(old(State()), b, rounds))
                && State() == if outcome == Some(C.Added) then added.(mempool := old(mempool) - L.Ids(txs)) else added
      ensures outcome == Some(C.Added) ==>
                var b := L.Block(found.value, C.LastHash(old(store)), old(currentHeight) + 1, txs);
                && (found.value != L.LAST_BLOCK_KEY ==> found.value in store && store[found.value] == L.BlockEntry(b))
                && C.LastHash(store) == found.value && currentHeight == old(currentHeight) + 1
                && utxos == L.ApplyAll(old(utxos), txs).utxos
                && Cleared(old(mempool), mempool, txs)
      ensures outcome != Some(C.Added) ==> mempool == old(mempool)
    {
      hide Cleared;
      if |txs| == 0 || found == None || !sent { return None; }
      var b := CreateCandidateBlock(found.value, txs);
      var added := AddBlockToBlockchain(b, rounds);
      if added == C.Added { RemoveTxsFromMempool(txs); }
      outcome := Some(added);
    }

    /** Walks from the last block towards the first, for at most this many rounds. */
    method PrintAllNonces(rounds: nat) returns (nonces: seq<int>, ended: bool)
      ensures var w := C.WalkFromLast(store, rounds);
        ended == w.ended && nonces == C.Nonces(w.blocks)
    {
      hide *;
      C.NoNonces(store, C.LastHash(store));
      C.FromLast(store, rounds);
      nonces := [];
      var currentHash := C.LastHash(store);
      if |currentHash| == 0 { return nonces, true; }
      ghost var whole := C.Walk(store, currentHash, rounds);
      for left := rounds downto 0
        invariant var w := C.Walk(store, currentHash, left);
          whole.ended == w.ended && C.Nonces(whole.blocks) == nonces + C.Nonces(w.blocks)
      {
        C.WalkUnfolds(store, currentHash, left + 1);
        if currentHash !in store || !store[currentHash].BlockEntry? { return nonces, true; }
        var block := store[currentHash].block;
        nonces := nonces + [block.nonce];
        if C.AllZeros(block.prevHash) { return nonces, true; }
        currentHash := block.prevHash;
      }
      C.NoNonces(store, currentHash);
      ended := false;
    }
  }
}
