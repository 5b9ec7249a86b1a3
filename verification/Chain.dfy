/** Walking the stored chain from the last block back to genesis. */
module Chain {
  import opened Ledger

  /** A hash of zero bytes only, or none at all: where the walk stops. */
  predicate AllZeros(hash: string) {
    forall i :: 0 <= i < |hash| ==> hash[i] == '0'
  }

  predicate BlockAt(store: map<string, Entry>, hash: string) {
    hash in store && store[hash].BlockEntry?
  }

  function LastHash(store: map<string, Entry>): string {
    if LAST_BLOCK_KEY in store && store[LAST_BLOCK_KEY].HashEntry? then store[LAST_BLOCK_KEY].hash else ""
  }

  /** The blocks a walk from hash visits: it ends where no block is stored, or after a block whose
      previous hash is all zeros. */
  ghost predicate IsChain(store: map<string, Entry>, hash: string, blocks: seq<Block>)
    decreases |blocks|
  {
    if blocks == [] then !BlockAt(store, hash)
    else
      && BlockAt(store, hash) && store[hash].block == blocks[0]
      && if AllZeros(blocks[0].prevHash) then |blocks| == 1 else IsChain(store, blocks[0].prevHash, blocks[1..])
  }

  function Genesis(prevHash: string, hash: string): Block {
    Block(hash, prevHash, 1, [])
  }

  /** The block a node mines on top of what it has. */
  function Candidate(s: LedgerState, hash: string, txs: seq<Transaction>): Block {
    Block(hash, LastHash(s.store), s.height + 1, txs)
  }

  /** What mining gave: the hash found and the transactions taken. */
  datatype Mined = Mined(hash: string, txs: seq<Transaction>)

  function MineAll(s: LedgerState, mined: seq<Mined>): LedgerState
    decreases |mined|
  {
    if mined == [] then s else MineAll(AddBlock(s, Candidate(s, mined[0].hash, mined[0].txs)), mined[1..])
  }

  /** A hash that was never a key and is not the previous hash of genesis. */
  ghost predicate FreshHash(s: LedgerState, genesisPrev: string, hash: string) {
    !AllZeros(hash) && hash !in s.store && hash != genesisPrev
  }

  ghost predicate FreshHashes(s: LedgerState, genesisPrev: string, mined: seq<Mined>)
    decreases |mined|
  {
    mined == [] ||
    (FreshHash(s, genesisPrev, mined[0].hash) &&
     FreshHashes(AddBlock(s, Candidate(s, mined[0].hash, mined[0].txs)), genesisPrev, mined[1..]))
  }

  /** The chain of a state: from the last hash to genesis, nonces counting down to 1. */
  ghost predicate CountsDown(s: LedgerState, genesisPrev: string, chain: seq<Block>) {
    && |chain| == s.height >= 1 && !AllZeros(LastHash(s.store))
    && IsChain(s.store, LastHash(s.store), chain)
    && chain[s.height - 1].prevHash == genesisPrev
    && forall i :: 0 <= i < s.height ==> chain[i].nonce == s.height - i
  }

  /** A block under a fresh hash changes nothing about a chain that was there. */
  lemma {:induction false} ChainKept(s: LedgerState, genesisPrev: string, b: Block, hash: string, chain: seq<Block>)
    requires IsChain(s.store, hash, chain) && FreshHash(s, genesisPrev, b.hash) && !AllZeros(hash)
    requires if chain == [] then hash == genesisPrev else chain[|chain| - 1].prevHash == genesisPrev
    ensures IsChain(s.store[b.hash := BlockEntry(b)][LAST_BLOCK_KEY := HashEntry(b.hash)], hash, chain)
    decreases |chain|
  {
    assert AllZeros(LAST_BLOCK_KEY);
    if chain != [] && !AllZeros(chain[0].prevHash) {
      ChainKept(s, genesisPrev, b, chain[0].prevHash, chain[1..]);
    }
  }

  /** Adding a candidate, whether its transactions can be applied or not, keeps the chain counting down. */
  lemma OneMined(s: LedgerState, genesisPrev: string, m: Mined, chain: seq<Block>) returns (longer: seq<Block>)
    requires CountsDown(s, genesisPrev, chain) && FreshHash(s, genesisPrev, m.hash)
    ensures CountsDown(AddBlock(s, Candidate(s, m.hash, m.txs)), genesisPrev, longer)
  {
    var b := Candidate(s, m.hash, m.txs);
    if ApplyBlock(s.utxos, b).ok {
      assert AllZeros(LAST_BLOCK_KEY);
      ChainKept(s, genesisPrev, b, LastHash(s.store), chain);
      longer := [b] + chain;
      assert longer[1..] == chain;
    } else {
      longer := chain;
    }
  }

  lemma {:induction false} AllMined(s: LedgerState, genesisPrev: string, mined: seq<Mined>, chain: seq<Block>)
    returns (last: seq<Block>)
    requires CountsDown(s, genesisPrev, chain) && FreshHashes(s, genesisPrev, mined)
    ensures CountsDown(MineAll(s, mined), genesisPrev, last)
    decreases |mined|
  {
    if mined == [] {
      last := chain;
    } else {
      var longer := OneMined(s, genesisPrev, mined[0], chain);
      last := AllMined(AddBlock(s, Candidate(s, mined[0].hash, mined[0].txs)), genesisPrev, mined[1..], longer);
    }
  }

  lemma GenesisCountsDown(s: LedgerState, genesisPrev: string, hash: string)
    requires s.store == map[] && s.height == 0 && FreshHash(s, genesisPrev, hash)
    ensures CountsDown(AddBlock(s, Genesis(genesisPrev, hash)), genesisPrev, [Genesis(genesisPrev, hash)])
  {
    assert AllZeros(LAST_BLOCK_KEY);
    var g := Genesis(genesisPrev, hash);
    assert [g][1..] == [];
  }

  /** On fresh storage, when a node adds only its genesis and blocks it mines, each under a fresh hash,
      the walk from the last block visits exactly as many blocks as the height says and ends, with
      nonces from the height down to 1. */
  lemma MinedChainCountsDown(s: LedgerState, genesisPrev: string, hash: string, mined: seq<Mined>)
    returns (chain: seq<Block>)
    requires s.store == map[] && s.height == 0 && FreshHash(s, genesisPrev, hash)
    requires FreshHashes(AddBlock(s, Genesis(genesisPrev, hash)), genesisPrev, mined)
    ensures var last := MineAll(AddBlock(s, Genesis(genesisPrev, hash)), mined);
      && Walk(last.store, LastHash(last.store), last.height + 1) == Walked(chain, true)
      && |chain| == last.height
      && forall i :: 0 <= i < |chain| ==> chain[i].nonce == last.height - i
  {
    GenesisCountsDown(s, genesisPrev, hash);
    chain := AllMined(AddBlock(s, Genesis(genesisPrev, hash)), genesisPrev, mined, [Genesis(genesisPrev, hash)]);
    var last := MineAll(AddBlock(s, Genesis(genesisPrev, hash)), mined);
    ChainIsWalked(last.store, LastHash(last.store), chain, last.height + 1);
  }

  /** A walk is determined by the store: there is at most one chain from a hash. */
  lemma {:induction false} ChainIsUnique(store: map<string, Entry>, hash: string, a: seq<Block>, b: seq<Block>)
    requires IsChain(store, hash, a) && IsChain(store, hash, b)
    ensures a == b
    decreases |a|
  {
    if a != [] && b != [] {
      if !AllZeros(a[0].prevHash) { ChainIsUnique(store, a[0].prevHash, a[1..], b[1..]); }
      assert a == [a[0]] + a[1..] && b == [b[0]] + b[1..];
    }
  }

  // ----- when the walk ends -----

  /** What a walk from hash has visited after at most this many rounds, and whether it has ended. */
  datatype Walked = Walked(blocks: seq<Block>, ended: bool)

  function Walk(store: map<string, Entry>, hash: string, rounds: nat): Walked
    decreases rounds
  {
    if rounds == 0 then Walked([], false)
    else if !BlockAt(store, hash) then Walked([], true)
    else
      var b := store[hash].block;
      if AllZeros(b.prevHash) then Walked([b], true)
      else
        var rest := Walk(store, b.prevHash, rounds - 1);
        Walked([b] + rest.blocks, rest.ended)
  }

  function Nonces(blocks: seq<Block>): seq<int> {
    seq(|blocks|, i requires 0 <= i < |blocks| => blocks[i].nonce)
  }

  lemma NoNonces(store: map<string, Entry>, hash: string)
    ensures Nonces([]) == [] && Walk(store, hash, 0) == Walked([], false)
  {
  }

  lemma FromLast(store: map<string, Entry>, rounds: nat)
    ensures WalkFromLast(store, rounds) ==
            if LastHash(store) == "" then Walked([], true) else Walk(store, LastHash(store), rounds)
  {
  }

  lemma WalkUnfolds(store: map<string, Entry>, hash: string, rounds: nat)
    requires rounds > 0
    ensures var w := Walk(store, hash, rounds);
      if !(hash in store && store[hash].BlockEntry?) then w == Walked([], true)
      else
        var b := store[hash].block;
        if AllZeros(b.prevHash) then w.ended && Nonces(w.blocks) == [b.nonce]
        else
          var rest := Walk(store, b.prevHash, rounds - 1);
          w.ended == rest.ended && Nonces(w.blocks) == [b.nonce] + Nonces(rest.blocks)
  {
  }

  predicate EndsWithin(store: map<string, Entry>, hash: string, rounds: nat) {
    Walk(store, hash, rounds).ended
  }

  /** The walk PrintAllNonces makes: none when there is no last block. */
  function WalkFromLast(store: map<string, Entry>, rounds: nat): Walked {
    if LastHash(store) == "" then Walked([], true) else Walk(store, LastHash(store), rounds)
  }

  ghost predicate WalkEnds(store: map<string, Entry>) {
    LastHash(store) == "" || EndsSometime(store, LastHash(store))
  }

  /** The hashes a walk looks up. */
  function Visited(hash: string, chain: seq<Block>): seq<string>
    decreases |chain|
  {
    [hash] + if chain == [] || AllZeros(chain[0].prevHash) then [] else Visited(chain[0].prevHash, chain[1..])
  }

  /** A walk that has ended has visited a chain; one that has not has visited a block in every round. */
  lemma {:induction false} WalkVisitsChain(store: map<string, Entry>, hash: string, rounds: nat)
    ensures var w := Walk(store, hash, rounds);
      if w.ended then IsChain(store, hash, w.blocks) else |w.blocks| == rounds
    decreases rounds
  {
    if rounds > 0 && BlockAt(store, hash) {
      var b := store[hash].block;
      var rest := Walk(store, b.prevHash, rounds - 1);
      assert ([b] + rest.blocks)[1..] == rest.blocks;
      WalkVisitsChain(store, b.prevHash, rounds - 1);
    }
  }

  /** A chain is walked to its end in any number of rounds greater than its length. */
  lemma {:induction false} ChainIsWalked(store: map<string, Entry>, hash: string, chain: seq<Block>, rounds: nat)
    requires IsChain(store, hash, chain) && rounds > |chain|
    ensures Walk(store, hash, rounds) == Walked(chain, true)
    decreases |chain|
  {
    if chain != [] {
      assert chain == [chain[0]] + chain[1..];
      if !AllZeros(chain[0].prevHash) { ChainIsWalked(store, chain[0].prevHash, chain[1..], rounds - 1); }
    }
  }

  ghost predicate HasChain(store: map<string, Entry>, hash: string) {
    exists chain :: IsChain(store, hash, chain)
  }

  ghost predicate EndsSometime(store: map<string, Entry>, hash: string) {
    exists rounds: nat :: EndsWithin(store, hash, rounds)
  }

  /** The walk ends exactly when there is a chain to walk. */
  lemma {:induction false} EndsIffChain(store: map<string, Entry>, hash: string)
    ensures EndsSometime(store, hash) <==> HasChain(store, hash)
  {
    if EndsSometime(store, hash) {
      var rounds: nat :| EndsWithin(store, hash, rounds);
      WalkVisitsChain(store, hash, rounds);
    }
    if HasChain(store, hash) {
      var chain :| IsChain(store, hash, chain);
      ChainIsWalked(store, hash, chain, |chain| + 1);
      assert EndsWithin(store, hash, |chain| + 1);
    }
  }

  function Extended(store: map<string, Entry>, b: Block): map<string, Entry> {
    store[b.hash := BlockEntry(b)][LAST_BLOCK_KEY := HashEntry(b.hash)]
  }

  /** A chain that does not look up b's hash is the same before and after b is stored. */
  lemma {:induction false} ChainAround(store: map<string, Entry>, b: Block, hash: string, chain: seq<Block>)
    requires b.hash !in Visited(hash, chain) && !AllZeros(hash)
    ensures IsChain(store, hash, chain) <==> IsChain(Extended(store, b), hash, chain)
    decreases |chain|
  {
    assert AllZeros(LAST_BLOCK_KEY);
    assert Visited(hash, chain)[0] == hash;
    if chain != [] && !AllZeros(chain[0].prevHash) {
      assert forall h :: h in Visited(chain[0].prevHash, chain[1..]) ==> h in Visited(hash, chain);
      ChainAround(store, b, chain[0].prevHash, chain[1..]);
    }
  }

  /** A chain below b never comes back to b, which would make it longer than itself. */
  lemma {:induction false} NoWayBack(store: map<string, Entry>, b: Block, hash: string, chain: seq<Block>)
    requires b.hash != LAST_BLOCK_KEY && !AllZeros(b.prevHash) && !AllZeros(hash)
    requires IsChain(Extended(store, b), hash, chain) && b.hash in Visited(hash, chain)
    ensures exists below :: IsChain(Extended(store, b), b.hash, below) && |below| <= |chain|
    decreases |chain|
  {
    if hash == b.hash {
      assert IsChain(Extended(store, b), b.hash, chain);
    } else {
      assert chain != [] && !AllZeros(chain[0].prevHash);
      NoWayBack(store, b, chain[0].prevHash, chain[1..]);
    }
  }

  lemma BelowAvoids(store: map<string, Entry>, b: Block, chain: seq<Block>)
    requires b.hash != LAST_BLOCK_KEY && !AllZeros(b.prevHash)
    requires IsChain(Extended(store, b), b.prevHash, chain)
    ensures b.hash !in Visited(b.prevHash, chain)
  {
    if b.hash in Visited(b.prevHash, chain) {
      NoWayBack(store, b, b.prevHash, chain);
      var below :| IsChain(Extended(store, b), b.hash, below) && |below| <= |chain|;
      var whole := [b] + chain;
      assert whole[1..] == chain && IsChain(Extended(store, b), b.hash, whole);
      ChainIsUnique(Extended(store, b), b.hash, below, whole);
    }
  }

  /** Before b is stored: the walk from its previous hash ends, without looking up the hash of b. */
  ghost predicate EndsWithout(store: map<string, Entry>, b: Block) {
    exists chain :: IsChain(store, b.prevHash, chain) && b.hash !in Visited(b.prevHash, chain)
  }

  /** After a block has been added the walk from it ends exactly when its hash is empty or is taken for
      the key of the last block, or its previous hash is all zeros, or the walk from the previous hash
      ended before and did not meet the hash of the block. */
  lemma {:induction false} AddedWalkEndsIff(s: LedgerState, b: Block)
    requires ApplyBlock(s.utxos, b).ok
    ensures WalkEnds(AddBlock(s, b).store) <==>
            b.hash == "" || b.hash == LAST_BLOCK_KEY || AllZeros(b.prevHash) || EndsWithout(s.store, b)
  {
    var store := AddBlock(s, b).store;
    assert store == Extended(s.store, b) && LastHash(store) == b.hash;
    EndsIffChain(store, b.hash);
    if b.hash == LAST_BLOCK_KEY {
      assert IsChain(store, b.hash, []);
    } else if AllZeros(b.prevHash) {
      assert IsChain(store, b.hash, [b]);
    } else {
      if HasChain(store, b.hash) {
        var chain :| IsChain(store, b.hash, chain);
        BelowAvoids(s.store, b, chain[1..]);
        ChainAround(s.store, b, b.prevHash, chain[1..]);
      }
      if EndsWithout(s.store, b) {
        var chain :| IsChain(s.store, b.prevHash, chain) && b.hash !in Visited(b.prevHash, chain);
        ChainAround(s.store, b, b.prevHash, chain);
        assert ([b] + chain)[1..] == chain;
        assert IsChain(store, b.hash, [b] + chain);
      }
    }
  }

  /** How handling or adding a block ends. After a block has been stored the node walks the chain from
      it, and does nothing else before that walk ends. */
  datatype Outcome = Rejected | Stopped | StillWalking | Added

  function AddOutcome(s: LedgerState, b: Block, rounds: nat): Outcome {
    if !ApplyBlock(s.utxos, b).ok then Stopped
    else if WalkFromLast(AddBlock(s, b).store, rounds).ended then Added
    else StillWalking
  }

  /** Adding a block never comes back exactly when the block applies whole, has a hash of its own and
      another one before it, and the walk from that one did not end or looks up the block itself. */
  lemma {:induction false} AddNeverReturnsIff(s: LedgerState, b: Block)
    ensures (forall rounds: nat :: AddOutcome(s, b, rounds) == StillWalking) <==>
            && ApplyBlock(s.utxos, b).ok && b.hash != "" && b.hash != LAST_BLOCK_KEY
            && !AllZeros(b.prevHash) && !EndsWithout(s.store, b)
  {
    if !ApplyBlock(s.utxos, b).ok {
      assert AddOutcome(s, b, 0) == Stopped;
    } else {
      AddedWalkEndsIff(s, b);
      var store := AddBlock(s, b).store;
      if LastHash(store) == "" {
        assert AddOutcome(s, b, 0) == Added;
      } else if EndsSometime(store, LastHash(store)) {
        var rounds: nat :| EndsWithin(store, LastHash(store), rounds);
        assert AddOutcome(s, b, rounds) == Added;
      } else {
        forall rounds: nat ensures AddOutcome(s, b, rounds) == StillWalking {
          assert !EndsWithin(store, LastHash(store), rounds);
        }
      }
    }
  }

  /** A block that names itself as its previous block is stored, and the walk from it never ends. */
  lemma SelfReferenceNeverReturns(s: LedgerState, b: Block)
    requires ApplyBlock(s.utxos, b).ok && b.hash == b.prevHash && !AllZeros(b.hash)
    ensures forall rounds: nat :: AddOutcome(s, b, rounds) == StillWalking
  {
    AddNeverReturnsIff(s, b);
    assert AllZeros(LAST_BLOCK_KEY);
    forall chain ensures b.hash in Visited(b.prevHash, chain) {
      assert Visited(b.prevHash, chain)[0] == b.hash;
    }
  }

  /** Such a block passes validation on a fresh node. */
  lemma FreshNodeMayNeverReturn(clock: Clock)
    requires clock(0) <= 10
    ensures var s := LedgerState(map[], map[], map[], 0);
      var tx := Transaction("1", NameNew, UTXO("", "", "", 0), UTXO("d", "", "A", 10), "");
      var b := Block("01", "01", 2, [tx]);
      ValidateBlock(s.utxos, b, clock) == Valid && forall rounds: nat :: AddOutcome(s, b, rounds) == StillWalking
  {
    var s := LedgerState(map[], map[], map[], 0);
    var tx := Transaction("1", NameNew, UTXO("", "", "", 0), UTXO("d", "", "A", 10), "");
    var b := Block("01", "01", 2, [tx]);
    assert ValidateFrom(s.utxos, b.txs, 1, clock) == Valid;
    assert b.txs[1..] == [] && ApplyTransaction(s.utxos, tx).ok;
    assert ApplyAll(ApplyTransaction(s.utxos, tx).utxos, []).ok;
    assert b.hash[1] == '1';
    SelfReferenceNeverReturns(s, b);
  }
}
