/** The name ledger on values: validating a block against a snapshot, applying it transaction by
    transaction, and what a run of received blocks does to the set of unspent names. */
module Ledger {
  import opened Prelude

  /** A name, where it points, who owns it and until when; a time is a number. */
  datatype UTXO = UTXO(domain: string, ip: string, owner: string, expiration: int)

  datatype Kind = NameNew | NameFirstUpdate | NameUpdate | Unknown

  datatype Transaction = Transaction(id: string, kind: Kind, input: UTXO, output: UTXO, plainDomain: string)

  /** Hashes are written in hexadecimal. */
  datatype Block = Block(hash: string, prevHash: string, nonce: int, txs: seq<Transaction>)

  type Utxos = map<string, UTXO>

  /** What the blockchain store holds under a key: a block, or the hash of the last block. */
  datatype Entry = BlockEntry(block: Block) | HashEntry(hash: string)

  function Zeros(n: nat): (text: string)
    ensures |text| == n && forall i :: 0 <= i < n ==> text[i] == '0'
  {
    if n == 0 then "" else Zeros(n - 1) + "0"
  }

  const LAST_BLOCK_KEY: string := Zeros(64)

  datatype LedgerState = LedgerState(
    utxos: Utxos,
    mempool: map<string, Transaction>,
    store: map<string, Entry>,
    height: nat)

  datatype Problem =
    | NoTransactions | EmptyId | UnknownType | EmptyDomain | DomainExists
    | InputNotFound | WrongDomain | EarlierThanInput | Expired

  datatype Verdict = Valid | Invalid(problem: Problem)

  // ----- looking up a name -----

  /** Every entry is filed under its own domain name. */
  ghost predicate Keyed(s: Utxos) {
    forall k :: k in s ==> s[k].domain == k
  }

  /** An entry the scan of findUTXO may stop at. */
  predicate Matches(u: UTXO, wanted: UTXO) {
    u.domain == wanted.domain && u.owner == wanted.owner
  }

  /** The lookup by key with a check of the owner. */
  function Find(s: Utxos, wanted: UTXO): Option<UTXO> {
    if wanted.domain in s && s[wanted.domain].owner == wanted.owner then Some(s[wanted.domain]) else None
  }

  /** In a keyed set a scan in any order finds what the lookup by key finds, and only that. */
  lemma ScanIsLookup(s: Utxos, wanted: UTXO, k: string)
    requires Keyed(s) && k in s
    ensures Matches(s[k], wanted) <==> Find(s, wanted) == Some(s[k])
    ensures Matches(s[k], wanted) ==> k == wanted.domain
  {
  }

  // ----- validation -----

  predicate Consumes(tx: Transaction) {
    tx.kind == NameFirstUpdate || tx.kind == NameUpdate
  }

  function ValidateTransaction(s: Utxos, tx: Transaction, now: int): Verdict {
    if tx.id == "" then Invalid(EmptyId)
    else match tx.kind
      case NameNew =>
        if tx.output.domain == "" then Invalid(EmptyDomain)
        else if tx.output.domain in s then Invalid(DomainExists)
        else if tx.output.expiration < now then Invalid(Expired)
        else Valid
      case Unknown => Invalid(UnknownType)
      case _ =>
        match Find(s, tx.input)
        case None => Invalid(InputNotFound)
        case Some(input) =>
          var domain := if tx.kind == NameUpdate then input.domain else tx.plainDomain;
          if tx.output.domain != domain then Invalid(WrongDomain)
          else if tx.output.expiration < input.expiration then Invalid(EarlierThanInput)
          else if tx.output.expiration < now then Invalid(Expired)
          else Valid
  }

  /** The time read for each transaction of a block. */
  type Clock = nat -> int

  /** The verdict on the first transaction from i on that fails, each checked against the same set. */
  function ValidateFrom(s: Utxos, txs: seq<Transaction>, i: nat, clock: Clock): Verdict
    requires i <= |txs|
    decreases |txs| - i
  {
    if i == |txs| then Valid
    else
      var first := ValidateTransaction(s, txs[i], clock(i));
      if first != Valid then first else ValidateFrom(s, txs, i + 1, clock)
  }

  function ValidateBlock(s: Utxos, b: Block, clock: Clock): Verdict {
    if b.txs == [] then Invalid(NoTransactions) else ValidateFrom(s, b.txs, 0, clock)
  }

  lemma {:induction false} AllAreValid(s: Utxos, txs: seq<Transaction>, i: nat, clock: Clock)
    requires i <= |txs| && ValidateFrom(s, txs, i, clock) == Valid
    ensures forall j :: i <= j < |txs| ==> ValidateTransaction(s, txs[j], clock(j)) == Valid
    decreases |txs| - i
  {
    if i < |txs| { AllAreValid(s, txs, i + 1, clock); }
  }

  /** The names hold one of this domain and owner. */
  ghost predicate Holds(s: Utxos, u: UTXO, wanted: UTXO) {
    (exists k :: k in s && s[k] == u) && u.domain == wanted.domain && u.owner == wanted.owner
  }

  /** A transaction may stand in a block if it has an id and its output is not to expire before now, and
      a NameNew makes a name that is not empty and that nobody has; a NameUpdate renews a name its input
      holds, a NameFirstUpdate turns such a name into its own plain domain, both not to expire before the
      name they take. */
  ghost predicate MayStand(s: Utxos, tx: Transaction, now: int) {
    && tx.id != "" && tx.output.expiration >= now
    && match tx.kind
       case NameNew => tx.output.domain != "" && forall k :: k in s ==> s[k].domain != tx.output.domain
       case NameUpdate => exists u ::
         Holds(s, u, tx.input) && tx.output.domain == u.domain && tx.output.expiration >= u.expiration
       case NameFirstUpdate => tx.output.domain == tx.plainDomain &&
         exists u :: Holds(s, u, tx.input) && tx.output.expiration >= u.expiration
       case Unknown => false
  }

  lemma HoldsIffFound(s: Utxos, u: UTXO, wanted: UTXO)
    requires Keyed(s)
    ensures Holds(s, u, wanted) <==> Find(s, wanted) == Some(u)
  {
  }

  lemma ValidIffMayStand(s: Utxos, tx: Transaction, now: int)
    requires Keyed(s)
    ensures ValidateTransaction(s, tx, now) == Valid <==> MayStand(s, tx, now)
  {
    forall u ensures Holds(s, u, tx.input) <==> Find(s, tx.input) == Some(u) { HoldsIffFound(s, u, tx.input); }
    hide Holds;
    assert forall k :: k in s ==> s[k].domain == k;
    assert tx.output.domain in s <==> exists k :: k in s && s[k].domain == tx.output.domain;
    if Find(s, tx.input).Some? { assert Holds(s, Find(s, tx.input).value, tx.input); }
  }

  /** What each problem means. */
  ghost predicate HasProblem(s: Utxos, tx: Transaction, now: int, p: Problem) {
    match p
    case NoTransactions => false
    case EmptyId => tx.id == ""
    case UnknownType => tx.kind == Unknown
    case EmptyDomain => tx.kind == NameNew && tx.output.domain == ""
    case DomainExists => tx.kind == NameNew && exists k :: k in s && s[k].domain == tx.output.domain
    case InputNotFound => Consumes(tx) && forall u :: !Holds(s, u, tx.input)
    case WrongDomain =>
      Consumes(tx) &&
      exists u ::
        Holds(s, u, tx.input) && tx.output.domain != if tx.kind == NameUpdate then u.domain else tx.plainDomain
    case EarlierThanInput => Consumes(tx) && exists u :: Holds(s, u, tx.input) && tx.output.expiration < u.expiration
    case Expired => tx.output.expiration < now
  }

  /** The problem reported is there. */
  lemma ReportedProblemIsThere(s: Utxos, tx: Transaction, now: int)
    requires Keyed(s)
    ensures var v := ValidateTransaction(s, tx, now); v != Valid ==> HasProblem(s, tx, now, v.problem)
  {
    forall u ensures Holds(s, u, tx.input) <==> Find(s, tx.input) == Some(u) { HoldsIffFound(s, u, tx.input); }
    hide Holds;
    if Find(s, tx.input).Some? { assert Holds(s, Find(s, tx.input).value, tx.input); }
  }

  /** A block is accepted exactly when it is not empty and each of its transactions may stand in it. */
  lemma AcceptedIffAllMayStand(s: Utxos, b: Block, clock: Clock)
    requires Keyed(s)
    ensures ValidateBlock(s, b, clock) == Valid <==>
            b.txs != [] && forall i :: 0 <= i < |b.txs| ==> MayStand(s, b.txs[i], clock(i))
  {
    hide ValidateTransaction, MayStand, Keyed;
    forall i | 0 <= i < |b.txs|
      ensures ValidateTransaction(s, b.txs[i], clock(i)) == Valid <==> MayStand(s, b.txs[i], clock(i))
    {
      ValidIffMayStand(s, b.txs[i], clock(i));
    }
    if b.txs != [] { ValidIffAllAre(s, b.txs, 0, clock); }
  }

  lemma {:induction false} ValidIffAllAre(s: Utxos, txs: seq<Transaction>, i: nat, clock: Clock)
    requires i <= |txs|
    ensures ValidateFrom(s, txs, i, clock) == Valid <==>
            forall j :: i <= j < |txs| ==> ValidateTransaction(s, txs[j], clock(j)) == Valid
    decreases |txs| - i
  {
    hide ValidateTransaction;
    if i < |txs| { ValidIffAllAre(s, txs, i + 1, clock); }
  }

  // ----- application -----

  /** The set after as many transactions as could be applied, and whether that was all of them. */
  datatype Application = Application(utxos: Utxos, ok: bool)

  function ApplyTransaction(s: Utxos, tx: Transaction): Application {
    match tx.kind
    case NameNew => Application(s[tx.output.domain := tx.output], true)
    case Unknown => Application(s, true)
    case _ =>
      if Find(s, tx.input).None? then Application(s, false)
      else Application((s - {tx.input.domain})[tx.output.domain := tx.output], true)
  }

  function ApplyAll(s: Utxos, txs: seq<Transaction>): Application
    decreases |txs|
  {
    if txs == [] then Application(s, true)
    else
      var first := ApplyTransaction(s, txs[0]);
      if first.ok then ApplyAll(first.utxos, txs[1..]) else first
  }

  /** A block with nonce 0 counts as genesis: its transactions are not applied. */
  function ApplyBlock(s: Utxos, b: Block): Application {
    if b.nonce == 0 then Application(s, true) else ApplyAll(s, b.txs)
  }

  /** A block that fails half way leaves the names as far as it came and is not stored. */
  function AddBlock(s: LedgerState, b: Block): LedgerState {
    var a := ApplyBlock(s.utxos, b);
    if !a.ok then s.(utxos := a.utxos)
    else s.(utxos := a.utxos,
            store := s.store[b.hash := BlockEntry(b)][LAST_BLOCK_KEY := HashEntry(b.hash)],
            height := s.height + 1)
  }

  function Ids(txs: seq<Transaction>): set<string> {
    set tx | tx in txs :: tx.id
  }

  function HandleBlock(s: LedgerState, b: Block, clock: Clock): LedgerState {
    if ValidateBlock(s.utxos, b, clock) != Valid then s
    else
      var added := AddBlock(s, b);
      if ApplyBlock(s.utxos, b).ok then added.(mempool := added.mempool - Ids(b.txs)) else added
  }

  // ----- keys stay domain names -----

  lemma {:induction false} ApplyAllKeyed(s: Utxos, txs: seq<Transaction>)
    requires Keyed(s)
    ensures Keyed(ApplyAll(s, txs).utxos)
    decreases |txs|
  {
    if txs != [] && ApplyTransaction(s, txs[0]).ok {
      ApplyAllKeyed(ApplyTransaction(s, txs[0]).utxos, txs[1..]);
    }
  }

  /** A block that came in a message, or one the node made itself and adds without validating it. */
  datatype LedgerStep =
    | Received(block: Block, clock: Clock)
    | Own(block: Block)

  function Step(s: LedgerState, step: LedgerStep): LedgerState {
    match step
    case Received(b, clock) => HandleBlock(s, b, clock)
    case Own(b) => AddBlock(s, b)
  }

  function Steps(s: LedgerState, steps: seq<LedgerStep>): LedgerState
    decreases |steps|
  {
    if steps == [] then s else Steps(Step(s, steps[0]), steps[1..])
  }

  /** Over every run of received and own blocks each name stays filed under itself, so that at any
      time the scan for an input finds exactly what the lookup by key finds. */
  lemma {:induction false} NamesStayKeyed(s: LedgerState, steps: seq<LedgerStep>)
    requires Keyed(s.utxos)
    ensures Keyed(Steps(s, steps).utxos)
    ensures var u := Steps(s, steps).utxos;
      forall wanted, k :: k in u ==> (Matches(u[k], wanted) <==> Find(u, wanted) == Some(u[k]))
    decreases |steps|
  {
    if steps != [] {
      ApplyAllKeyed(s.utxos, steps[0].block.txs);
      NamesStayKeyed(Step(s, steps[0]), steps[1..]);
    }
  }

  // ----- a snapshot check is enough for independent transactions -----

  /** Inputs name distinct domains, outputs name distinct domains, and no output names the input of
      another transaction. */
  ghost predicate Independent(txs: seq<Transaction>) {
    forall i, j :: 0 <= i < |txs| && 0 <= j < |txs| && i != j ==> DoNotMeet(txs[i], txs[j])
  }

  ghost predicate DoNotMeet(a: Transaction, b: Transaction) {
    && (Consumes(a) && Consumes(b) ==> a.input.domain != b.input.domain)
    && a.output.domain != b.output.domain
    && (Consumes(b) ==> a.output.domain != b.input.domain)
  }

  ghost predicate AllApplicable(s: Utxos, txs: seq<Transaction>) {
    forall i :: 0 <= i < |txs| ==> Applicable(s, txs[i])
  }

  ghost predicate Applicable(s: Utxos, tx: Transaction) {
    tx.kind != Unknown && (Consumes(tx) ==> Find(s, tx.input).Some?)
  }

  ghost predicate IsInput(txs: seq<Transaction>, d: string) {
    exists i :: 0 <= i < |txs| && Consumes(txs[i]) && txs[i].input.domain == d
  }

  ghost predicate IsOutput(txs: seq<Transaction>, d: string) {
    exists i :: 0 <= i < |txs| && txs[i].output.domain == d
  }

  /** r is s without the inputs of txs and with their outputs. */
  ghost predicate IsNetEffect(s: Utxos, txs: seq<Transaction>, r: Utxos) {
    && (forall d :: d in r <==> (d in s && !IsInput(txs, d)) || IsOutput(txs, d))
    && (forall i :: 0 <= i < |txs| ==> txs[i].output.domain in r && r[txs[i].output.domain] == txs[i].output)
    && (forall d :: d in r && !IsOutput(txs, d) ==> d in s && r[d] == s[d])
  }

  lemma ValidAreApplicable(s: Utxos, b: Block, clock: Clock)
    requires ValidateBlock(s, b, clock) == Valid
    ensures AllApplicable(s, b.txs)
  {
    AllAreValid(s, b.txs, 0, clock);
    forall i | 0 <= i < |b.txs| ensures Applicable(s, b.txs[i]) {
      assert ValidateTransaction(s, b.txs[i], clock(i)) == Valid;
    }
  }

  lemma NextApplies(s: Utxos, done: seq<Transaction>, tx: Transaction, r: Utxos)
    requires Independent(done + [tx]) && Applicable(s, tx) && IsNetEffect(s, done, r)
    ensures ApplyTransaction(r, tx).ok && IsNetEffect(s, done + [tx], ApplyTransaction(r, tx).utxos)
  {
    var all := done + [tx];
    forall i | 0 <= i < |done| ensures DoNotMeet(done[i], tx) && DoNotMeet(tx, done[i]) {
      assert all[i] == done[i] && all[|done|] == tx;
      assert DoNotMeet(all[i], all[|done|]) && DoNotMeet(all[|done|], all[i]);
    }
    GrowsByOne(done, tx);
    if Consumes(tx) {
      assert !IsInput(done, tx.input.domain) && !IsOutput(done, tx.input.domain);
    }
  }

  lemma GrowsByOne(done: seq<Transaction>, tx: Transaction)
    ensures forall d :: IsInput(done + [tx], d) <==> IsInput(done, d) || (Consumes(tx) && tx.input.domain == d)
    ensures forall d :: IsOutput(done + [tx], d) <==> IsOutput(done, d) || tx.output.domain == d
  {
    var all := done + [tx];
    assert all[|done|] == tx && forall i :: 0 <= i < |done| ==> all[i] == done[i];
    forall d ensures IsInput(all, d) <==> IsInput(done, d) || (Consumes(tx) && tx.input.domain == d) {
      if IsInput(done, d) {
        var i :| 0 <= i < |done| && Consumes(done[i]) && done[i].input.domain == d;
        assert all[i] == done[i];
      }
    }
    forall d ensures IsOutput(all, d) <==> IsOutput(done, d) || tx.output.domain == d {
      if IsOutput(done, d) { var i :| 0 <= i < |done| && done[i].output.domain == d; assert all[i] == done[i]; }
    }
  }

  lemma {:induction false} RestApplies(s: Utxos, done: seq<Transaction>, rest: seq<Transaction>, r: Utxos)
    requires Independent(done + rest) && AllApplicable(s, rest) && IsNetEffect(s, done, r)
    ensures ApplyAll(r, rest).ok && IsNetEffect(s, done + rest, ApplyAll(r, rest).utxos)
    decreases |rest|
  {
    if rest == [] {
      assert done + rest == done;
    } else {
      var next := done + [rest[0]];
      assert done + rest == next + rest[1..];
      assert Independent(next) by {
        assert forall i :: 0 <= i < |next| ==> next[i] == (done + rest)[i];
      }
      assert Applicable(s, rest[0]);
      NextApplies(s, done, rest[0], r);
      RestApplies(s, next, rest[1..], ApplyTransaction(r, rest[0]).utxos);
    }
  }

  ghost predicate Reordered(txs: seq<Transaction>, order: seq<nat>, shuffled: seq<Transaction>) {
    IsPermutation(order, |txs|) && |shuffled| == |txs| && forall i :: 0 <= i < |txs| ==> shuffled[i] == txs[order[i]]
  }

  lemma SameInputsAndOutputs(txs: seq<Transaction>, order: seq<nat>, shuffled: seq<Transaction>, d: string)
    requires Reordered(txs, order, shuffled)
    ensures IsInput(txs, d) <==> IsInput(shuffled, d)
    ensures IsOutput(txs, d) <==> IsOutput(shuffled, d)
  {
    forall k: nat | k < |txs| ensures exists i :: 0 <= i < |shuffled| && shuffled[i] == txs[k] {
      assert k in order;
      var i :| 0 <= i < |order| && order[i] == k;
      assert shuffled[i] == txs[k];
    }
  }

  lemma SameNetEffect(s: Utxos, txs: seq<Transaction>, order: seq<nat>, shuffled: seq<Transaction>, r: Utxos)
    requires Reordered(txs, order, shuffled) && IsNetEffect(s, shuffled, r)
    ensures IsNetEffect(s, txs, r)
  {
    forall d ensures (IsInput(txs, d) <==> IsInput(shuffled, d)) && (IsOutput(txs, d) <==> IsOutput(shuffled, d)) {
      SameInputsAndOutputs(txs, order, shuffled, d);
    }
    hide IsInput, IsOutput;
    forall k: nat | k < |txs| ensures txs[k].output.domain in r && r[txs[k].output.domain] == txs[k].output {
      assert k in order;
      var i :| 0 <= i < |order| && order[i] == k;
      assert shuffled[i] == txs[k];
    }
  }

  lemma StaysIndependent(txs: seq<Transaction>, order: seq<nat>, shuffled: seq<Transaction>)
    requires Independent(txs) && Reordered(txs, order, shuffled)
    ensures Independent(shuffled)
  {
    forall i, j | 0 <= i < |shuffled| && 0 <= j < |shuffled| && i != j ensures DoNotMeet(shuffled[i], shuffled[j]) {
      assert order[i] != order[j];
    }
  }

  /** When a block passes validation against the current names and its transactions are independent,
      applying them in any order never stops half way and gives the names minus the inputs plus the
      outputs. */
  lemma SnapshotValidationSuffices(s: Utxos, b: Block, clock: Clock, order: seq<nat>, shuffled: seq<Transaction>)
    requires ValidateBlock(s, b, clock) == Valid && b.nonce != 0
    requires Independent(b.txs) && Reordered(b.txs, order, shuffled)
    ensures var a := ApplyBlock(s, b.(txs := shuffled));
      a.ok && IsNetEffect(s, b.txs, a.utxos)
  {
    ValidAreApplicable(s, b, clock);
    StaysIndependent(b.txs, order, shuffled);
    hide Independent, Applicable;
    assert [] + shuffled == shuffled;
    RestApplies(s, [], shuffled, s);
    SameNetEffect(s, b.txs, order, shuffled, ApplyAll(s, shuffled).utxos);
  }

  /** The net effect is one set of names. */
  lemma NetEffectIsUnique(s: Utxos, txs: seq<Transaction>, r: Utxos, t: Utxos)
    requires IsNetEffect(s, txs, r) && IsNetEffect(s, txs, t)
    ensures r == t
  {
    assert r.Keys == t.Keys;
    forall d | d in r ensures r[d] == t[d] {
      if IsOutput(txs, d) { var i :| 0 <= i < |txs| && txs[i].output.domain == d; }
    }
  }

  /** Such a block leaves the same names in whatever order its transactions are applied. */
  lemma OrderDoesNotMatter(s: Utxos, b: Block, clock: Clock, order: seq<nat>, shuffled: seq<Transaction>)
    requires ValidateBlock(s, b, clock) == Valid && b.nonce != 0
    requires Independent(b.txs) && Reordered(b.txs, order, shuffled)
    ensures ApplyBlock(s, b.(txs := shuffled)) == ApplyBlock(s, b)
  {
    var same: seq<nat> := seq(|b.txs|, i => i);
    forall k: nat | k < |b.txs| ensures k in same { assert same[k] == k; }
    SnapshotValidationSuffices(s, b, clock, same, b.txs);
    SnapshotValidationSuffices(s, b, clock, order, shuffled);
    NetEffectIsUnique(s, b.txs, ApplyBlock(s, b.(txs := shuffled)).utxos, ApplyBlock(s, b).utxos);
  }

  // ----- exactly which blocks are applied whole -----

  predicate Outputs(tx: Transaction, d: string) {
    tx.kind != Unknown && tx.output.domain == d
  }

  predicate Touches(tx: Transaction, d: string) {
    Outputs(tx, d) || (Consumes(tx) && tx.input.domain == d)
  }

  ghost predicate Untouched(txs: seq<Transaction>, d: string) {
    forall i :: 0 <= i < |txs| ==> !Touches(txs[i], d)
  }

  ghost predicate LastTouch(txs: seq<Transaction>, j: nat, d: string) {
    j < |txs| && Touches(txs[j], d) && forall l :: j < l < |txs| ==> !Touches(txs[l], d)
  }

  /** The last earlier transaction that touches the name leaves it to the owner that asks for it; if no
      earlier one touches it, it is there before the block. */
  ghost predicate StillThere(s: Utxos, earlier: seq<Transaction>, wanted: UTXO) {
    if Untouched(earlier, wanted.domain) then Find(s, wanted).Some?
    else
      exists j: nat :: LastTouch(earlier, j, wanted.domain) &&
        Outputs(earlier[j], wanted.domain) && earlier[j].output.owner == wanted.owner
  }

  ghost predicate NoneGone(s: Utxos, txs: seq<Transaction>) {
    forall k :: 0 <= k < |txs| && Consumes(txs[k]) ==> StillThere(s, txs[..k], txs[k].input)
  }

  lemma {:induction false} ApplyOneMore(s: Utxos, txs: seq<Transaction>, tx: Transaction)
    ensures var before := ApplyAll(s, txs);
      ApplyAll(s, txs + [tx]) == if before.ok then ApplyTransaction(before.utxos, tx) else before
    decreases |txs|
  {
    if txs == [] {
      assert [tx][1..] == [] && txs + [tx] == [tx];
    } else {
      assert (txs + [tx])[1..] == txs[1..] + [tx];
      var first := ApplyTransaction(s, txs[0]);
      if first.ok { ApplyOneMore(first.utxos, txs[1..], tx); }
    }
  }

  lemma LastTouchOneMore(txs: seq<Transaction>, tx: Transaction, d: string)
    ensures Untouched(txs + [tx], d) <==> Untouched(txs, d) && !Touches(tx, d)
    ensures forall j: nat ::
              LastTouch(txs + [tx], j, d) <==> if Touches(tx, d) then j == |txs| else LastTouch(txs, j, d)
  {
    var all := txs + [tx];
    assert all[|txs|] == tx && forall i :: 0 <= i < |txs| ==> all[i] == txs[i];
    if Untouched(all, d) {
      assert !Touches(all[|txs|], d) && forall i :: 0 <= i < |txs| ==> !Touches(all[i], d);
    }
  }

  /** When all transactions are applied, a name that none of them touches is as it was; any other is what
      the last one that touches it puts there, or gone. */
  lemma {:induction false} NameAfter(s: Utxos, txs: seq<Transaction>, d: string)
    requires ApplyAll(s, txs).ok
    ensures var r := ApplyAll(s, txs).utxos;
      && (Untouched(txs, d) ==> (d in r <==> d in s) && (d in r ==> r[d] == s[d]))
      && forall j: nat :: LastTouch(txs, j, d) ==>
           if Outputs(txs[j], d) then d in r && r[d] == txs[j].output else d !in r
    decreases |txs|
  {
    if txs != [] {
      var n := |txs| - 1;
      var front, last := txs[..n], txs[n];
      assert txs == front + [last];
      ApplyOneMore(s, front, last);
      NameAfter(s, front, d);
      LastTouchOneMore(front, last, d);
    }
  }

  lemma {:induction false} LastTouchExists(txs: seq<Transaction>, d: string) returns (j: nat)
    requires !Untouched(txs, d)
    ensures LastTouch(txs, j, d)
    decreases |txs|
  {
    j := |txs| - 1;
    if !Touches(txs[j], d) {
      var front := txs[..j];
      assert txs == front + [txs[j]];
      LastTouchOneMore(front, txs[j], d);
      j := LastTouchExists(front, d);
    }
  }

  lemma FoundIffStillThere(s: Utxos, earlier: seq<Transaction>, wanted: UTXO)
    requires ApplyAll(s, earlier).ok
    ensures Find(ApplyAll(s, earlier).utxos, wanted).Some? <==> StillThere(s, earlier, wanted)
  {
    hide ApplyAll;
    NameAfter(s, earlier, wanted.domain);
    if !Untouched(earlier, wanted.domain) { var j := LastTouchExists(earlier, wanted.domain); }
  }

  lemma NoneGoneOneMore(s: Utxos, txs: seq<Transaction>, tx: Transaction)
    ensures NoneGone(s, txs + [tx]) <==> NoneGone(s, txs) && (Consumes(tx) ==> StillThere(s, txs, tx.input))
  {
    hide StillThere;
    var all := txs + [tx];
    assert all[|txs|] == tx && all[..|txs|] == txs;
    assert forall k :: 0 <= k < |txs| ==> all[k] == txs[k] && all[..k] == txs[..k];
  }

  lemma AppliesIffFound(s: Utxos, tx: Transaction)
    ensures ApplyTransaction(s, tx).ok <==> (Consumes(tx) ==> Find(s, tx.input).Some?)
  {
  }

  /** Transactions are applied to the last one exactly when each input is still there when its turn
      comes, which can be read off the transactions and the names before the block. */
  lemma {:induction false} AppliesWholeIff(s: Utxos, txs: seq<Transaction>)
    ensures ApplyAll(s, txs).ok <==> NoneGone(s, txs)
    decreases |txs|
  {
    hide StillThere, ApplyTransaction, Find;
    if txs != [] {
      var n := |txs| - 1;
      var front, last := txs[..n], txs[n];
      assert txs == front + [last];
      ApplyOneMore(s, front, last);
      AppliesWholeIff(s, front);
      NoneGoneOneMore(s, front, last);
      if ApplyAll(s, front).ok {
        AppliesIffFound(ApplyAll(s, front).utxos, last);
        FoundIffStillThere(s, front, last.input);
      }
    }
  }

  /** A valid block that stops half way: both transactions update the same name of owner A, the first
      hands it to B. The first stays applied. */
  lemma ValidBlockMayStop(clock: Clock)
    requires clock(0) <= 10 && clock(1) <= 10
    ensures var before, after := UTXO("d", "", "A", 10), UTXO("d", "", "B", 10);
      var tx := Transaction("1", NameUpdate, before, after, "");
      var s, b := map["d" := before], Block("01", "", 2, [tx, tx]);
      && ValidateBlock(s, b, clock) == Valid
      && ApplyBlock(s, b) == Application(map["d" := after], false)
  {
    var before, after := UTXO("d", "", "A", 10), UTXO("d", "", "B", 10);
    var tx := Transaction("1", NameUpdate, before, after, "");
    var s, txs := map["d" := before], [tx, tx];
    assert ValidateFrom(s, txs, 2, clock) == Valid && ValidateFrom(s, txs, 1, clock) == Valid;
    assert ApplyTransaction(s, tx) == Application(map["d" := after], true);
    assert txs[1..] == [tx] && ApplyAll(map["d" := after], [tx]) == Application(map["d" := after], false);
  }

  // ----- expirations never move earlier -----

  /** No NameFirstUpdate among txs takes or makes d. */
  ghost predicate NotRevealed(txs: seq<Transaction>, d: string) {
    forall i :: 0 <= i < |txs| && txs[i].kind == NameFirstUpdate ==>
      txs[i].input.domain != d && txs[i].output.domain != d
  }

  /** What a valid transaction can do to a name that exists already: replace it by itself, not to
      expire earlier. */
  ghost predicate LeavesName(tx: Transaction, d: string, earliest: int) {
    && (tx.output.domain == d && tx.kind != Unknown ==> tx.output.expiration >= earliest)
    && (Consumes(tx) && tx.input.domain == d ==> tx.output.domain == d)
  }

  lemma ValidLeaveName(s: Utxos, b: Block, clock: Clock, d: string)
    requires Keyed(s) && d in s && ValidateBlock(s, b, clock) == Valid && NotRevealed(b.txs, d)
    ensures forall i :: 0 <= i < |b.txs| ==> LeavesName(b.txs[i], d, s[d].expiration)
  {
    AllAreValid(s, b.txs, 0, clock);
    forall i | 0 <= i < |b.txs| ensures LeavesName(b.txs[i], d, s[d].expiration) {
      assert ValidateTransaction(s, b.txs[i], clock(i)) == Valid;
    }
  }

  lemma {:induction false} ApplyLeavesName(s: Utxos, txs: seq<Transaction>, d: string, earliest: int)
    requires d in s && s[d].expiration >= earliest
    requires forall i :: 0 <= i < |txs| ==> LeavesName(txs[i], d, earliest)
    ensures var r := ApplyAll(s, txs).utxos; d in r && r[d].expiration >= earliest
    decreases |txs|
  {
    if txs != [] && ApplyTransaction(s, txs[0]).ok {
      assert LeavesName(txs[0], d, earliest);
      ApplyLeavesName(ApplyTransaction(s, txs[0]).utxos, txs[1..], d, earliest);
    }
  }

  ghost predicate OnlyReceived(steps: seq<LedgerStep>, d: string) {
    forall i :: 0 <= i < |steps| ==> steps[i].Received? && NotRevealed(steps[i].block.txs, d)
  }

  lemma BlockLeavesName(s: LedgerState, b: Block, clock: Clock, d: string)
    requires Keyed(s.utxos) && d in s.utxos && NotRevealed(b.txs, d)
    ensures var r := HandleBlock(s, b, clock).utxos;
      Keyed(r) && d in r && r[d].expiration >= s.utxos[d].expiration
  {
    ApplyAllKeyed(s.utxos, b.txs);
    if ValidateBlock(s.utxos, b, clock) == Valid {
      ValidLeaveName(s.utxos, b, clock, d);
      ApplyLeavesName(s.utxos, b.txs, d, s.utxos[d].expiration);
    }
  }

  /** Over any run of received blocks, rejected ones and ones that stop half way included, a name that
      no NameFirstUpdate takes or makes stays in the set and never expires earlier, even when one
      block updates it several times. */
  lemma {:induction false} NamesNeverExpireEarlier(s: LedgerState, steps: seq<LedgerStep>, d: string)
    requires Keyed(s.utxos) && d in s.utxos && OnlyReceived(steps, d)
    ensures var r := Steps(s, steps).utxos; d in r && r[d].expiration >= s.utxos[d].expiration
    decreases |steps|
  {
    if steps != [] {
      assert steps[0].Received? && NotRevealed(steps[0].block.txs, d);
      BlockLeavesName(s, steps[0].block, steps[0].clock, d);
      NamesNeverExpireEarlier(Step(s, steps[0]), steps[1..], d);
    }
  }

  // ----- what a received block may change -----

  /** Transaction tx puts u among the names. */
  ghost predicate Puts(tx: Transaction, u: UTXO) {
    tx.kind != Unknown && tx.output == u
  }

  ghost predicate ComesFrom(s: Utxos, txs: seq<Transaction>, d: string, u: UTXO) {
    (d in s && s[d] == u) || exists i :: 0 <= i < |txs| && Puts(txs[i], u) && u.domain == d
  }

  lemma {:induction false} NamesComeFrom(s: Utxos, txs: seq<Transaction>, d: string)
    requires d in ApplyAll(s, txs).utxos
    ensures ComesFrom(s, txs, d, ApplyAll(s, txs).utxos[d])
    decreases |txs|
  {
    if txs != [] && ApplyTransaction(s, txs[0]).ok {
      var first := ApplyTransaction(s, txs[0]).utxos;
      NamesComeFrom(first, txs[1..], d);
      var u := ApplyAll(s, txs).utxos[d];
      if i :| 0 <= i < |txs[1..]| && Puts(txs[1..][i], u) && u.domain == d {
        assert txs[i + 1] == txs[1..][i];
      } else {
        assert d in first && first[d] == u;
        if !(d in s && s[d] == u) { assert Puts(txs[0], u); }
      }
    }
  }

  lemma {:induction false} GoneNamesWereTaken(s: Utxos, txs: seq<Transaction>, d: string)
    requires d in s && d !in ApplyAll(s, txs).utxos
    ensures exists i :: 0 <= i < |txs| && Consumes(txs[i]) && txs[i].input.domain == d
    decreases |txs|
  {
    if txs != [] && ApplyTransaction(s, txs[0]).ok {
      var first := ApplyTransaction(s, txs[0]).utxos;
      if d in first {
        GoneNamesWereTaken(first, txs[1..], d);
        var i :| 0 <= i < |txs[1..]| && Consumes(txs[1..][i]) && txs[1..][i].input.domain == d;
        assert txs[i + 1] == txs[1..][i];
      }
    }
  }

  /** Whatever block is received: a name that is new or has changed was put there by a transaction of the
      block that may stand in it; a name that is gone was taken by one. */
  lemma ReceivedChangesAreEntitled(s: LedgerState, b: Block, clock: Clock, d: string)
    requires Keyed(s.utxos)
    ensures var r := HandleBlock(s, b, clock).utxos;
      && (d in r && !(d in s.utxos && s.utxos[d] == r[d]) ==>
            exists i :: 0 <= i < |b.txs| && MayStand(s.utxos, b.txs[i], clock(i)) && b.txs[i].output == r[d] &&
                        r[d].domain == d)
      && (d in s.utxos && d !in r ==>
            exists i :: 0 <= i < |b.txs| && MayStand(s.utxos, b.txs[i], clock(i)) && Consumes(b.txs[i]) &&
                        b.txs[i].input.domain == d)
  {
    AcceptedIffAllMayStand(s.utxos, b, clock);
    hide MayStand, ValidateBlock;
    var r := HandleBlock(s, b, clock).utxos;
    if d in r && !(d in s.utxos && s.utxos[d] == r[d]) {
      NamesComeFrom(s.utxos, b.txs, d);
      var i :| 0 <= i < |b.txs| && Puts(b.txs[i], r[d]) && r[d].domain == d;
    }
    if d in s.utxos && d !in r { GoneNamesWereTaken(s.utxos, b.txs, d); }
  }

  // ----- what an own block does to a name -----

  /** The first p transactions are the ones that are applied. */
  ghost predicate IsApplied(s: Utxos, txs: seq<Transaction>, p: nat) {
    p <= |txs| && NoneGone(s, txs[..p]) && (p < |txs| ==> !NoneGone(s, txs[..p + 1]))
  }

  lemma {:induction false} ApplyStops(s: Utxos, txs: seq<Transaction>, more: seq<Transaction>)
    requires !ApplyAll(s, txs).ok
    ensures ApplyAll(s, txs + more) == ApplyAll(s, txs)
    decreases |txs|
  {
    assert (txs + more)[0] == txs[0] && (txs + more)[1..] == txs[1..] + more;
    var first := ApplyTransaction(s, txs[0]);
    if first.ok { ApplyStops(first.utxos, txs[1..], more); }
  }

  /** What is left is what the applied ones left: the one that fails changes nothing. */
  lemma AppliedDecide(s: Utxos, txs: seq<Transaction>, p: nat)
    requires IsApplied(s, txs, p)
    ensures ApplyAll(s, txs[..p]).ok && ApplyAll(s, txs).utxos == ApplyAll(s, txs[..p]).utxos
  {
    hide NoneGone, ApplyAll;
    AppliesWholeIff(s, txs[..p]);
    if p < |txs| {
      assert txs[..p + 1] == txs[..p] + [txs[p]] && txs == txs[..p + 1] + txs[p + 1..];
      AppliesWholeIff(s, txs[..p + 1]);
      ApplyOneMore(s, txs[..p], txs[p]);
      ApplyStops(s, txs[..p + 1], txs[p + 1..]);
    } else {
      assert txs[..p] == txs;
    }
  }

  /** No transaction touches d, or the last that does puts it there, not to expire before earliest. */
  ghost predicate LeftInTime(txs: seq<Transaction>, d: string, earliest: int) {
    Untouched(txs, d) ||
    exists j: nat :: LastTouch(txs, j, d) && Outputs(txs[j], d) && txs[j].output.expiration >= earliest
  }

  /** A block added without validation keeps a name, not to expire earlier, exactly when it is taken for
      genesis or, of the transactions it applies, the last that touches the name puts it there in time. */
  lemma OwnBlockKeepsNameIff(s: LedgerState, b: Block, p: nat, d: string)
    requires d in s.utxos && IsApplied(s.utxos, b.txs, p)
    ensures var r := AddBlock(s, b).utxos;
      d in r && r[d].expiration >= s.utxos[d].expiration
      <==> b.nonce == 0 || LeftInTime(b.txs[..p], d, s.utxos[d].expiration)
  {
    hide ApplyAll;
    AppliedDecide(s.utxos, b.txs, p);
    NameAfter(s.utxos, b.txs[..p], d);
    if !Untouched(b.txs[..p], d) { var j := LastTouchExists(b.txs[..p], d); }
  }

  /** An own block that makes a name expire earlier: it is not validated, and its NameUpdate goes from
      20 to 10. A received block like it is refused. */
  lemma OwnBlockMayExpireEarlier(clock: Clock)
    ensures var before, after := UTXO("d", "", "A", 20), UTXO("d", "", "A", 10);
      var s := LedgerState(map["d" := before], map[], map[], 0);
      var b := Block("01", "", 1, [Transaction("1", NameUpdate, before, after, "")]);
      && AddBlock(s, b).utxos == map["d" := after]
      && HandleBlock(s, b, clock) == s
  {
    var before, after := UTXO("d", "", "A", 20), UTXO("d", "", "A", 10);
    var tx := Transaction("1", NameUpdate, before, after, "");
    var s := map["d" := before];
    assert ApplyTransaction(s, tx) == Application(map["d" := after], true);
    assert [tx][1..] == [] && ApplyAll(map["d" := after], []) == Application(map["d" := after], true);
    assert ValidateTransaction(s, [tx][0], clock(0)) == Invalid(EarlierThanInput);
  }
}
