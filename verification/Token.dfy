/** The token: balances and total supply in uint64 arithmetic. */
module Tokens {
  import opened Prelude

  type Uint64 = x: int | 0 <= x < TWO_TO_THE_64

  type Balances = map<string, Uint64>

  datatype TokenState = TokenState(supply: Uint64, balances: Balances)

  function Add64(a: Uint64, b: Uint64): (r: Uint64)
    ensures r == (a + b) % TWO_TO_THE_64
  {
    if a + b < TWO_TO_THE_64 then a + b else a + b - TWO_TO_THE_64
  }

  function Sub64(a: Uint64, b: Uint64): (r: Uint64)
    ensures r == (a - b) % TWO_TO_THE_64
  {
    if a >= b then a - b else a - b + TWO_TO_THE_64
  }

  function Balance(t: TokenState, address: string): Uint64 {
    if address in t.balances then t.balances[address] else 0
  }

  datatype Operation =
    | AddAddress(address: string, initial: seq<Uint64>)
    | Mint(to: string, amount: Uint64)
    | Burn(from: string, amount: Uint64)
    | Transfer(from: string, to: string, amount: Uint64)

  /** What AddAddress or Mint brings into circulation. */
  function Issued(op: Operation): Uint64 {
    match op
    case AddAddress(_, initial) => if |initial| == 1 then initial[0] else 0
    case Mint(_, amount) => amount
    case _ => 0
  }

  /** Whether the operation succeeds; a failing one changes nothing. */
  predicate Allowed(t: TokenState, op: Operation) {
    match op
    case AddAddress(address, initial) => |initial| <= 1 && address !in t.balances
    case Mint(_, _) => true
    case Burn(from, amount) => from in t.balances && t.balances[from] >= amount
    case Transfer(from, _, amount) => from in t.balances && t.balances[from] >= amount
  }

  /** The new state; a transfer writes the receiver first and the sender's old balance less the amount last. */
  function Apply(t: TokenState, op: Operation): TokenState {
    if !Allowed(t, op) then t
    else match op
      case AddAddress(address, _) => TokenState(Add64(t.supply, Issued(op)), t.balances[address := Issued(op)])
      case Mint(to, amount) => TokenState(Add64(t.supply, amount), t.balances[to := Add64(Balance(t, to), amount)])
      case Burn(from, amount) =>
        TokenState(Sub64(t.supply, amount), t.balances[from := Sub64(t.balances[from], amount)])
      case Transfer(from, to, amount) =>
        t.(balances := t.balances[to := Add64(Balance(t, to), amount)][from := Sub64(t.balances[from], amount)])
  }

  function Run(t: TokenState, ops: seq<Operation>): TokenState
    decreases |ops|
  {
    if ops == [] then t else Run(Apply(t, ops[0]), ops[1..])
  }

  /** Some uint64 addition or subtraction of the operation leaves the range. */
  predicate Wraps(t: TokenState, op: Operation) {
    Allowed(t, op) &&
    match op
    case AddAddress(_, _) => t.supply + Issued(op) >= TWO_TO_THE_64
    case Mint(to, amount) => t.supply + amount >= TWO_TO_THE_64 || Balance(t, to) + amount >= TWO_TO_THE_64
    case Burn(_, amount) => t.supply < amount
    case Transfer(_, to, amount) => Balance(t, to) + amount >= TWO_TO_THE_64
  }

  // ----- the token object -----

  class Token {
    var totalSupply: Uint64
    var balances: Balances

    ghost function State(): TokenState
      reads this
    {
      TokenState(totalSupply, balances)
    }

    ghost function BalanceOf(address: string): Uint64
      reads this
    {
      if address in balances then balances[address] else 0
    }

    constructor (initialSupply: Uint64)
      ensures State() == TokenState(initialSupply, map[])
    {
      totalSupply, balances := initialSupply, map[];
    }

    method AddAddress(address: string, initialBalance: seq<Uint64>) returns (ok: bool)
      modifies this
      ensures var op := Operation.AddAddress(address, initialBalance);
        ok == Allowed(old(State()), op) && State() == Apply(old(State()), op)
      ensures ok <==> |initialBalance| <= 1 && address !in old(balances)
      ensures !ok ==> State() == old(State())
      ensures ok ==>
                var balance := if |initialBalance| == 1 then initialBalance[0] else 0;
                && balances == old(balances)[address := balance]
                && totalSupply == (old(totalSupply) + balance) % TWO_TO_THE_64
    {
      if |initialBalance| > 1 { return false; }
      var balance: Uint64 := 0;
      if |initialBalance| == 1 { balance := initialBalance[0]; }
      if address in balances { return false; }
      balances := balances[address := balance];
      totalSupply := Add64(totalSupply, balance);
      ok := true;
    }

    method Mint(address: string, amount: Uint64)
      modifies this
      ensures State() == Apply(old(State()), Operation.Mint(address, amount))
      ensures address in balances && BalanceOf(address) == (old(BalanceOf(address)) + amount) % TWO_TO_THE_64
      ensures totalSupply == (old(totalSupply) + amount) % TWO_TO_THE_64
      ensures balances - {address} == old(balances) - {address}
    {
      if address !in balances {
        balances := balances[address := amount];
      } else {
        balances := balances[address := Add64(balances[address], amount)];
      }
      totalSupply := Add64(totalSupply, amount);
    }

    method Burn(address: string, amount: Uint64) returns (ok: bool)
      modifies this
      ensures var op := Operation.Burn(address, amount);
        ok == Allowed(old(State()), op) && State() == Apply(old(State()), op)
      ensures ok <==> address in old(balances) && old(balances[address]) >= amount
      ensures !ok ==> State() == old(State())
      ensures ok ==>
                && address in balances && BalanceOf(address) == old(BalanceOf(address)) - amount
                && totalSupply == (old(totalSupply) - amount) % TWO_TO_THE_64
                && balances - {address} == old(balances) - {address}
    {
      if address !in balances || balances[address] < amount { return false; }
      balances := balances[address := Sub64(balances[address], amount)];
      totalSupply := Sub64(totalSupply, amount);
      ok := true;
    }

    method Transfer(from: string, to: string, amount: Uint64) returns (ok: bool)
      modifies this
      ensures var op := Operation.Transfer(from, to, amount);
        ok == Allowed(old(State()), op) && State() == Apply(old(State()), op)
      ensures ok <==> from in old(balances) && old(balances[from]) >= amount
      ensures !ok ==> State() == old(State())
      ensures totalSupply == old(totalSupply)
      ensures ok ==>
                && from in balances && to in balances && BalanceOf(from) == old(BalanceOf(from)) - amount
                && (from != to ==> BalanceOf(to) == (old(BalanceOf(to)) + amount) % TWO_TO_THE_64)
                && balances - {from, to} == old(balances) - {from, to}
    {
      if from !in balances { return false; }
      var fromBalance := balances[from];
      if fromBalance < amount { return false; }
      if to !in balances {
        balances := balances[to := amount];
      } else {
        balances := balances[to := Add64(balances[to], amount)];
      }
      balances := balances[from := Sub64(fromBalance, amount)];
      ok := true;
    }
  }

  // ----- the sum of all balances -----

  ghost function Total(balances: Balances): nat {
    if balances == map[] then 0
    else
      var a :| a in balances;
      balances[a] + Total(balances - {a})
  }

  lemma {:induction false} TotalWithout(balances: Balances, a: string)
    requires a in balances
    ensures Total(balances) == balances[a] + Total(balances - {a})
    decreases |balances|
  {
    var b :| b in balances && Total(balances) == balances[b] + Total(balances - {b});
    if a != b {
      TotalWithout(balances - {b}, a);
      TotalWithout(balances - {a}, b);
      assert balances - {b} - {a} == balances - {a} - {b};
    }
  }

  lemma TotalUpdate(balances: Balances, a: string, v: Uint64)
    ensures Total(balances[a := v]) == Total(balances) - (if a in balances then balances[a] else 0) + v
  {
    TotalWithout(balances[a := v], a);
    assert balances[a := v] - {a} == balances - {a};
    if a in balances { TotalWithout(balances, a); } else { assert balances - {a} == balances; }
  }

  lemma {:induction false} TotalCovers(balances: Balances, a: string, b: string)
    requires a in balances && (b in balances ==> a != b)
    ensures balances[a] + (if b in balances then balances[b] else 0) <= Total(balances)
  {
    TotalWithout(balances, a);
    if b in balances { TotalWithout(balances - {a}, b); }
  }

  // ----- conservation -----

  predicate BetweenDifferent(op: Operation) {
    op.Transfer? ==> op.from != op.to
  }

  /** What a transfer to oneself loses: the sender's balance is written last. */
  function LostBy(t: TokenState, op: Operation): nat {
    if Allowed(t, op) && !BetweenDifferent(op) then op.amount else 0
  }

  function Lost(t: TokenState, ops: seq<Operation>): nat
    decreases |ops|
  {
    if ops == [] then 0 else LostBy(t, ops[0]) + Lost(Apply(t, ops[0]), ops[1..])
  }

  /** The change of the balances' sum, with what is lost, is the change of the supply, give or take a
      wrap of either. */
  lemma ApplyShifts(t: TokenState, op: Operation) returns (wraps: int)
    ensures var u := Apply(t, op);
      Total(u.balances) + LostBy(t, op) - u.supply == Total(t.balances) - t.supply + wraps * TWO_TO_THE_64
    ensures !Wraps(t, op) || !BetweenDifferent(op) ==> wraps == 0
  {
    wraps := 0;
    if Allowed(t, op) {
      match op
      case AddAddress(address, _) =>
        TotalUpdate(t.balances, address, Issued(op));
        wraps := if t.supply + Issued(op) < TWO_TO_THE_64 then 0 else 1;
      case Mint(to, amount) =>
        TotalUpdate(t.balances, to, Add64(Balance(t, to), amount));
        wraps := (if t.supply + amount < TWO_TO_THE_64 then 0 else 1) -
                 (if Balance(t, to) + amount < TWO_TO_THE_64 then 0 else 1);
      case Burn(from, amount) =>
        TotalUpdate(t.balances, from, Sub64(t.balances[from], amount));
        wraps := if t.supply >= amount then 0 else -1;
      case Transfer(from, to, amount) =>
        TransferShifts(t, from, to, amount);
        wraps := if from == to || Balance(t, to) + amount < TWO_TO_THE_64 then 0 else -1;
    }
  }

  lemma TransferShifts(t: TokenState, from: string, to: string, amount: Uint64)
    requires Allowed(t, Operation.Transfer(from, to, amount))
    ensures Total(Apply(t, Operation.Transfer(from, to, amount)).balances) ==
            if from == to then Total(t.balances) - amount
            else Total(t.balances) - if Balance(t, to) + amount < TWO_TO_THE_64 then 0 else TWO_TO_THE_64
  {
    var received := t.balances[to := Add64(Balance(t, to), amount)];
    TotalUpdate(t.balances, to, received[to]);
    TotalUpdate(received, from, Sub64(t.balances[from], amount));
  }

  /** Over any run at all the balances, the initial supply and what transfers to oneself lost add up to
      the total supply, counted in uint64. */
  lemma {:induction false} SupplyIsCongruent(t: TokenState, ops: seq<Operation>, initial: Uint64)
    requires (Total(t.balances) + initial - t.supply) % TWO_TO_THE_64 == 0
    ensures (Total(Run(t, ops).balances) + initial + Lost(t, ops) - Run(t, ops).supply) % TWO_TO_THE_64 == 0
  {
    var wraps := RunShifts(t, ops);
    ShiftKeepsMultiple(Total(t.balances) + initial - t.supply, wraps);
  }

  lemma {:induction false} RunShifts(t: TokenState, ops: seq<Operation>) returns (wraps: int)
    ensures var u := Run(t, ops);
      Total(u.balances) + Lost(t, ops) - u.supply == Total(t.balances) - t.supply + wraps * TWO_TO_THE_64
    decreases |ops|
  {
    wraps := 0;
    if ops != [] {
      var first := ApplyShifts(t, ops[0]);
      var rest := RunShifts(Apply(t, ops[0]), ops[1..]);
      wraps := first + rest;
    }
  }

  lemma ShiftKeepsMultiple(x: int, k: int)
    requires x % TWO_TO_THE_64 == 0
    ensures (x + k * TWO_TO_THE_64) % TWO_TO_THE_64 == 0
  {
    assert x == x / TWO_TO_THE_64 * TWO_TO_THE_64;
    assert x + k * TWO_TO_THE_64 == (x / TWO_TO_THE_64 + k) * TWO_TO_THE_64;
  }

  /** Every AddAddress and Mint that succeeds keeps the total supply within uint64. */
  ghost predicate IssuesWithinRange(t: TokenState, ops: seq<Operation>)
    decreases |ops|
  {
    ops == [] ||
    ((Allowed(t, ops[0]) ==> t.supply + Issued(ops[0]) < TWO_TO_THE_64) &&
     IssuesWithinRange(Apply(t, ops[0]), ops[1..]))
  }

  lemma NothingWraps(t: TokenState, op: Operation)
    requires Total(t.balances) <= t.supply && BetweenDifferent(op)
    requires Allowed(t, op) ==> t.supply + Issued(op) < TWO_TO_THE_64
    ensures !Wraps(t, op)
  {
    if Allowed(t, op) {
      match op
      case AddAddress(_, _) =>
      case Mint(to, amount) => if to in t.balances { TotalWithout(t.balances, to); }
      case Burn(from, amount) => TotalWithout(t.balances, from);
      case Transfer(from, to, amount) => TotalCovers(t.balances, from, to);
    }
  }

  /** While AddAddress and Mint keep the supply in range, after every operation of the run the balances,
      the initial supply and what transfers to oneself lost are exactly the total supply, and no
      operation wraps but a transfer to oneself. lost is what was missing at the start. */
  lemma {:induction false} SupplyIsExact(t: TokenState, ops: seq<Operation>, initial: Uint64, lost: nat, k: nat)
    requires Total(t.balances) + initial + lost == t.supply && IssuesWithinRange(t, ops) && k <= |ops|
    ensures var u := Run(t, ops[..k]);
      && Total(u.balances) + initial + lost + Lost(t, ops[..k]) == u.supply
      && (k < |ops| && BetweenDifferent(ops[k]) ==> !Wraps(u, ops[k]))
    decreases |ops|
  {
    if ops != [] {
      if BetweenDifferent(ops[0]) { NothingWraps(t, ops[0]); }
      if k > 0 {
        var wraps := ApplyShifts(t, ops[0]);
        SupplyIsExact(Apply(t, ops[0]), ops[1..], initial, lost + LostBy(t, ops[0]), k - 1);
        assert ops[..k][1..] == ops[1..][..k - 1] && ops[..k][0] == ops[0];
      }
    }
  }

  ghost predicate AllBetweenDifferent(ops: seq<Operation>) {
    forall i :: 0 <= i < |ops| ==> BetweenDifferent(ops[i])
  }

  lemma {:induction false} NothingLost(t: TokenState, ops: seq<Operation>)
    requires AllBetweenDifferent(ops)
    ensures Lost(t, ops) == 0
    decreases |ops|
  {
    if ops != [] {
      assert BetweenDifferent(ops[0]);
      NothingLost(Apply(t, ops[0]), ops[1..]);
    }
  }

  lemma NewTokenIsConserved(initial: Uint64)
    ensures Total(TokenState(initial, map[]).balances) + initial == TokenState(initial, map[]).supply
  {
  }

  /** From a new token on, with all transfers between different addresses: balances plus initial supply
      are the total supply, in uint64 always, and exactly and without any wrap while AddAddress and Mint
      keep the supply in range. */
  lemma {:induction false} NewTokenConservesSupply(initial: Uint64, ops: seq<Operation>, k: nat)
    requires AllBetweenDifferent(ops) && k <= |ops|
    ensures var u := Run(TokenState(initial, map[]), ops[..k]);
      && (Total(u.balances) + initial - u.supply) % TWO_TO_THE_64 == 0
      && (IssuesWithinRange(TokenState(initial, map[]), ops) ==>
            && Total(u.balances) + initial == u.supply
            && (k < |ops| ==> !Wraps(u, ops[k])))
  {
    var start := TokenState(initial, map[]);
    NewTokenIsConserved(initial);
    NothingLost(start, ops[..k]);
    SupplyIsCongruent(start, ops[..k], initial);
    if IssuesWithinRange(start, ops) {
      if k < |ops| { assert BetweenDifferent(ops[k]); }
      SupplyIsExact(start, ops, initial, 0, k);
    }
  }

  /** A transfer that succeeds keeps the sum of the balances exactly when it is of nothing, or between
      different addresses and the receiver's balance does not wrap. */
  lemma TransferKeepsTotalIff(t: TokenState, from: string, to: string, amount: Uint64)
    requires Allowed(t, Operation.Transfer(from, to, amount))
    ensures var op := Operation.Transfer(from, to, amount);
      Total(Apply(t, op).balances) == Total(t.balances) <==> amount == 0 || (from != to && !Wraps(t, op))
  {
    TransferShifts(t, from, to, amount);
  }
}
