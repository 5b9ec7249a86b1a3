/** Proof of work: the target a compact number stands for, and the search for a challenge. */
module Pow {
  import opened Prelude
  import L = Ledger

  function Power(base: nat, exponent: nat): (r: nat)
    ensures base > 0 ==> r > 0
  {
    if exponent == 0 then 1 else base * Power(base, exponent - 1)
  }

  // ----- the target -----

  /** The high byte of the low 32 bits, as the conversion to uint8 takes it. */
  function Exponent(bits: int): nat {
    bits / 0x100_0000 % 256
  }

  function Coefficient(bits: int): nat {
    bits % 0x100_0000
  }

  /** Shifts by 8 for each unit the exponent is below or above 3; the product by 8 is a uint8. */
  function ComputeTarget(bits: int): nat {
    var e := Exponent(bits);
    if e <= 3 then Coefficient(bits) / Power(2, (3 - e) * 8 % 256)
    else Coefficient(bits) * Power(2, (e - 3) * 8 % 256)
  }

  /** floor(coefficient * 256^(exponent - 3)). */
  function FloorTarget(bits: int): nat {
    Coefficient(bits) * Power(256, Exponent(bits)) / Power(256, 3)
  }

  lemma Regroup(a: nat, b: nat, c: nat)
    ensures a * (b * c) == (a * b) * c
  {
  }

  lemma {:induction false} PowerSum(base: nat, d: nat, e: nat)
    ensures Power(base, d + e) == Power(base, d) * Power(base, e)
  {
    if d > 0 {
      PowerSum(base, d - 1, e);
      Regroup(base, Power(base, d - 1), Power(base, e));
    }
  }

  lemma PowersOfTwo()
    ensures Power(2, 8) == 256 && Power(256, 3) == 0x100_0000
  {
    assert Power(2, 4) == 16;
    PowerSum(2, 4, 4);
    assert Power(256, 2) == 0x1_0000;
  }

  /** 256^e is 2^(8e). */
  lemma {:induction false} PowerOf256(e: nat)
    ensures Power(256, e) == Power(2, e * 8)
  {
    if e > 0 {
      PowerOf256(e - 1);
      PowersOfTwo();
      PowerSum(2, 8, (e - 1) * 8);
    }
  }

  lemma {:induction false} PowerOfTwoGrows(d: nat, e: nat)
    requires d < e
    ensures Power(2, d) < Power(2, e)
  {
    if d + 1 < e { PowerOfTwoGrows(d, e - 1); }
  }

  lemma QuotientCancels(x: nat, b: nat, m: nat)
    requires b > 0 && m > 0
    ensures b * m > 0 && x * m / (b * m) == x / b
  {
    var q, r := x / b, x % b;
    assert x == q * b + r;
    assert x * m == q * (b * m) + r * m;
    assert 0 <= r * m < b * m;
    DivisionIs(x * m, b * m, q, r * m);
  }

  lemma SmallMultipleIsZero(k: int, d: int)
    requires 0 - d < k * d < d
    ensures k == 0
  {
    if k > 0 { MultipleIsAtLeast(k, d); }
  }

  lemma DivisionIs(x: nat, d: nat, q: nat, r: nat)
    requires d > 0 && x == q * d + r && r < d
    ensures x / d == q
  {
    var p, s := x / d, x % d;
    assert x == p * d + s;
    assert (p - q) * d == p * d - q * d == r - s;
    SmallMultipleIsZero(p - q, d);
  }

  lemma ProductOverFactor(x: nat, m: nat)
    requires m > 0
    ensures x * m / m == x
  {
    DivisionIs(x * m, m, x, 0);
  }

  lemma ProductGrows(c: nat, a: nat, b: nat)
    requires a < b
    ensures c * a == c * b <==> c == 0
  {
    assert c * b - c * a == c * (b - a);
    if c > 0 { assert c * (b - a) >= 1; }
  }

  lemma SmallExponent(bits: int)
    requires Exponent(bits) <= 3
    ensures ComputeTarget(bits) == FloorTarget(bits)
  {
    var e, c := Exponent(bits), Coefficient(bits);
    PowerSum(256, 3 - e, e);
    PowerOf256(3 - e);
    QuotientCancels(c, Power(256, 3 - e), Power(256, e));
  }

  lemma LargeExponentFloor(bits: int)
    requires Exponent(bits) > 3
    ensures FloorTarget(bits) == Coefficient(bits) * Power(2, (Exponent(bits) - 3) * 8)
  {
    var e, c := Exponent(bits), Coefficient(bits);
    PowerSum(256, e - 3, 3);
    PowerOf256(e - 3);
    assert c * (Power(256, e - 3) * Power(256, 3)) == (c * Power(256, e - 3)) * Power(256, 3);
    ProductOverFactor(c * Power(256, e - 3), Power(256, 3));
  }

  /** The target is the floor of coefficient * 256^(exponent - 3) exactly when the exponent byte is at
      most 34, so that the uint8 shift does not wrap, or the coefficient is 0. */
  lemma TargetIsFloorIff(bits: int)
    ensures ComputeTarget(bits) == FloorTarget(bits) <==> Exponent(bits) <= 34 || Coefficient(bits) == 0
  {
    hide FloorTarget, Power, Exponent, Coefficient;
    var e, c := Exponent(bits), Coefficient(bits);
    if e <= 3 {
      SmallExponent(bits);
    } else {
      LargeExponentFloor(bits);
      var exact, shift := (e - 3) * 8, (e - 3) * 8 % 256;
      if e <= 34 {
        assert shift == exact;
      } else {
        PowerOfTwoGrows(shift, exact);
        ProductGrows(c, Power(2, shift), Power(2, exact));
      }
    }
  }

  /** Above 34 the shift wraps: the target is coefficient * 256^((exponent - 3) mod 32) for every exponent
      byte above 3. */
  lemma LargeExponentTarget(bits: int)
    requires Exponent(bits) > 3
    ensures ComputeTarget(bits) == Coefficient(bits) * Power(256, (Exponent(bits) - 3) % 32)
  {
    hide Power, Coefficient, Exponent;
    var e := Exponent(bits);
    EightTimes(e - 3);
    PowerOf256((e - 3) % 32);
  }

  lemma EightTimes(x: nat)
    ensures x * 8 % 256 == x % 32 * 8
  {
    var q, r := x / 32, x % 32;
    assert x * 8 == q * 256 + r * 8 && r * 8 < 256;
  }

  // ----- mining -----

  /** A hash read as a big-endian number. */
  function HashValue(hash: Bytes): nat {
    if hash == [] then 0 else HashValue(hash[..|hash| - 1]) * 256 + hash[|hash| - 1] as int
  }

  predicate MeetsTarget(hash: Bytes, target: nat) {
    HashValue(hash) <= target
  }

  function Digits(n: nat): Bytes {
    var last: Byte := (48 + n % 10) as Byte;
    if n < 10 then [last] else Digits(n / 10) + [last]
  }

  type Marshal = L.Transaction -> Option<Bytes>

  /** The marshalled transactions in a row, or None if one cannot be marshalled. */
  function MarshalAll(marshal: Marshal, txs: seq<L.Transaction>): Option<Bytes> {
    if txs == [] then Some([])
    else
      match marshal(txs[0])
      case Some(first) => Following(first, MarshalAll(marshal, txs[1..]))
      case None => None
  }

  function Following(first: Bytes, rest: Option<Bytes>): Option<Bytes> {
    if rest.Some? then Some(first + rest.value) else None
  }

  lemma FollowingTwice(a: Bytes, b: Bytes, rest: Option<Bytes>)
    ensures Following(a, Following(b, rest)) == Following(a + b, rest)
    ensures Following([], rest) == rest
  {
    if rest.Some? {
      assert a + (b + rest.value) == (a + b) + rest.value;
      assert [] + rest.value == rest.value;
    }
  }

  datatype Header = Header(prevHash: Bytes, nonce: int, txs: seq<L.Transaction>)

  /** The hash of challenge, transactions and previous hash; nil when a transaction cannot be marshalled. */
  function BlockHash(sha: Bytes -> Bytes, marshal: Marshal, h: Header, challenge: nat): Bytes {
    match MarshalAll(marshal, h.txs)
    case Some(data) => sha(Digits(challenge) + data + h.prevHash)
    case None => []
  }

  const MINING_BITS := 0x1f11_1111

  datatype Sealed = Sealed(header: Header, challenge: nat, hash: Bytes)

  method ComputeBlockHash(sha: Bytes -> Bytes, marshal: Marshal, h: Header, challenge: nat) returns (hash: Bytes)
    ensures hash == BlockHash(sha, marshal, h, challenge)
  {
    var txData: Bytes := [];
    FollowingTwice([], [], MarshalAll(marshal, h.txs));
    for i := 0 to |h.txs|
      invariant MarshalAll(marshal, h.txs) == Following(txData, MarshalAll(marshal, h.txs[i..]))
    {
      assert h.txs[i..][0] == h.txs[i] && h.txs[i..][1..] == h.txs[i + 1..];
      var bytes := marshal(h.txs[i]);
      if bytes == None { return []; }
      FollowingTwice(txData, bytes.value, MarshalAll(marshal, h.txs[i + 1..]));
      txData := txData + bytes.value;
    }
    assert h.txs[|h.txs|..] == [] && txData + [] == txData;
    hash := sha(Digits(challenge) + txData + h.prevHash);
  }

  // ----- what a block hash binds -----

  function DigitsValue(digits: Bytes): int {
    if digits == [] then 0
    else DigitsValue(digits[..|digits| - 1]) * 10 + digits[|digits| - 1] as int - 48
  }

  lemma {:induction false} DigitsReadBack(n: nat)
    ensures DigitsValue(Digits(n)) == n && Digits(n) != []
  {
    var d := Digits(n);
    if n < 10 {
      assert d[..0] == [];
    } else {
      DigitsReadBack(n / 10);
      assert d[..|d| - 1] == Digits(n / 10);
    }
  }

  /** The marshalled form of a list is that of its parts in a row. */
  lemma {:induction false} MarshalConcat(marshal: Marshal, a: seq<L.Transaction>, b: seq<L.Transaction>)
    requires MarshalAll(marshal, a).Some? && MarshalAll(marshal, b).Some?
    ensures MarshalAll(marshal, a + b) == Some(MarshalAll(marshal, a).value + MarshalAll(marshal, b).value)
  {
    if a == [] {
      assert a + b == b && [] + MarshalAll(marshal, b).value == MarshalAll(marshal, b).value;
    } else {
      assert (a + b)[0] == a[0] && (a + b)[1..] == a[1..] + b;
      MarshalConcat(marshal, a[1..], b);
      var first, x, y := marshal(a[0]).value, MarshalAll(marshal, a[1..]).value, MarshalAll(marshal, b).value;
      assert first + (x + y) == (first + x) + y;
    }
  }

  lemma MarshalOne(marshal: Marshal, tx: L.Transaction)
    ensures MarshalAll(marshal, [tx]) == marshal(tx)
  {
    assert [tx][1..] == [];
    if marshal(tx).Some? { assert marshal(tx).value + [] == marshal(tx).value; }
  }

  ghost predicate Injective(sha: Bytes -> Bytes) {
    forall x, y :: sha(x) == sha(y) ==> x == y
  }

  lemma SameEnds(a: Bytes, b: Bytes, x: Bytes, y: Bytes)
    requires a + x == b + y && |x| == |y|
    ensures a == b && x == y
  {
    assert |a| == |b|;
    assert a == (a + x)[..|a|] && b == (b + y)[..|a|] && x == (a + x)[|a|..] && y == (b + y)[|a|..];
  }

  /** Two blocks with the same hash, that an injective sha made, agree in challenge and transactions put
      together, and in their previous hashes when these are of one length. Given the same transactions
      the challenges agree, given the same challenge the marshalled transactions do. */
  lemma HashBinds(sha: Bytes -> Bytes, marshal: Marshal, a: Header, c: nat, b: Header, d: nat)
    requires Injective(sha) && MarshalAll(marshal, a.txs).Some? && MarshalAll(marshal, b.txs).Some?
    requires |a.prevHash| == |b.prevHash|
    requires BlockHash(sha, marshal, a, c) == BlockHash(sha, marshal, b, d)
    ensures a.prevHash == b.prevHash
    ensures Digits(c) + MarshalAll(marshal, a.txs).value == Digits(d) + MarshalAll(marshal, b.txs).value
    ensures a.txs == b.txs ==> c == d
    ensures c == d ==> MarshalAll(marshal, a.txs) == MarshalAll(marshal, b.txs)
  {
    var x, y := MarshalAll(marshal, a.txs).value, MarshalAll(marshal, b.txs).value;
    assert Digits(c) + x + a.prevHash == Digits(d) + y + b.prevHash;
    SameEnds(Digits(c) + x, Digits(d) + y, a.prevHash, b.prevHash);
    if a.txs == b.txs {
      SameEnds(Digits(c), Digits(d), x, y);
      DigitsReadBack(c);
      DigitsReadBack(d);
    }
    if c == d { SameEnds(Digits(c), Digits(d), x, y); }
  }

  /** The first byte in which two hashes of one length differ decides which is the greater number. */
  lemma {:induction false} FirstDifferenceDecides(a: Bytes, b: Bytes, i: nat)
    requires i < |a| == |b| && a[..i] == b[..i] && a[i] < b[i]
    ensures HashValue(a) < HashValue(b)
    decreases |a|
  {
    var n := |a| - 1;
    var x, y := a[..n], b[..n];
    if i == n {
      assert x == a[..i] == b[..i] == y;
    } else {
      assert x[..i] == a[..i] && y[..i] == b[..i];
      FirstDifferenceDecides(x, y, i);
    }
  }

  /** Tries challenges from 0 on; patience is how many fit in before mining is told to stop. A block
      returned carries the hash of its own fields, which meets the target, and no smaller challenge
      does; when none is returned every challenge tried has failed. */
  method MineBlock(sha: Bytes -> Bytes, marshal: Marshal, h: Header, patience: nat) returns (mined: Option<Sealed>)
    ensures mined.Some? ==>
              && mined.value.header == h && mined.value.challenge < patience
              && mined.value.hash == BlockHash(sha, marshal, h, mined.value.challenge)
              && HashValue(mined.value.hash) <= FloorTarget(MINING_BITS)
              && forall c: nat :: c < mined.value.challenge ==>
                   HashValue(BlockHash(sha, marshal, h, c)) > FloorTarget(MINING_BITS)
    ensures mined.None? ==>
              forall c: nat :: c < patience ==>
                HashValue(BlockHash(sha, marshal, h, c)) > FloorTarget(MINING_BITS)
  {
    hide ComputeTarget, FloorTarget, BlockHash, HashValue;
    MiningTarget();
    var challenge := 0;
    var target := ComputeTarget(MINING_BITS);
    while challenge < patience
      invariant forall c: nat :: c < challenge ==> !MeetsTarget(BlockHash(sha, marshal, h, c), target)
    {
      var hash := ComputeBlockHash(sha, marshal, h, challenge);
      if MeetsTarget(hash, target) {
        return Some(Sealed(h, challenge, hash));
      }
      challenge := challenge + 1;
    }
    mined := None;
  }

  lemma MiningTarget()
    ensures ComputeTarget(MINING_BITS) == FloorTarget(MINING_BITS)
  {
    hide Power, ComputeTarget, FloorTarget;
    assert Exponent(MINING_BITS) == 31;
    TargetIsFloorIff(MINING_BITS);
  }

  /** The hash is nil exactly when some transaction cannot be marshalled, sha giving no empty hash; and
      a nil hash meets any target, so that mining then returns at once, with no proof of work. */
  lemma {:induction false} NoWorkIffUnmarshalable(sha: Bytes -> Bytes, marshal: Marshal, h: Header, challenge: nat)
    requires forall x :: sha(x) != []
    ensures BlockHash(sha, marshal, h, challenge) == [] <==> exists i :: 0 <= i < |h.txs| && marshal(h.txs[i]) == None
    ensures BlockHash(sha, marshal, h, challenge) == [] ==>
              forall target: nat :: MeetsTarget(BlockHash(sha, marshal, h, challenge), target)
  {
    MarshalFails(marshal, h.txs);
  }

  lemma {:induction false} MarshalFails(marshal: Marshal, txs: seq<L.Transaction>)
    ensures MarshalAll(marshal, txs) == None <==> exists i :: 0 <= i < |txs| && marshal(txs[i]) == None
  {
    if txs != [] {
      MarshalFails(marshal, txs[1..]);
      if i :| 0 <= i < |txs| && marshal(txs[i]) == None {
        if i > 0 { assert txs[1..][i - 1] == txs[i]; }
      }
      if i :| 0 <= i < |txs[1..]| && marshal(txs[1..][i]) == None {
        assert txs[i + 1] == txs[1..][i];
      }
    }
  }
}
