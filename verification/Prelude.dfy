/** Vocabulary shared by the model: options, bytes, sequences without repetition, permutations and sums. */
module Prelude {

  datatype Option<+T> = None | Some(value: T)

  newtype Byte = x: int | 0 <= x < 256

  /** A Go []byte or string: both hold the same bytes. */
  type Bytes = seq<Byte>

  /** The Go uint64 (and uint) range. */
  const TWO_TO_THE_64: nat := 0x1_0000_0000_0000_0000

  ghost predicate Distinct<T>(s: seq<T>) {
    forall i, j :: 0 <= i < j < |s| ==> s[i] != s[j]
  }

  /** p is a reordering of 0, 1, ..., n-1. */
  ghost predicate IsPermutation(p: seq<nat>, n: nat) {
    && |p| == n
    && (forall i :: 0 <= i < n ==> p[i] < n)
    && Distinct(p)
    && (forall k: nat :: k < n ==> k in p)
  }

  function Max(a: nat, b: nat): nat {
    if a < b then b else a
  }

  function Sum(s: seq<nat>): nat {
    if s == [] then 0 else s[0] + Sum(s[1..])
  }

  lemma {:induction false} SumConcat(a: seq<nat>, b: seq<nat>)
    ensures Sum(a + b) == Sum(a) + Sum(b)
  {
    if a == [] {
      assert a + b == b;
    } else {
      assert (a + b)[1..] == a[1..] + b;
      SumConcat(a[1..], b);
    }
  }

  lemma {:induction false} SumUpdate(s: seq<nat>, i: nat, v: nat)
    requires i < |s|
    ensures Sum(s[i := v]) == Sum(s) - s[i] + v
  {
    if i == 0 {
      assert s[0 := v][1..] == s[1..];
    } else {
      assert s[i := v][1..] == s[1..][i - 1 := v];
      SumUpdate(s[1..], i - 1, v);
    }
  }

  lemma MultipleIsAtLeast(k: int, d: nat)
    ensures k >= 1 ==> k * d >= d
  {
    assert k * d == (k - 1) * d + d;
  }

  lemma Quotient(total: nat, n: nat) returns (share: nat, extra: nat)
    requires n > 0
    ensures share == total / n && extra == total % n && extra < n && n * share + extra == total
  {
    share, extra := total / n, total % n;
  }

  /** The sum of f over the elements of ids. */
  function SumOver<T>(ids: seq<T>, f: T -> nat): nat {
    if ids == [] then 0 else f(ids[0]) + SumOver(ids[1..], f)
  }

  lemma {:induction false} SumOverSame<T>(ids: seq<T>, f: T -> nat, g: T -> nat)
    requires forall x :: x in ids ==> f(x) == g(x)
    ensures SumOver(ids, f) == SumOver(ids, g)
  {
    if ids != [] {
      SumOverSame(ids[1..], f, g);
    }
  }

  lemma {:induction false} SumOverAtMost<T>(ids: seq<T>, f: T -> nat, g: T -> nat)
    requires forall x :: x in ids ==> f(x) <= g(x)
    ensures SumOver(ids, f) <= SumOver(ids, g)
  {
    if ids != [] {
      SumOverAtMost(ids[1..], f, g);
    }
  }

  /** Changing f at one element only changes the sum by the difference there. */
  lemma {:induction false} SumOverChange<T>(ids: seq<T>, a: T, f: T -> nat, g: T -> nat)
    requires Distinct(ids) && a in ids
    requires forall x :: x in ids && x != a ==> f(x) == g(x)
    ensures SumOver(ids, g) == SumOver(ids, f) - f(a) + g(a)
  {
    if ids[0] == a {
      assert a !in ids[1..];
      SumOverSame(ids[1..], f, g);
    } else {
      SumOverChange(ids[1..], a, f, g);
    }
  }

  lemma {:induction false} SumOverComplement<T>(ids: seq<T>, total: nat, f: T -> nat, g: T -> nat)
    requires forall x :: x in ids ==> f(x) + g(x) == total
    ensures SumOver(ids, f) + SumOver(ids, g) == |ids| * total
  {
    if ids != [] {
      SumOverComplement(ids[1..], total, f, g);
      assert |ids| * total == (|ids| - 1) * total + total;
    }
  }
}
