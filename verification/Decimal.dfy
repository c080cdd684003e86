/** Positional numerals and scaling by powers of ten: the arithmetic under the Oracle NUMBER codec. */
module Decimal {

  /** The value of a big-endian digit sequence. */
  ghost function Nat(s: seq<int>, base: int): int
  {
    if s == [] then 0 else base * Nat(s[..|s| - 1], base) + s[|s| - 1]
  }

  ghost predicate Digits(s: seq<int>, base: int) {
    forall i :: 0 <= i < |s| ==> 0 <= s[i] < base
  }

  /** x times ten to the power k, for any integer k. Stated by recursion so that all reasoning stays linear. */
  ghost function Scale(x: real, k: int): real
    decreases if k < 0 then -k else k
  {
    if k == 0 then x else if k > 0 then 10.0 * Scale(x, k - 1) else Scale(x, k + 1) / 10.0
  }

  lemma ScaleNext(x: real, k: int)
    ensures Scale(x, k + 1) == 10.0 * Scale(x, k)
  {}

  lemma {:induction false} ScaleScale(x: real, j: int, k: int)
    ensures Scale(Scale(x, j), k) == Scale(x, j + k)
    decreases if k < 0 then -k else k
  {
    if k > 0 {
      ScaleScale(x, j, k - 1);
      ScaleNext(x, j + k - 1);
    } else if k < 0 {
      ScaleScale(x, j, k + 1);
      ScaleNext(x, j + k);
    }
  }

  lemma {:induction false} ScaleSum(x: real, y: real, k: int)
    ensures Scale(x + y, k) == Scale(x, k) + Scale(y, k)
    decreases if k < 0 then -k else k
  {
    if k > 0 {
      ScaleSum(x, y, k - 1);
    } else if k < 0 {
      ScaleSum(x, y, k + 1);
    }
  }

  lemma {:induction false} ScaleZero(k: int)
    ensures Scale(0.0, k) == 0.0
    decreases if k < 0 then -k else k
  {
    if k > 0 {
      ScaleZero(k - 1);
    } else if k < 0 {
      ScaleZero(k + 1);
    }
  }

  lemma {:induction false} ScaleMonotone(x: real, y: real, k: int)
    ensures x < y <==> Scale(x, k) < Scale(y, k)
    ensures x == y <==> Scale(x, k) == Scale(y, k)
    decreases if k < 0 then -k else k
  {
    if k > 0 {
      ScaleMonotone(x, y, k - 1);
    } else if k < 0 {
      ScaleMonotone(x, y, k + 1);
    }
  }

  lemma ScalePositive(x: real, k: int)
    ensures x > 0.0 <==> Scale(x, k) > 0.0
    ensures x < 0.0 <==> Scale(x, k) < 0.0
    ensures x == 0.0 <==> Scale(x, k) == 0.0
  {
    ScaleZero(k);
    ScaleMonotone(0.0, x, k);
    ScaleMonotone(x, 0.0, k);
  }

  /** A larger power of ten is larger. */
  lemma {:induction false} ScaleGrows(x: real, j: int, k: int)
    requires x > 0.0 && j < k
    ensures 10.0 * Scale(x, j) <= Scale(x, k)
    ensures Scale(x, j) < Scale(x, k)
    decreases k - j
  {
    ScalePositive(x, j);
    ScaleNext(x, k - 1);
    if j + 1 < k {
      ScaleGrows(x, j, k - 1);
    }
  }

  /** Appending digits scales the digits before them. */
  lemma {:induction false} NatAppend(a: seq<int>, b: seq<int>)
    ensures Nat(a + b, 10) as real == Scale(Nat(a, 10) as real, |b|) + Nat(b, 10) as real
  {
    if b == [] {
      assert a + b == a;
    } else {
      assert (a + b)[..|a + b| - 1] == a + b[..|b| - 1];
      NatAppend(a, b[..|b| - 1]);
    }
  }

  lemma {:induction false} NatBounds(s: seq<int>)
    requires Digits(s, 10)
    ensures 0 <= Nat(s, 10)
    ensures Nat(s, 10) as real <= Scale(1.0, |s|) - 1.0
  {
    if s != [] {
      NatBounds(s[..|s| - 1]);
    }
  }

  ghost predicate Zeros(s: seq<int>) {
    forall i :: 0 <= i < |s| ==> s[i] == 0
  }

  lemma {:induction false} NatZeros(s: seq<int>)
    requires Zeros(s)
    ensures Nat(s, 10) == 0
  {
    if s != [] {
      NatZeros(s[..|s| - 1]);
    }
  }

  /** Leading zeros do not change a numeral. */
  lemma NatLeadingZeros(z: seq<int>, s: seq<int>)
    requires Zeros(z)
    ensures Nat(z + s, 10) == Nat(s, 10)
  {
    NatAppend(z, s);
    NatZeros(z);
    ScaleZero(|s|);
  }

  /** Each trailing zero is worth one power of ten. */
  lemma NatTrailingZeros(s: seq<int>, z: seq<int>, k: int)
    requires Zeros(z)
    ensures Scale(Nat(s + z, 10) as real, k) == Scale(Nat(s, 10) as real, k + |z|)
  {
    NatAppend(s, z);
    NatZeros(z);
    ScaleScale(Nat(s, 10) as real, |z|, k);
  }

  /** A numeral whose first digit is not zero has its leading exponent where it should be. */
  lemma {:induction false} NatLeading(s: seq<int>)
    requires Digits(s, 10) && s != [] && s[0] != 0
    ensures Scale(1.0, |s| - 1) <= Nat(s, 10) as real
    ensures Nat(s, 10) as real < Scale(1.0, |s|)
  {
    NatBounds(s);
    if |s| > 1 {
      NatLeading(s[..|s| - 1]);
    }
  }
}
