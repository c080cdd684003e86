/** The Oracle NUMBER format: what a byte string denotes, and why comparing bytes compares numbers. */
module OraNumber {
  import opened Decimal

  /** A number in its normal form: base-100 digits, the first of them worth 100 to the power exp. */
  datatype Number =
    | Zero
    | PositiveInfinity
    | NegativeInfinity
    | Finite(negative: bool, exp: int, digits: seq<int>)

  const MAX_DIGITS := 20

  ghost predicate Canonical(n: Number) {
    n.Finite? ==>
      && 1 <= |n.digits| <= MAX_DIGITS && Digits(n.digits, 100)
      && n.digits[0] != 0 && n.digits[|n.digits| - 1] != 0
      && -65 <= n.exp <= 62
  }

  /** The bytes after the length byte. */
  function Encode(n: Number): seq<int> {
    match n
    case Zero => [128]
    case PositiveInfinity => [255, 101]
    case NegativeInfinity => [0]
    case Finite(negative, exp, digits) =>
      if negative then [62 - exp] + Complemented(digits, MAX_DIGITS) else [193 + exp] + Incremented(digits)
  }

  function Incremented(d: seq<int>): seq<int> {
    if d == [] then [] else [d[0] + 1] + Incremented(d[1..])
  }

  lemma {:induction false} IncrementedEach(d: seq<int>)
    ensures |Incremented(d)| == |d| && forall i :: 0 <= i < |d| ==> Incremented(d)[i] == d[i] + 1
  {
    if d != [] {
      IncrementedEach(d[1..]);
    }
  }

  /** Complemented digits, then the terminator 102 when there is room for it. */
  function Complemented(d: seq<int>, room: int): seq<int>
  {
    if d == [] then (if room > 0 then [102] else []) else [101 - d[0]] + Complemented(d[1..], room - 1)
  }

  datatype Extended = MinusInfinity | Real(r: real) | PlusInfinity

  ghost predicate Less(a: Extended, b: Extended) {
    match (a, b)
    case (Real(x), Real(y)) => x < y
    case (MinusInfinity, y) => y != MinusInfinity
    case (x, PlusInfinity) => x != PlusInfinity
    case _ => false
  }

  /** The absolute value written by base-100 digits whose first is worth 100 to the power exp. */
  ghost function Mantissa(digits: seq<int>, exp: int): real {
    Scale(Nat(digits, 100) as real, 2 * (exp + 1 - |digits|))
  }

  ghost function Value(n: Number): Extended {
    match n
    case Zero => Real(0.0)
    case PositiveInfinity => PlusInfinity
    case NegativeInfinity => MinusInfinity
    case Finite(negative, exp, digits) =>
      Real(if negative then -Mantissa(digits, exp) else Mantissa(digits, exp))
  }

  // ---- the digits as a base-100 fraction ----

  ghost function Fraction(d: seq<int>): real {
    if d == [] then 0.0 else d[0] as real + Fraction(d[1..]) / 100.0
  }

  lemma {:induction false} FractionAppend(d: seq<int>, x: int)
    ensures Fraction(d + [x]) == Fraction(d) + Scale(x as real, -2 * |d|)
  {
    if d == [] {
      assert d + [x] == [x] && [x][1..] == [];
    } else {
      assert (d + [x])[1..] == d[1..] + [x];
      FractionAppend(d[1..], x);
      ScaleScale(x as real, -2 * |d[1..]|, -2);
      assert Scale(Scale(x as real, -2 * |d[1..]|), -2) == Scale(Scale(x as real, -2 * |d[1..]|), -1) / 10.0;
    }
  }

  lemma {:induction false} FractionIsNat(d: seq<int>)
    ensures Scale(Nat(d, 100) as real, 2 * (1 - |d|)) == Fraction(d)
  {
    if d == [] {
      ScaleZero(2);
    } else {
      var t, x := d[..|d| - 1], d[|d| - 1];
      var k := 2 * (1 - |d|);
      assert d == t + [x];
      FractionIsNat(t);
      FractionAppend(t, x);
      ScaleSum(100.0 * Nat(t, 100) as real, x as real, k);
      assert Scale(Nat(t, 100) as real, 2) == 100.0 * Nat(t, 100) as real by {
        assert Scale(Nat(t, 100) as real, 1) == 10.0 * Nat(t, 100) as real;
      }
      ScaleScale(Nat(t, 100) as real, 2, k);
    }
  }

  lemma MantissaIsFraction(d: seq<int>, exp: int)
    ensures Mantissa(d, exp) == Scale(Fraction(d), 2 * exp)
  {
    FractionIsNat(d);
    ScaleScale(Nat(d, 100) as real, 2 * (1 - |d|), 2 * exp);
  }

  /** Digits that end in a nonzero digit, as every tail of canonical digits does. */
  ghost predicate Trimmed(d: seq<int>) {
    Digits(d, 100) && (d != [] ==> d[|d| - 1] != 0)
  }

  lemma {:induction false} FractionBounds(d: seq<int>)
    requires Trimmed(d)
    ensures 0.0 <= Fraction(d) < 100.0
    ensures d != [] ==> Fraction(d) > 0.0
    ensures d != [] && d[0] != 0 ==> Fraction(d) >= 1.0
  {
    if d != [] {
      FractionBounds(d[1..]);
    }
  }

  // ---- byte order ----

  /** Lexicographic order, a proper prefix coming first: the order of memcmp on the bytes. */
  ghost predicate LexLess(a: seq<int>, b: seq<int>) {
    b != [] && (a == [] || a[0] < b[0] || (a[0] == b[0] && LexLess(a[1..], b[1..])))
  }

  lemma {:induction false} LexTotal(a: seq<int>, b: seq<int>)
    ensures a == b || LexLess(a, b) || LexLess(b, a)
  {
    if a != [] && b != [] {
      LexTotal(a[1..], b[1..]);
      assert a == [a[0]] + a[1..] && b == [b[0]] + b[1..];
    }
  }

  lemma {:induction false} LexIrreflexive(a: seq<int>)
    ensures !LexLess(a, a)
  {
    if a != [] {
      LexIrreflexive(a[1..]);
    }
  }

  lemma {:induction false} DigitOrder(a: seq<int>, b: seq<int>)
    requires Trimmed(a) && Trimmed(b)
    ensures LexLess(a, b) <==> Fraction(a) < Fraction(b)
  {
    FractionBounds(a);
    FractionBounds(b);
    if a != [] && b != [] {
      FractionBounds(a[1..]);
      FractionBounds(b[1..]);
      DigitOrder(a[1..], b[1..]);
    }
  }

  lemma {:induction false} IncrementedOrder(a: seq<int>, b: seq<int>)
    ensures LexLess(Incremented(a), Incremented(b)) <==> LexLess(a, b)
  {
    if a != [] && b != [] {
      IncrementedOrder(a[1..], b[1..]);
    }
  }

  /** Complementing reverses the order, and the terminator makes a proper prefix come last. */
  lemma {:induction false} ComplementedOrder(a: seq<int>, b: seq<int>, room: int)
    requires Digits(a, 100) && Digits(b, 100) && |a| <= room && |b| <= room
    ensures LexLess(Complemented(a, room), Complemented(b, room)) <==> LexLess(b, a)
  {
    if a != [] && b != [] {
      ComplementedOrder(a[1..], b[1..], room - 1);
    } else if a == [] && b == [] {
      LexIrreflexive(Complemented(a, room));
    }
  }

  /** The value of canonical digits lies between two powers of one hundred. */
  lemma MantissaBounds(d: seq<int>, exp: int)
    requires Trimmed(d) && d != [] && d[0] != 0
    ensures Scale(1.0, 2 * exp) <= Mantissa(d, exp) < Scale(1.0, 2 * exp + 2)
    ensures Mantissa(d, exp) > 0.0
  {
    MantissaIsFraction(d, exp);
    FractionBounds(d);
    ScaleMonotone(1.0, Fraction(d), 2 * exp);
    ScaleMonotone(Fraction(d), 100.0, 2 * exp);
    ScaleScale(1.0, 2, 2 * exp);
    ScalePositive(1.0, 2 * exp);
    assert Scale(1.0, 2) == 100.0 by { assert Scale(1.0, 1) == 10.0; }
  }

  /** Positive numbers compare first by exponent, then by digits. */
  lemma MantissaOrder(a: seq<int>, ea: int, b: seq<int>, eb: int)
    requires Trimmed(a) && a != [] && a[0] != 0
    requires Trimmed(b) && b != [] && b[0] != 0
    ensures Mantissa(a, ea) < Mantissa(b, eb) <==> ea < eb || (ea == eb && LexLess(a, b))
  {
    if ea < eb {
      ExponentDecides(a, ea, b, eb);
    } else if eb < ea {
      ExponentDecides(b, eb, a, ea);
    } else {
      MantissaIsFraction(a, ea);
      MantissaIsFraction(b, eb);
      ScaleMonotone(Fraction(a), Fraction(b), 2 * ea);
      DigitOrder(a, b);
    }
  }

  lemma ExponentDecides(a: seq<int>, ea: int, b: seq<int>, eb: int)
    requires Trimmed(a) && a != [] && a[0] != 0
    requires Trimmed(b) && b != [] && b[0] != 0
    requires ea < eb
    ensures Mantissa(a, ea) < Mantissa(b, eb)
  {
    MantissaBounds(a, ea);
    MantissaBounds(b, eb);
    if ea + 1 < eb {
      ScaleGrows(1.0, 2 * ea + 2, 2 * eb);
    }
  }

  /** The order theorem: canonical encodings compare byte by byte exactly as the numbers they denote. */
  lemma ByteOrderIsNumericOrder(a: Number, b: Number)
    requires Canonical(a) && Canonical(b)
    ensures LexLess(Encode(a), Encode(b)) <==> Less(Value(a), Value(b))
  {
    if a.Finite? {
      MantissaBounds(a.digits, a.exp);
    }
    if b.Finite? {
      MantissaBounds(b.digits, b.exp);
    }
    if a.Finite? && b.Finite? && a.negative == b.negative {
      FiniteOrder(a, b);
    } else if a == b {
      LexIrreflexive(Encode(a));
    } else {
      MixedOrder(a, b);
    }
  }

  lemma FiniteOrder(a: Number, b: Number)
    requires Canonical(a) && Canonical(b) && a.Finite? && b.Finite? && a.negative == b.negative
    ensures LexLess(Encode(a), Encode(b)) <==> Less(Value(a), Value(b))
  {
    if a.negative {
      MantissaOrder(b.digits, b.exp, a.digits, a.exp);
      ComplementedOrder(a.digits, b.digits, MAX_DIGITS);
      assert Encode(a)[1..] == Complemented(a.digits, MAX_DIGITS);
      assert Encode(b)[1..] == Complemented(b.digits, MAX_DIGITS);
    } else {
      MantissaOrder(a.digits, a.exp, b.digits, b.exp);
      IncrementedOrder(a.digits, b.digits);
      assert Encode(a)[1..] == Incremented(a.digits);
      assert Encode(b)[1..] == Incremented(b.digits);
    }
  }

  lemma MixedOrder(a: Number, b: Number)
    requires Canonical(a) && Canonical(b) && a != b
    requires !(a.Finite? && b.Finite? && a.negative == b.negative)
    requires a.Finite? ==> Mantissa(a.digits, a.exp) > 0.0
    requires b.Finite? ==> Mantissa(b.digits, b.exp) > 0.0
    ensures LexLess(Encode(a), Encode(b)) <==> Less(Value(a), Value(b))
  {
    var x, y := Encode(a), Encode(b);
    if x[0] == y[0] {
      assert a.Finite? ==> x[1..] == if a.negative then Complemented(a.digits, MAX_DIGITS) else Incremented(a.digits);
      assert b.Finite? ==> y[1..] == if b.negative then Complemented(b.digits, MAX_DIGITS) else Incremented(b.digits);
      assert a.PositiveInfinity? ==> x[1..] == [101];
      assert b.PositiveInfinity? ==> y[1..] == [101];
    }
  }

  /** A value has one canonical encoding. */
  lemma EncodingIsUnique(a: Number, b: Number)
    requires Canonical(a) && Canonical(b) && Value(a) == Value(b)
    ensures Encode(a) == Encode(b)
  {
    ByteOrderIsNumericOrder(a, b);
    ByteOrderIsNumericOrder(b, a);
    LexTotal(Encode(a), Encode(b));
  }

  // ---- the bytes, read one by one ----

  /**
   * What digit bytes weigh: each is worth its digit times a power of one hundred, from 100 to the power k down. A
   * digit is stored one higher, and in a negative number taken from 101, where 102 ends the digits.
   */
  ghost function Weight(bytes: seq<int>, k: int, negative: bool): real {
    if bytes == [] || (negative && bytes[0] == 102) then 0.0
    else
      var digit := if negative then 101 - bytes[0] else bytes[0] - 1;
      Scale(digit as real, 2 * k) + Weight(bytes[1..], k - 1, negative)
  }

  ghost function Weighed(bytes: seq<int>): Extended {
    if bytes == [0] then MinusInfinity
    else if bytes == [128] || bytes == [] then Real(0.0)
    else if bytes == [255, 101] then PlusInfinity
    else if bytes[0] >= 128 then Real(Weight(bytes[1..], bytes[0] - 193, false))
    else Real(-Weight(bytes[1..], 62 - bytes[0], true))
  }

  lemma {:induction false} IncrementedWeight(d: seq<int>, k: int)
    ensures Weight(Incremented(d), k, false) == Scale(Fraction(d), 2 * k)
  {
    if d == [] {
      ScaleZero(2 * k);
    } else {
      IncrementedWeight(d[1..], k - 1);
      FractionScale(d, k);
    }
  }

  lemma {:induction false} ComplementedWeight(d: seq<int>, room: int, k: int)
    requires Digits(d, 100)
    ensures Weight(Complemented(d, room), k, true) == Scale(Fraction(d), 2 * k)
  {
    if d == [] {
      ScaleZero(2 * k);
    } else {
      ComplementedWeight(d[1..], room - 1, k - 1);
      FractionScale(d, k);
    }
  }

  lemma FractionScale(d: seq<int>, k: int)
    requires d != []
    ensures Scale(Fraction(d), 2 * k) == Scale(d[0] as real, 2 * k) + Scale(Fraction(d[1..]), 2 * (k - 1))
  {
    ScaleSum(d[0] as real, Fraction(d[1..]) / 100.0, 2 * k);
    assert Scale(Fraction(d[1..]), -2) == Fraction(d[1..]) / 100.0 by {
      assert Scale(Fraction(d[1..]), -1) == Fraction(d[1..]) / 10.0;
    }
    ScaleScale(Fraction(d[1..]), -2, 2 * k);
  }

  /** Read one by one, the bytes of a canonical number weigh what it denotes. */
  lemma BytesWeighValue(n: Number)
    requires Canonical(n)
    ensures Weighed(Encode(n)) == Value(n)
  {
    if n.Finite? {
      MantissaIsFraction(n.digits, n.exp);
      IncrementedWeight(n.digits, n.exp);
      ComplementedWeight(n.digits, MAX_DIGITS, n.exp);
      assert Encode(n)[1..] == if n.negative then Complemented(n.digits, MAX_DIGITS) else Incremented(n.digits);
      IncrementedEach(n.digits);
    }
  }
}
