/** oranumber_from_str: decimal text to Oracle NUMBER bytes, rounded to 20 base-100 digits. */
module NumberParser {
  import opened Decimal
  import opened NumberText
  import opened Basics
  import opened OraNumber

  /** Success carries the length byte and the bytes; the failures are ORA-01722 and ORA-01426. */
  datatype Outcome = Ok(part: seq<int>) | InvalidNumber | NumericOverflow

  function Part(n: Number): seq<int> {
    [|Encode(n)|] + Encode(n)
  }

  // ---- the specification ----

  /** The leading digit of x has the weight of 10 to the power e. */
  ghost predicate Leads(x: real, e: int) {
    Scale(1.0, e) <= x < Scale(1.0, e + 1)
  }

  /** The multiple of 10 to the power q nearest to x, the upper one when two are equally near. */
  ghost function RoundHalfUp(x: real, q: int): real {
    Scale((Scale(x, -q) + 0.5).Floor as real, q)
  }

  /** Twenty base-100 digits of x, counted from the one that holds its leading decimal digit. */
  ghost predicate IsRounded(x: real, w: real) {
    (x == 0.0 && w == 0.0) || exists e :: Leads(x, e) && w == RoundHalfUp(x, 2 * (e / 2) - 38)
  }

  ghost predicate Stores(negative: bool, w: real, r: Outcome) {
    if w < Scale(1.0, -130) then r == Ok(Part(Zero))
    else if w >= Scale(1.0, 126) then r == NumericOverflow
    else exists n :: Canonical(n) && Value(n) == Real(if negative then -w else w) && r == Ok(Part(n))
  }

  ghost predicate Denotes(l: Literal, r: Outcome) {
    match l.body
    case Tilde => r == Ok(Part(if l.sign == Minus then NegativeInfinity else PositiveInfinity))
    case Numeral(_, _, _, _) => exists w :: IsRounded(Magnitude(l.body), w) && Stores(l.sign == Minus, w, r)
  }

  /** What oranumber_from_str promises for a text: reject it, or round and store what it denotes. */
  ghost predicate Conforms(text: string, r: Outcome) {
    match Parse(text)
    case None => r == InvalidNumber
    case Some(l) => Denotes(l, r)
  }

  // ---- the specification determines the outcome ----

  lemma LeadsUnique(x: real, d: int, e: int)
    requires Leads(x, d) && Leads(x, e)
    ensures d == e
  {
    if d + 1 < e {
      ScaleGrows(1.0, d + 1, e);
    } else if e + 1 < d {
      ScaleGrows(1.0, e + 1, d);
    }
  }

  lemma LeadsPositive(x: real, e: int)
    requires Leads(x, e)
    ensures x > 0.0
  {
    ScalePositive(1.0, e);
  }

  lemma RoundedUnique(x: real, v: real, w: real)
    requires IsRounded(x, v) && IsRounded(x, w)
    ensures v == w
  {
    if d :| Leads(x, d) && v == RoundHalfUp(x, 2 * (d / 2) - 38) {
      LeadsPositive(x, d);
      var e :| Leads(x, e) && w == RoundHalfUp(x, 2 * (e / 2) - 38);
      LeadsUnique(x, d, e);
    } else if e :| Leads(x, e) {
      LeadsPositive(x, e);
    }
  }

  lemma StoresUnique(negative: bool, w: real, r: Outcome, s: Outcome)
    requires Stores(negative, w, r) && Stores(negative, w, s)
    ensures r == s
  {
    if r.Ok? && s.Ok? && Scale(1.0, -130) <= w < Scale(1.0, 126) {
      var m :| Canonical(m) && Value(m) == Real(if negative then -w else w) && r == Ok(Part(m));
      var n :| Canonical(n) && Value(n) == Real(if negative then -w else w) && s == Ok(Part(n));
      EncodingIsUnique(m, n);
    }
  }

  /** Texts of equal sign and equal rounded value give identical bytes, or fail alike. */
  lemma EqualValuesEqualOutcomes(a: string, b: string, r: Outcome, s: Outcome, w: real)
    requires Conforms(a, r) && Conforms(b, s)
    requires Parse(a).Some? && Parse(b).Some? && Parse(a).value.body.Numeral? && Parse(b).value.body.Numeral?
    requires IsRounded(Magnitude(Parse(a).value.body), w) && IsRounded(Magnitude(Parse(b).value.body), w)
    requires (Parse(a).value.sign == Minus) == (Parse(b).value.sign == Minus)
    ensures r == s
  {
    var negative := Parse(a).value.sign == Minus;
    var v :| IsRounded(Magnitude(Parse(a).value.body), v) && Stores(negative, v, r);
    var u :| IsRounded(Magnitude(Parse(b).value.body), u) && Stores(negative, u, s);
    RoundedUnique(Magnitude(Parse(a).value.body), v, w);
    RoundedUnique(Magnitude(Parse(b).value.body), u, w);
    StoresUnique(negative, w, r, s);
  }

  /** The contract fixes the outcome for every text. */
  lemma OutcomeUnique(text: string, r: Outcome, s: Outcome)
    requires Conforms(text, r) && Conforms(text, s)
    ensures r == s
  {
    if Parse(text).Some? && Parse(text).value.body.Numeral? {
      var w :| IsRounded(Magnitude(Parse(text).value.body), w) && Stores(Parse(text).value.sign == Minus, w, r);
      EqualValuesEqualOutcomes(text, text, r, s, w);
    }
  }

  /** A text with an exponent and the text with its point moved instead have the same outcome. */
  lemma ExponentOrPoint(l: Literal, r: Outcome, s: Outcome)
    requires WellFormed(l) && l.body.Numeral? && l.body.exponent.Exponent? && Conforms(Render(l), r)
    requires var k := Nat(Values(l.body.exponent.digits), 10);
             var e := if l.body.exponent.sign == Minus then -k else k;
             Conforms(Render(Literal(l.lead, l.sign, Moved(l.body.whole, l.body.fraction, e), l.trail)), s)
    ensures r == s
  {
    var x := l.body.exponent;
    var k := Nat(Values(x.digits), 10);
    var e := if x.sign == Minus then -k else k;
    var moved := Literal(l.lead, l.sign, Moved(l.body.whole, l.body.fraction, e), l.trail);
    MovedForm(l, e);
    ExponentMovesPoint(l.body, x.upper, x.sign, x.digits);
    EqualMagnitudes(l, moved, r, s);
  }

  lemma EqualMagnitudes(l: Literal, m: Literal, r: Outcome, s: Outcome)
    requires WellFormed(l) && WellFormed(m) && l.sign == m.sign && l.body.Numeral? && m.body.Numeral?
    requires Magnitude(l.body) == Magnitude(m.body) && Conforms(Render(l), r) && Conforms(Render(m), s)
    ensures r == s
  {
    ParseRender(l);
    ParseRender(m);
    var w :| IsRounded(Magnitude(l.body), w) && Stores(l.sign == Minus, w, r);
    EqualValuesEqualOutcomes(Render(l), Render(m), r, s, w);
  }

  /** The rounded value is a multiple of the last place, nearer than half of it, or as near and above. */
  lemma RoundsToNearest(x: real, q: int)
    ensures var w := Scale(RoundHalfUp(x, q), -q);
            w == w.Floor as real && -0.5 < w - Scale(x, -q) <= 0.5
  {
    ScaleScale((Scale(x, -q) + 0.5).Floor as real, q, -q);
  }

  /** What overflows, and what is stored as zero. */
  lemma OverflowIff(l: Literal, r: Outcome, w: real)
    requires WellFormed(l) && l.body.Numeral? && Conforms(Render(l), r) && IsRounded(Magnitude(l.body), w)
    ensures r == NumericOverflow <==> w >= Scale(1.0, 126)
    ensures r == Ok([1, 128]) <==> w < Scale(1.0, -130)
  {
    ParseRender(l);
    var v :| IsRounded(Magnitude(l.body), v) && Stores(l.sign == Minus, v, r);
    RoundedUnique(Magnitude(l.body), v, w);
    ScaleGrows(1.0, -130, 126);
    StoredOrNot(l.sign == Minus, w, r);
  }

  lemma StoredOrNot(negative: bool, w: real, r: Outcome)
    requires Stores(negative, w, r) && Scale(1.0, -130) < Scale(1.0, 126)
    ensures r == NumericOverflow <==> w >= Scale(1.0, 126)
    ensures r == Ok([1, 128]) <==> w < Scale(1.0, -130)
  {
    if Scale(1.0, -130) <= w < Scale(1.0, 126) {
      ScalePositive(1.0, -130);
      var n :| Canonical(n) && Value(n) == Real(if negative then -w else w) && r == Ok(Part(n));
      assert n.Finite? && |Part(n)| == 1 + |Encode(n)|;
      assert Part(n)[0] == |Encode(n)| && Encode(n)[1..] != [];
    }
  }

  lemma SignAndRest(lead: nat, sign: Sign, t: string)
    requires sign == Unsigned ==> t != "" && t[0] !in " +-"
    ensures Parse(Spaces(lead) + (SignText(sign) + t)).Some? ==>
              Parse(Spaces(lead) + (SignText(sign) + t)).value.sign == sign
  {
    var rest := SignText(sign) + t;
    RunPrefix(Blank, Spaces(lead), rest);
    assert (Spaces(lead) + rest)[lead..] == rest;
  }

  /** Whatever is behind a minus sign stores zero or bytes below those of zero. */
  lemma MinusIsBelowZero(lead: nat, t: string, r: Outcome)
    requires Conforms(Spaces(lead) + ("-" + t), r) && r.Ok?
    ensures r.part == [1, 128] || (|r.part| > 1 && 0 <= r.part[1] < 128)
  {
    SignAndRest(lead, Minus, t);
    var l := Parse(Spaces(lead) + ("-" + t)).value;
    if l.body.Numeral? {
      var w :| IsRounded(Magnitude(l.body), w) && Stores(true, w, r);
      NegativeBytes(w, r);
    }
  }

  lemma NegativeBytes(w: real, r: Outcome)
    requires Stores(true, w, r) && r.Ok?
    ensures r.part == [1, 128] || (|r.part| > 1 && 0 <= r.part[1] < 128)
  {
    if w >= Scale(1.0, -130) {
      ScalePositive(1.0, -130);
      var n :| Canonical(n) && Value(n) == Real(-w) && r == Ok(Part(n));
      if n.Finite? {
        MantissaBounds(n.digits, n.exp);
      }
    }
  }

  lemma NoMinusSign(lead: nat, t: string)
    requires t != "" && t[0] !in " -" && Parse(Spaces(lead) + t).Some?
    ensures Parse(Spaces(lead) + t).value.sign != Minus
  {
    if t[0] == '+' {
      assert t == "+" + t[1..];
      SignAndRest(lead, Plus, t[1..]);
    } else {
      assert "" + t == t;
      SignAndRest(lead, Unsigned, t);
    }
  }

  /** Without one it stores zero or more. */
  lemma NoMinusIsFromZero(lead: nat, t: string, r: Outcome)
    requires t != "" && t[0] !in " -" && Conforms(Spaces(lead) + t, r) && r.Ok?
    ensures |r.part| > 1 && r.part[1] >= 128
  {
    NoMinusSign(lead, t);
    var l := Parse(Spaces(lead) + t).value;
    if l.body.Numeral? {
      var w :| IsRounded(Magnitude(l.body), w) && Stores(false, w, r);
      PositiveBytes(w, r);
    }
  }

  lemma PositiveBytes(w: real, r: Outcome)
    requires Stores(false, w, r) && r.Ok?
    ensures |r.part| > 1 && r.part[1] >= 128
  {
    if w >= Scale(1.0, -130) {
      ScalePositive(1.0, -130);
      var n :| Canonical(n) && Value(n) == Real(w) && r == Ok(Part(n));
      if n.Finite? {
        MantissaBounds(n.digits, n.exp);
      }
    }
  }

  /** The infinities. */
  lemma TildeBytes(lead: nat, negative: bool, r: Outcome)
    requires Conforms(Spaces(lead) + if negative then "-~" else "~", r)
    ensures r == Ok(if negative then [1, 0] else [2, 255, 101])
  {
    var sign := if negative then Minus else Unsigned;
    assert SignText(sign) + "~" == if negative then "-~" else "~";
    TildeText(lead, sign);
    TildeOutcome(Spaces(lead) + (SignText(sign) + "~"), lead, sign, r);
  }

  lemma TildeOutcome(text: string, lead: nat, sign: Sign, r: Outcome)
    requires Parse(text) == Some(Literal(lead, sign, Tilde, 0)) && Conforms(text, r)
    ensures r == Ok(if sign == Minus then [1, 0] else [2, 255, 101])
  {
  }

  lemma TildeText(lead: nat, sign: Sign)
    ensures Parse(Spaces(lead) + (SignText(sign) + "~")) == Some(Literal(lead, sign, Tilde, 0))
  {
    ParseRender(Literal(lead, sign, Tilde, 0));
    assert "~" + Spaces(0) == "~";
  }

  /** Every stored result is the encoding of a canonical number. */
  lemma OutcomeIsCanonical(text: string, r: Outcome)
    requires Conforms(text, r) && r.Ok?
    ensures exists n :: Canonical(n) && r.part == Part(n)
  {
    var l := Parse(text).value;
    if l.body == Tilde {
      var n := if l.sign == Minus then NegativeInfinity else PositiveInfinity;
      assert Canonical(n) && r.part == Part(n);
    } else {
      var w :| IsRounded(Magnitude(l.body), w) && Stores(l.sign == Minus, w, r);
      if w < Scale(1.0, -130) {
        assert Canonical(Zero) && r.part == Part(Zero);
      }
    }
  }

  // ---- significant digits ----

  /** The digits after the leading zeros. */
  function Significant(s: string): seq<int> {
    Values(s)[Run(Nought, s)..]
  }

  /** The decimal exponent of the first significant digit, before the written exponent is added. */
  function FirstExponent(whole: string, fraction: string): int {
    |whole| - Run(Nought, whole + fraction) - 1
  }

  lemma SignificantDigits(s: string)
    requires All(Digit, s)
    ensures Digits(Significant(s), 10)
    ensures Significant(s) != [] ==> Significant(s)[0] != 0
  {
    var z := Run(Nought, s);
    RunIsMaximal(Nought, s);
    if z < |s| {
      assert Significant(s)[0] == Values(s)[z] == s[z] as int - '0' as int;
      assert !Is(Nought, s[z]);
    }
  }

  lemma SignificantNat(s: string)
    ensures Nat(Values(s), 10) == Nat(Significant(s), 10)
  {
    var z := Run(Nought, s);
    RunIsMaximal(Nought, s);
    assert forall i :: 0 <= i < z ==> Is(Nought, s[..z][i]) && s[..z][i] == s[i];
    assert Zeros(Values(s)[..z]);
    assert Values(s) == Values(s)[..z] + Significant(s);
    NatLeadingZeros(Values(s)[..z], Significant(s));
  }

  /** A numeral denotes its significant digits placed at their exponent. */
  lemma SignificantValue(b: Body, k: int)
    requires b.Numeral?
    requires var sig := Significant(b.whole + b.fraction);
             k == FirstExponent(b.whole, b.fraction) + ExponentValue(b.exponent) + 1 - |sig|
    ensures Magnitude(b) == Scale(Nat(Significant(b.whole + b.fraction), 10) as real, k)
  {
    SignificantNat(b.whole + b.fraction);
  }

  // ---- the rounding, on digits ----

  /** The digits laid out so that the first has an odd exponent, the upper half of a base-100 digit. */
  function Aligned(sig: seq<int>, exponent: int): seq<int> {
    if exponent % 2 == 0 then [0] + sig else sig
  }

  lemma {:induction false} WholeScale(n: int, k: nat)
    ensures Scale(n as real, k).Floor as real == Scale(n as real, k)
  {
    if k > 0 {
      WholeScale(n, k - 1);
      assert Scale(n as real, k) == (10 * Scale(n as real, k - 1).Floor) as real;
    }
  }

  lemma RoundExact(a: seq<int>, half: int)
    requires |a| <= 40
    ensures var v := Scale(Nat(a, 10) as real, 2 * half + 2 - |a|);
            RoundHalfUp(v, 2 * half - 38) == v
  {
    var n := Nat(a, 10);
    ScaleScale(n as real, 2 * half + 2 - |a|, 38 - 2 * half);
    WholeScale(n, 40 - |a|);
    var x := Scale(n as real, 40 - |a|);
    assert (x + 0.5).Floor == x.Floor;
    ScaleScale(n as real, 40 - |a|, 2 * half - 38);
  }

  /** Beyond 40 digits the 41st alone decides the rounding. */
  lemma RoundCut(a: seq<int>, half: int)
    requires |a| > 40 && Digits(a, 10)
    ensures var v := Scale(Nat(a, 10) as real, 2 * half + 2 - |a|);
            var k := Nat(a[..40], 10) + if a[40] >= 5 then 1 else 0;
            RoundHalfUp(v, 2 * half - 38) == Scale(k as real, 2 * half - 38)
  {
    var f := CutTail(a);
    ScaleScale(Nat(a, 10) as real, 2 * half + 2 - |a|, 38 - 2 * half);
    FloorOfCut(Nat(a[..40], 10), a[40], f);
  }

  lemma FloorOfCut(n: int, digit: int, f: real)
    requires 0 <= digit < 10 && 0.0 <= f < 0.1
    ensures (n as real + digit as real / 10.0 + f + 0.5).Floor == n + if digit >= 5 then 1 else 0
  {}

  lemma CutTail(a: seq<int>) returns (f: real)
    requires |a| > 40 && Digits(a, 10)
    ensures 0.0 <= f < 0.1
    ensures Scale(Nat(a, 10) as real, 40 - |a|) == Nat(a[..40], 10) as real + a[40] as real / 10.0 + f
  {
    var top, rest := a[..41], a[41..];
    var r := |rest|;
    assert a == top + rest;
    NatAppend(top, rest);
    ScaleSum(Scale(Nat(top, 10) as real, r), Nat(rest, 10) as real, -1 - r);
    ScaleScale(Nat(top, 10) as real, r, -1 - r);
    NatBounds(rest);
    TailBound(Nat(rest, 10) as real, r);
    f := Scale(Nat(rest, 10) as real, -1 - r);
    assert top[..40] == a[..40];
    assert Nat(top, 10) == 10 * Nat(a[..40], 10) + a[40];
  }

  lemma TailBound(x: real, r: nat)
    requires 0.0 <= x <= Scale(1.0, r) - 1.0
    ensures 0.0 <= Scale(x, -1 - r) < 0.1
  {
    ScalePositive(x, -1 - r);
    ScaleMonotone(x, Scale(1.0, r), -1 - r);
    ScaleScale(1.0, r, -1 - r);
  }

  lemma {:induction false} NatNines(s: seq<int>)
    requires forall i :: 0 <= i < |s| ==> s[i] == 9
    ensures Nat(s, 10) as real == Scale(1.0, |s|) - 1.0
  {
    if s != [] {
      NatNines(s[..|s| - 1]);
    }
  }

  /** One carry chain adds one: nines after position i turn to zeros and digit i goes up. */
  lemma {:induction false} CarryAddsOne(s: seq<int>, t: seq<int>, i: nat)
    requires |s| == |t| && i < |s|
    requires forall j :: 0 <= j < i ==> t[j] == s[j]
    requires t[i] == s[i] + 1
    requires forall j :: i < j < |s| ==> s[j] == 9 && t[j] == 0
    ensures Nat(t, 10) == Nat(s, 10) + 1
  {
    var n := |s| - 1;
    if i == n {
      assert t[..n] == s[..n];
    } else {
      CarryAddsOne(s[..n], t[..n], i);
    }
  }

  // ---- the procedure ----

  /** The byte under the read pointer; a Ruby string is followed by a NUL. */
  function Peek(text: string, pos: nat): char {
    if pos < |text| then text[pos] else '\0'
  }

  /** The read pointer is inside the run of one kind of characters that begins at start. */
  ghost predicate Within(k: Kind, text: string, start: nat, pos: nat) {
    start <= pos <= |text| && start + Run(k, text[start..]) == pos + Run(k, text[pos..])
  }

  lemma Advance(k: Kind, text: string, start: nat, pos: nat)
    requires Within(k, text, start, pos) && pos < |text| && Is(k, text[pos])
    ensures Within(k, text, start, pos + 1)
    ensures text[start..pos + 1] == text[start..pos] + [text[pos]]
  {
    assert text[pos..][1..] == text[pos + 1..];
  }

  lemma RunOver(k: Kind, text: string, start: nat, pos: nat)
    requires Within(k, text, start, pos) && (pos < |text| ==> !Is(k, text[pos]))
    ensures pos == start + Run(k, text[start..])
  {}

  /** Moves a read pointer over characters of one kind. */
  method Skip(k: Kind, text: string, start: nat) returns (pos: nat)
    requires start <= |text|
    ensures pos == start + Run(k, text[start..])
  {
    pos := start;
    while pos < |text| && Is(k, text[pos])
      invariant Within(k, text, start, pos)
    {
      Advance(k, text, start, pos);
      pos := pos + 1;
    }
  }

  /** The first 41 significant digits are in the buffer; idx counts them, or stops counting at 41 or later. */
  ghost predicate Holds(m: seq<int>, idx: int, sig: seq<int>) {
    && |m| == 41 && 0 <= idx <= |sig| && (idx < 41 ==> idx == |sig|)
    && (forall j :: 0 <= j < idx && j < 41 ==> m[j] == sig[j])
  }

  /** The same while reading: zeros leading zeros of the digits seen have been skipped. */
  ghost predicate Reading(m: seq<int>, idx: int, seen: string, zeros: int) {
    && |m| == 41 && 0 <= zeros <= |seen| && 0 <= idx <= |seen| - zeros && (idx < 41 ==> idx == |seen| - zeros)
    && (forall i :: 0 <= i < |seen| ==> Is(Digit, seen[i]))
    && (forall i :: 0 <= i < zeros ==> seen[i] == '0')
    && (zeros < |seen| ==> seen[zeros] != '0')
    && (forall j :: 0 <= j < idx && j < 41 ==> m[j] == seen[zeros + j] as int - '0' as int)
  }

  lemma ReadingIsSignificant(m: seq<int>, idx: int, seen: string, zeros: int)
    requires Reading(m, idx, seen, zeros)
    ensures zeros == Run(Nought, seen) && Holds(m, idx, Significant(seen))
  {
    assert seen == seen[..zeros] + seen[zeros..];
    RunPrefix(Nought, seen[..zeros], seen[zeros..]);
  }

  /** Reading digits from start to pos, after the digits in whole. */
  ghost predicate Scanned(m: seq<int>, idx: int, whole: string, text: string, start: nat, pos: nat, zeros: int) {
    Within(Digit, text, start, pos) && Reading(m, idx, whole + text[start..pos], zeros)
  }

  lemma ScanNought(m: seq<int>, whole: string, text: string, start: nat, pos: nat)
    requires pos < |text| && text[pos] == '0' && start <= pos
    requires Scanned(m, 0, whole, text, start, pos, |whole| + pos - start)
    ensures Scanned(m, 0, whole, text, start, pos + 1, |whole| + pos + 1 - start)
  {
    Advance(Digit, text, start, pos);
    assert whole + text[start..pos + 1] == (whole + text[start..pos]) + ['0'];
  }

  lemma ScanDigit(m: seq<int>, m': seq<int>, idx: int, whole: string, text: string, start: nat, pos: nat, zeros: int)
    requires pos < |text| && Is(Digit, text[pos])
    requires Scanned(m, idx, whole, text, start, pos, zeros)
    requires zeros == |whole| + pos - start ==> text[pos] != '0'
    requires m' == if idx < 41 then m[idx := text[pos] as int - '0' as int] else m
    ensures Scanned(m', idx + 1, whole, text, start, pos + 1, zeros)
    ensures idx >= 41 ==> Scanned(m', idx, whole, text, start, pos + 1, zeros)
  {
    Advance(Digit, text, start, pos);
    assert whole + text[start..pos + 1] == (whole + text[start..pos]) + [text[pos]];
  }

  lemma ScanStart(m: seq<int>, idx: int, whole: string, text: string, start: nat, zeros: int)
    requires start <= |text| && Reading(m, idx, whole, zeros)
    ensures Scanned(m, idx, whole, text, start, start, zeros)
  {
    assert whole + text[start..start] == whole;
  }

  /** The characters that may follow digits. */
  predicate Terminates(c: char, beforeDot: bool) {
    c == 'E' || c == 'e' || c == ' ' || (beforeDot && c == '.')
  }

  /** Leading zeros; each one after the point moves it one place to the left. */
  method SkipZeros(text: string, start: nat, ghost m: seq<int>, ghost whole: string)
    returns (pos: nat, decPoint: int)
    requires start <= |text| && Scanned(m, 0, whole, text, start, start, |whole|)
    ensures start <= pos <= |text| && decPoint == start - pos
    ensures Scanned(m, 0, whole, text, start, pos, |whole| - decPoint)
    ensures pos < |text| ==> text[pos] != '0'
  {
    pos, decPoint := start, 0;
    while pos < |text| && text[pos] == '0'
      invariant start <= pos <= |text| && decPoint == start - pos
      invariant Scanned(m, 0, whole, text, start, pos, |whole| - decPoint)
    {
      ScanNought(m, whole, text, start, pos);
      decPoint := decPoint - 1;
      pos := pos + 1;
    }
  }

  /** A digit goes into the buffer unless that is full. */
  method StoreDigit(m: array<int>, idx: nat, text: string, pos: nat, ghost whole: string, ghost start: nat,
                    ghost zeros: int)
    requires m.Length == 41 && pos < |text| && Is(Digit, text[pos])
    requires Scanned(m[..], idx, whole, text, start, pos, zeros)
    requires zeros == |whole| + pos - start ==> text[pos] != '0'
    modifies m
    ensures Scanned(m[..], idx + 1, whole, text, start, pos + 1, zeros)
    ensures idx >= 41 ==> Scanned(m[..], idx, whole, text, start, pos + 1, zeros)
  {
    ghost var before := m[..];
    if idx < 41 {
      m[idx] := text[pos] as int - '0' as int;
    }
    ScanDigit(before, m[..], idx, whole, text, start, pos, zeros);
  }

  /** The integer part: leading zeros are skipped, later digits are counted without a limit. */
  method ReadWhole(text: string, start: nat, mantissa: array<int>) returns (ok: bool, pos: nat, idx: nat)
    requires start <= |text| && mantissa.Length == 41
    modifies mantissa
    ensures pos == start + Run(Digit, text[start..])
    ensures ok <==> pos == |text| || Terminates(text[pos], true)
    ensures Reading(mantissa[..], idx, text[start..pos], pos - start - idx)
  {
    idx := 0;
    ScanStart(mantissa[..], 0, "", text, start, 0);
    var skipped;
    pos, skipped := SkipZeros(text, start, mantissa[..], "");
    pos, idx := KeepWhole(text, start, pos, mantissa);
    RunOver(Digit, text, start, pos);
    assert "" + text[start..pos] == text[start..pos];
    ok := pos == |text| || Terminates(text[pos], true);
  }

  /** Digits of the integer part; each one is counted. */
  method KeepWhole(text: string, start: nat, first: nat, mantissa: array<int>) returns (pos: nat, idx: nat)
    requires start <= first <= |text| && mantissa.Length == 41
    requires Scanned(mantissa[..], 0, "", text, start, first, first - start)
    requires first < |text| ==> text[first] != '0'
    modifies mantissa
    ensures first <= pos <= |text| && idx == pos - first
    ensures Scanned(mantissa[..], idx, "", text, start, pos, first - start)
    ensures pos < |text| ==> !Is(Digit, text[pos])
  {
    pos, idx := first, 0;
    while pos < |text| && Is(Digit, text[pos])
      invariant first <= pos <= |text| && idx == pos - first
      invariant Scanned(mantissa[..], idx, "", text, start, pos, first - start)
    {
      StoreDigit(mantissa, idx, text, pos, "", start, first - start);
      idx := idx + 1;
      pos := pos + 1;
    }
  }

  /** The fraction: zeros before the first significant digit move the point, digits after 41 are dropped. */
  method ReadDecimals(text: string, start: nat, mantissa: array<int>, digits: nat, ghost whole: string)
    returns (ok: bool, pos: nat, idx: nat, decPoint: int)
    requires start <= |text| && mantissa.Length == 41
    requires Reading(mantissa[..], digits, whole, |whole| - digits)
    modifies mantissa
    ensures pos == start + Run(Digit, text[start..])
    ensures ok <==> pos == |text| || Terminates(text[pos], false)
    ensures Reading(mantissa[..], idx, whole + text[start..pos], |whole| - decPoint)
  {
    pos, idx, decPoint := start, digits, digits;
    ScanStart(mantissa[..], digits, whole, text, start, |whole| - digits);
    if idx == 0 {
      pos, decPoint := SkipZeros(text, start, mantissa[..], whole);
    }
    pos, idx := KeepDecimals(text, start, pos, mantissa, idx, whole, |whole| - decPoint);
    RunOver(Digit, text, start, pos);
    ok := pos == |text| || Terminates(text[pos], false);
  }

  /** Digits of the fraction, of which no more than 41 significant ones are kept. */
  method KeepDecimals(text: string, start: nat, first: nat, mantissa: array<int>, digits: nat,
                      ghost whole: string, ghost zeros: int) returns (pos: nat, idx: nat)
    requires start <= first <= |text| && mantissa.Length == 41
    requires Scanned(mantissa[..], digits, whole, text, start, first, zeros)
    requires zeros == |whole| + first - start && first < |text| ==> text[first] != '0'
    modifies mantissa
    ensures start <= pos <= |text| && Scanned(mantissa[..], idx, whole, text, start, pos, zeros)
    ensures pos < |text| ==> !Is(Digit, text[pos])
  {
    pos, idx := first, digits;
    while pos < |text| && Is(Digit, text[pos])
      invariant start <= pos <= |text|
      invariant Scanned(mantissa[..], idx, whole, text, start, pos, zeros)
      invariant zeros == |whole| + pos - start && pos < |text| ==> text[pos] != '0'
    {
      StoreDigit(mantissa, idx, text, pos, whole, start, zeros);
      if idx < 41 {
        idx := idx + 1;
      }
      pos := pos + 1;
    }
  }

  /** The digits of the written exponent; the accumulator is unbounded here. */
  method ReadExponentDigits(text: string, start: nat) returns (ok: bool, pos: nat, value: int)
    requires start <= |text|
    ensures pos == start + Run(Digit, text[start..])
    ensures ok <==> pos == |text| || text[pos] == ' '
    ensures value == Nat(Values(text[start..pos]), 10)
  {
    pos, value := start, 0;
    while pos < |text| && Is(Digit, text[pos])
      invariant Within(Digit, text, start, pos)
      invariant value == Nat(Values(text[start..pos]), 10)
    {
      Advance(Digit, text, start, pos);
      ghost var v := Values(text[start..pos + 1]);
      assert v[..|v| - 1] == Values(text[start..pos]);
      value := value * 10;
      value := value + (text[pos] as int - '0' as int);
      pos := pos + 1;
    }
    RunOver(Digit, text, start, pos);
    ok := pos == |text| || text[pos] == ' ';
  }

  /** The numeral that begins at start when nothing but spaces follows it. */
  ghost predicate NumeralAt(text: string, start: nat, b: Body) {
    && start <= |text| && ReadBody(text[start..]).Some?
    && ReadBody(text[start..]).value.0 == b
    && Run(Blank, ReadBody(text[start..]).value.1) == |ReadBody(text[start..]).value.1|
  }

  lemma ReadBodyAt(text: string, start: nat, p: nat, q: nat, dot: bool, fraction: string)
    requires start < |text| && (Is(Digit, text[start]) || text[start] == '.')
    requires p == start + Run(Digit, text[start..]) <= q <= |text|
    requires ReadFraction(text[p..]) == (dot, fraction, text[q..])
    ensures ReadBody(text[start..])
         == Some((Numeral(text[start..p], dot, fraction, ReadExponent(text[q..]).0), ReadExponent(text[q..]).1))
  {
    var s := text[start..];
    assert s[0] == text[start];
    assert s[..p - start] == text[start..p] && s[p - start..] == text[p..];
  }

  /** The sign after the letter E, or none. */
  method ReadExponentSign(text: string, start: nat) returns (pos: nat, negate: bool)
    requires start <= |text|
    ensures start <= pos <= |text|
    ensures ReadSign(text[start..]).1 == text[pos..]
    ensures negate <==> ReadSign(text[start..]).0 == Minus
  {
    pos, negate := start, false;
    if pos < |text| {
      if text[pos] == '+' {
        pos := pos + 1;
      } else if text[pos] == '-' {
        pos := pos + 1;
        negate := true;
      }
    }
  }

  lemma ReadExponentAt(text: string, start: nat, first: nat, pos: nat)
    requires start < first <= pos <= |text| && (text[start] == 'E' || text[start] == 'e')
    requires ReadSign(text[start + 1..]).1 == text[first..]
    requires pos == first + Run(Digit, text[first..])
    ensures ReadExponent(text[start..])
         == (Exponent(text[start] == 'E', ReadSign(text[start + 1..]).0, text[first..pos]), text[pos..])
  {
    assert text[start..][1..] == text[start + 1..];
    assert text[first..][..pos - first] == text[first..pos];
    assert text[first..][pos - first..] == text[pos..];
  }

  /** The exponent part, if there is one. */
  method ReadWrittenExponent(text: string, start: nat) returns (ok: bool, pos: nat, exponent: int)
    requires start <= |text| && (start < |text| ==> Terminates(text[start], false))
    ensures start <= pos <= |text| && ReadExponent(text[start..]).1 == text[pos..]
    ensures ok <==> pos == |text| || text[pos] == ' '
    ensures ok ==> exponent == ExponentValue(ReadExponent(text[start..]).0)
  {
    pos, exponent, ok := start, 0, true;
    if pos < |text| && (text[pos] == 'E' || text[pos] == 'e') {
      var negate;
      pos, negate := ReadExponentSign(text, pos + 1);
      ghost var first := pos;
      ok, pos, exponent := ReadExponentDigits(text, pos);
      ReadExponentAt(text, start, first, pos);
      if negate {
        exponent := -exponent;
      }
    }
  }

  /** Trailing spaces and the final check that the whole text was read. */
  method ReadEnd(text: string, start: nat) returns (ok: bool)
    requires start <= |text|
    ensures ok <==> Run(Blank, text[start..]) == |text[start..]|
  {
    var pos := Skip(Blank, text, start);
    ok := pos == |text|;
  }

  /** The fraction, if there is one. */
  method ReadFractionPart(text: string, start: nat, mantissa: array<int>, digits: nat, ghost whole: string)
    returns (ok: bool, pos: nat, idx: nat, decPoint: int, ghost fraction: string)
    requires start <= |text| && mantissa.Length == 41
    requires start < |text| ==> Terminates(text[start], true)
    requires Reading(mantissa[..], digits, whole, |whole| - digits)
    modifies mantissa
    ensures start <= pos <= |text|
    ensures ReadFraction(text[start..]) == (start < |text| && text[start] == '.', fraction, text[pos..])
    ensures ok <==> pos == |text| || Terminates(text[pos], false)
    ensures Reading(mantissa[..], idx, whole + fraction, |whole| - decPoint)
  {
    ok, pos, idx, decPoint, fraction := true, start, digits, digits, "";
    if pos < |text| && text[pos] == '.' {
      ok, pos, idx, decPoint := ReadDecimals(text, pos + 1, mantissa, idx, whole);
      fraction := text[start + 1..pos];
      assert text[start..][1..] == text[start + 1..];
      assert text[start + 1..][..pos - start - 1] == fraction && text[start + 1..][pos - start - 1..] == text[pos..];
    } else {
      assert whole + "" == whole;
    }
  }

  lemma Rejected(text: string, start: nat, b: Body, pos: nat)
    requires start <= |text| && pos < |text| && text[pos] != ' '
    requires ReadBody(text[start..]) == Some((b, text[pos..]))
    ensures forall b' :: !NumeralAt(text, start, b')
  {}

  /** From the first digit or dot to the end of the text. */
  method ReadNumeral(text: string, start: nat, mantissa: array<int>)
    returns (ok: bool, idx: nat, decPoint: int, exponent: int, ghost b: Body)
    requires start < |text| && (Is(Digit, text[start]) || text[start] == '.')
    requires mantissa.Length == 41
    modifies mantissa
    ensures b.Numeral?
    ensures ok ==> NumeralAt(text, start, b)
    ensures !ok ==> forall b' :: !NumeralAt(text, start, b')
    ensures ok ==> Holds(mantissa[..], idx, Significant(b.whole + b.fraction))
    ensures ok ==> decPoint == |b.whole| - Run(Nought, b.whole + b.fraction)
    ensures ok ==> exponent == ExponentValue(b.exponent)
  {
    var pos;
    ghost var fraction;
    ok, pos, idx := ReadWhole(text, start, mantissa);
    decPoint, exponent := idx, 0;
    ghost var p := pos;
    ghost var whole := text[start..p];
    b := Numeral(whole, false, "", NoExponent);
    if !ok {
      ReadBodyAt(text, start, p, p, false, "");
      Rejected(text, start, b, p);
      return;
    }
    ok, pos, idx, decPoint, fraction := ReadFractionPart(text, pos, mantissa, idx, whole);
    ReadingIsSignificant(mantissa[..], idx, whole + fraction, |whole| - decPoint);
    ReadBodyAt(text, start, p, pos, p < |text| && text[p] == '.', fraction);
    b := ReadBody(text[start..]).value.0;
    if !ok {
      Rejected(text, start, b, pos);
      return;
    }
    ok, exponent := ReadTail(text, start, pos, b);
  }

  /** The exponent and the end of a numeral. */
  method ReadTail(text: string, start: nat, from: nat, ghost b: Body) returns (ok: bool, exponent: int)
    requires start <= |text| && from <= |text| && (from < |text| ==> Terminates(text[from], false))
    requires ReadBody(text[start..]) == Some((b, ReadExponent(text[from..]).1))
    ensures ok ==> NumeralAt(text, start, b) && exponent == ExponentValue(ReadExponent(text[from..]).0)
    ensures !ok ==> forall b' :: !NumeralAt(text, start, b')
  {
    var pos;
    ok, pos, exponent := ReadWrittenExponent(text, from);
    if ok {
      ok := ReadEnd(text, pos);
    } else {
      Rejected(text, start, b, pos);
    }
  }

  // ---- alignment and rounding in place ----

  /** The buffer holds aligned digits: exactly, or the first 41 of them. */
  method Align(m: array<int>, count: nat, exponent: int, ghost sig: seq<int>) returns (idx: nat)
    requires m.Length == 41 && Holds(m[..], count, sig)
    modifies m
    ensures Holds(m[..], idx, Aligned(sig, exponent))
  {
    idx := count;
    if exponent % 2 == 0 {
      ghost var before := m[..];
      forall j | 0 <= j < 40 {
        m[j + 1] := m[j];
      }
      m[0] := 0;
      idx := idx + 1;
    }
  }

  /** Adds one to the last of 40 digits and propagates the carry; when every digit was 9 nothing stops it. */
  method RoundUp(m: array<int>) returns (overflowed: bool)
    requires m.Length == 41 && Digits(m[..40], 10)
    modifies m
    ensures m[40] == old(m[40])
    ensures !overflowed ==> Digits(m[..40], 10) && Nat(m[..40], 10) == Nat(old(m[..40]), 10) + 1
    ensures !overflowed ==>
              forall j :: 0 <= j < 40 && m[j] == 0 && old(m[j]) != 0 ==> exists i :: 0 <= i < j && m[i] != 0
    ensures overflowed ==> forall j :: 0 <= j < 40 ==> old(m[j]) == 9
  {
    ghost var before := m[..40];
    var i := 39;
    while i >= 0
      invariant -1 <= i <= 39 && m[40] == old(m[40])
      invariant forall j :: 0 <= j <= i ==> m[j] == before[j]
      invariant forall j :: i < j < 40 ==> before[j] == 9 && m[j] == 0
    {
      m[i] := m[i] + 1;
      if m[i] == 10 {
        m[i] := 0;
      } else {
        CarryAddsOne(before, m[..40], i);
        overflowed := false;
        return;
      }
      i := i - 1;
    }
    overflowed := true;
  }

  /** Drops trailing zeros, each worth one power of ten. */
  method Shrink(m: array<int>, count: nat, ghost k: int) returns (idx: nat)
    requires m.Length == 41 && count <= 40 && Digits(m[..count], 10)
    ensures idx <= count && (idx > 0 ==> m[idx - 1] != 0)
    ensures forall j :: idx <= j < count ==> m[j] == 0
    ensures Scale(Nat(m[..idx], 10) as real, k - idx) == Scale(Nat(m[..count], 10) as real, k - count)
  {
    idx := count;
    while idx > 0 && m[idx - 1] == 0
      invariant idx <= count
      invariant forall j :: idx <= j < count ==> m[j] == 0
    {
      idx := idx - 1;
    }
    assert m[..count] == m[..idx] + m[idx..count];
    NatTrailingZeros(m[..idx], m[idx..count], k - count);
  }

  /** The first base-100 digit of aligned digits is not zero. */
  ghost predicate LeadsPair(r: seq<int>) {
    r != [] && (r[0] != 0 || (|r| > 1 && r[1] != 0))
  }

  /** Rounding in place computes the rounded value; the exponent may move to the next base-100 position. */
  method Round(m: array<int>, count: nat, exponent: int, ghost a: seq<int>) returns (idx: nat, exponent': int)
    requires m.Length == 41 && Holds(m[..], count, a) && Digits(a, 10)
    requires a == [] || LeadsPair(a) || a == [0]
    requires |a| > 40 && a[0] != 0 ==> exponent % 2 == 1
    modifies m
    ensures idx <= 40 && Digits(m[..idx], 10)
    ensures var v := Scale(Nat(a, 10) as real, 2 * (exponent / 2) + 2 - |a|);
            Scale(Nat(m[..idx], 10) as real, 2 * (exponent' / 2) + 2 - idx) == RoundHalfUp(v, 2 * (exponent / 2) - 38)
    ensures a != [] && a != [0] ==> LeadsPair(m[..idx])
    ensures a == [] || a == [0] ==> forall j :: 0 <= j < idx ==> m[j] == 0
  {
    idx, exponent' := count, exponent;
    ghost var half := exponent / 2;
    if idx > 40 {
      idx := 40;
      RoundCut(a, half);
      assert m[..40] == a[..40];
      if m[40] >= 5 {
        var overflowed := RoundUp(m);
        if overflowed {
          m[0] := 0;
          m[1] := 1;
          idx := 2;
          exponent' := exponent' + 1;
          AllNines(a, m[..2], half);
        }
      }
    } else {
      RoundExact(a, half);
      assert m[..idx] == a;
    }
  }

  /** Forty nines round up to one at the next base-100 position. */
  lemma AllNines(a: seq<int>, r: seq<int>, half: int)
    requires |a| > 40 && forall j :: 0 <= j < 40 ==> a[j] == 9
    requires r == [0, 1]
    ensures Nat(r, 10) == 1
    ensures Scale(1.0, 2 * (half + 1) + 2 - 2) == Scale((Nat(a[..40], 10) + 1) as real, 2 * half - 38)
  {
    assert r[..1] == [0] && [0][..0] == [];
    NatNines(a[..40]);
    ScaleScale(1.0, 40, 2 * half - 38);
  }

  // ---- storing ----

  /** Decimal digits joined two by two. */
  function Pairs(r: seq<int>): (d: seq<int>)
    requires |r| % 2 == 0
    ensures |d| == |r| / 2
  {
    seq(|r| / 2, i requires 0 <= i < |r| / 2 => r[2 * i] * 10 + r[2 * i + 1])
  }

  lemma {:induction false} PairsNat(r: seq<int>)
    requires |r| % 2 == 0
    ensures Nat(Pairs(r), 100) == Nat(r, 10)
  {
    if r != [] {
      var n := |r|;
      assert Pairs(r)[..n / 2 - 1] == Pairs(r[..n - 2]);
      assert r[..n - 1][..n - 2] == r[..n - 2];
      PairsNat(r[..n - 2]);
    }
  }

  function Padded(r: seq<int>): (p: seq<int>)
    ensures |p| % 2 == 0
  {
    r + if |r| % 2 == 1 then [0] else []
  }

  /** An odd number of digits gets one more zero; then pairs of digits are joined in place. */
  method ToBase100(m: array<int>, count: nat) returns (idx: nat)
    requires m.Length == 41 && count <= 40
    modifies m
    ensures idx == (count + 1) / 2 && m[..idx] == Pairs(Padded(old(m[..count])))
  {
    idx := count;
    ghost var r := Padded(m[..count]);
    if idx % 2 == 1 {
      m[idx] := 0;
      idx := idx + 1;
    }
    assert m[..idx] == r;
    idx := idx / 2;
    Pair(m, idx, r);
  }

  /** The loop that pairs the digits in place. */
  method Pair(m: array<int>, idx: nat, ghost r: seq<int>)
    requires |r| == 2 * idx <= m.Length && m[..|r|] == r
    modifies m
    ensures m[..idx] == Pairs(r)
  {
    var i := 0;
    while i < idx
      invariant 0 <= i <= idx
      invariant forall j :: 0 <= j < i ==> m[j] == Pairs(r)[j]
      invariant forall j :: i <= j < |r| ==> m[j] == r[j]
    {
      m[i] := m[i * 2] * 10 + m[i * 2 + 1];
      i := i + 1;
    }
  }

  lemma {:induction false} IncrementedAt(d: seq<int>, i: nat)
    requires i < |d|
    ensures Incremented(d[..i + 1]) == Incremented(d[..i]) + [d[i] + 1]
  {
    if i > 0 {
      assert d[..i + 1][1..] == d[1..][..i] && d[..i][1..] == d[1..][..i - 1];
      IncrementedAt(d[1..], i - 1);
    } else {
      assert d[..1][1..] == [] && d[..0] == [];
    }
  }

  /** Complemented digits one at a time, the terminator being the complement of -1. */
  lemma {:induction false} ComplementedAt(d: seq<int>, room: int)
    requires |d| <= room
    ensures Complemented(d, room) == seq(|d|, i requires 0 <= i < |d| => 101 - d[i]) + if |d| < room then [102] else []
  {
    if d != [] {
      ComplementedAt(d[1..], room - 1);
      assert seq(|d|, i requires 0 <= i < |d| => 101 - d[i])
          == [101 - d[0]] + seq(|d[1..]|, i requires 0 <= i < |d[1..]| => 101 - d[1..][i]);
    }
  }

  /** The bytes of a nonzero number from its base-100 digits. */
  method Construct(m: array<int>, count: nat, positive: bool, exponent: int) returns (part: seq<int>)
    requires m.Length == 41 && 1 <= count <= 20
    modifies m
    ensures part == Part(Finite(!positive, exponent / 2, old(m[..count])))
  {
    ghost var d := m[..count];
    var idx := count;
    if !positive && idx < 20 {
      m[idx] := -1;
      idx := idx + 1;
    }
    assert m[..count] == d;
    var bytes;
    if positive {
      bytes := IncrementedBytes(m, idx, exponent / 2 + 193);
    } else {
      ghost var whole := seq(count, i requires 0 <= i < count => 101 - d[i]) + if count < 20 then [102] else [];
      assert forall i :: 0 <= i < idx ==> whole[i] == 101 - m[i] by {
        assert forall i :: 0 <= i < count ==> d[i] == m[i];
      }
      bytes := ComplementedBytes(m, idx, 62 - exponent / 2, whole);
      ComplementedAt(d, 20);
    }
    assert bytes == Encode(Finite(!positive, exponent / 2, d)) && |bytes| == 1 + idx;
    part := [1 + idx] + bytes;
  }

  method IncrementedBytes(m: array<int>, idx: nat, first: int) returns (bytes: seq<int>)
    requires idx <= m.Length
    ensures bytes == [first] + Incremented(m[..idx]) && |bytes| == 1 + idx
  {
    bytes := [first];
    var i := 0;
    while i < idx
      invariant 0 <= i <= idx && bytes == [first] + Incremented(m[..i])
    {
      IncrementedAt(m[..], i);
      assert m[..][..i] == m[..i] && m[..][..i + 1] == m[..i + 1];
      bytes := bytes + [m[i] + 1];
      i := i + 1;
    }
    IncrementedEach(m[..idx]);
  }

  method ComplementedBytes(m: array<int>, idx: nat, first: int, ghost whole: seq<int>) returns (bytes: seq<int>)
    requires idx <= m.Length && |whole| == idx && forall i :: 0 <= i < idx ==> whole[i] == 101 - m[i]
    ensures bytes == [first] + whole
  {
    bytes := [first];
    var i := 0;
    while i < idx
      invariant 0 <= i <= idx && bytes == [first] + whole[..i]
    {
      bytes := bytes + [101 - m[i]];
      i := i + 1;
    }
    assert whole[..idx] == whole;
  }

  lemma PairsTrimmed(r: seq<int>)
    requires Digits(r, 10) && LeadsPair(r) && r[|r| - 1] != 0
    ensures Trimmed(Pairs(Padded(r))) && Pairs(Padded(r)) != [] && Pairs(Padded(r))[0] != 0
  {}

  lemma PairsValue(r: seq<int>, half: int)
    ensures Mantissa(Pairs(Padded(r)), half) == Scale(Nat(r, 10) as real, 2 * half + 2 - |r|)
  {
    var z := if |r| % 2 == 1 then [0] else [];
    PairsNat(r + z);
    NatTrailingZeros(r, z, 2 * half + 2 - |r + z|);
  }

  /** Trimmed, rounded digits make a canonical number of the same value. */
  lemma StoredNumber(r: seq<int>, half: int, negative: bool)
    requires Digits(r, 10) && |r| <= 40 && LeadsPair(r) && r[|r| - 1] != 0 && -65 <= half <= 62
    ensures var w := Scale(Nat(r, 10) as real, 2 * half + 2 - |r|);
            var n := Finite(negative, half, Pairs(Padded(r)));
            Canonical(n) && Value(n) == Real(if negative then -w else w)
  {
    PairsTrimmed(r);
    PairsValue(r, half);
  }

  lemma PositionBounds(r: seq<int>, half: int)
    requires Digits(r, 10) && LeadsPair(r) && r[|r| - 1] != 0
    ensures Scale(1.0, 2 * half) <= Scale(Nat(r, 10) as real, 2 * half + 2 - |r|) < Scale(1.0, 2 * half + 2)
  {
    PairsTrimmed(r);
    PairsValue(r, half);
    MantissaBounds(Pairs(Padded(r)), half);
  }

  /** Underflow and overflow of a rounded value can be read off the position of its first pair. */
  lemma RoundedRange(w: real, half: int)
    requires Scale(1.0, 2 * half) <= w < Scale(1.0, 2 * half + 2)
    ensures (w < Scale(1.0, -130) <==> half < -65) && (w >= Scale(1.0, 126) <==> half > 62)
  {
    if half < -65 {
      AtMost(2 * half + 2, -130);
    } else {
      AtMost(-130, 2 * half);
    }
    if half > 62 {
      AtMost(126, 2 * half);
    } else {
      AtMost(2 * half + 2, 126);
    }
  }

  lemma AtMost(j: int, k: int)
    requires j <= k
    ensures Scale(1.0, j) <= Scale(1.0, k)
  {
    if j < k {
      ScaleGrows(1.0, j, k);
    }
  }

  // ---- oranumber_from_str ----

  /** The significant digits put their value between the powers of ten their first exponent says. */
  lemma SignificantLeads(sig: seq<int>, e: int)
    requires Digits(sig, 10) && sig != [] && sig[0] != 0
    ensures Leads(Scale(Nat(sig, 10) as real, e + 1 - |sig|), e)
  {
    var n, k := Nat(sig, 10) as real, e + 1 - |sig|;
    NatLeading(sig);
    ScaleScale(1.0, |sig| - 1, k);
    ScaleScale(1.0, |sig|, k);
    ScaleMonotone(Scale(1.0, |sig| - 1), n, k);
    ScaleMonotone(n, Scale(1.0, |sig|), k);
  }

  /** Rounding the aligned digits rounds the value of the text. */
  lemma AlignedRounds(sig: seq<int>, e: int, w: real)
    requires Digits(sig, 10) && (sig != [] ==> sig[0] != 0)
    requires var a := Aligned(sig, e);
             w == RoundHalfUp(Scale(Nat(a, 10) as real, 2 * (e / 2) + 2 - |a|), 2 * (e / 2) - 38)
    requires sig == [] ==> w == 0.0
    ensures IsRounded(Scale(Nat(sig, 10) as real, e + 1 - |sig|), w)
  {
    var a := Aligned(sig, e);
    NatLeadingZeros([0], sig);
    assert 2 * (e / 2) + 2 - |a| == e + 1 - |sig|;
    if sig == [] {
      ScaleZero(e + 1);
    } else {
      SignificantLeads(sig, e);
    }
  }

  lemma LeadsTrimmed(cut: seq<int>, idx: nat)
    requires idx <= |cut|
    ensures idx > 0 && cut[idx - 1] != 0 && LeadsPair(cut) ==> LeadsPair(cut[..idx])
  {}

  /** Rounds the digits read to at most 40, trimmed of trailing zeros. */
  method RoundDigits(m: array<int>, count: nat, exponent: int, ghost sig: seq<int>)
    returns (idx: nat, e: int, ghost w: real)
    requires m.Length == 41 && Holds(m[..], count, sig)
    requires Digits(sig, 10) && (sig != [] ==> sig[0] != 0)
    modifies m
    ensures idx <= 40 && Digits(m[..idx], 10)
    ensures w == Scale(Nat(m[..idx], 10) as real, 2 * (e / 2) + 2 - idx)
    ensures IsRounded(Scale(Nat(sig, 10) as real, exponent + 1 - |sig|), w)
    ensures idx > 0 ==> LeadsPair(m[..idx]) && m[idx - 1] != 0
    ensures idx == 0 ==> w == 0.0
  {
    idx, e := AlignAndRound(m, count, exponent, sig);
    ghost var cut := m[..idx];
    idx := Shrink(m, idx, 2 * (e / 2) + 2);
    w := Scale(Nat(m[..idx], 10) as real, 2 * (e / 2) + 2 - idx);
    assert m[..idx] == cut[..idx];
    LeadsTrimmed(cut, idx);
    if idx == 0 {
      ScaleZero(2 * (e / 2) + 2);
    }
    AlignedRounds(sig, exponent, w);
  }

  /** Lines the digits up with base 100 and rounds them. */
  method AlignAndRound(m: array<int>, count: nat, exponent: int, ghost sig: seq<int>) returns (idx: nat, e: int)
    requires m.Length == 41 && Holds(m[..], count, sig)
    requires Digits(sig, 10) && (sig != [] ==> sig[0] != 0)
    modifies m
    ensures idx <= 40 && Digits(m[..idx], 10)
    ensures var a := Aligned(sig, exponent);
            var v := Scale(Nat(a, 10) as real, 2 * (exponent / 2) + 2 - |a|);
            Scale(Nat(m[..idx], 10) as real, 2 * (e / 2) + 2 - idx) == RoundHalfUp(v, 2 * (exponent / 2) - 38)
    ensures sig != [] ==> LeadsPair(m[..idx])
    ensures sig == [] ==> forall j :: 0 <= j < idx ==> m[j] == 0
  {
    idx := Align(m, count, exponent, sig);
    idx, e := Round(m, idx, exponent, Aligned(sig, exponent));
  }

  /** Rounds, range-checks and stores the digits read (the part after the text has been accepted). */
  method Store(m: array<int>, count: nat, positive: bool, exponent: int, ghost sig: seq<int>, ghost v: real)
    returns (r: Outcome, ghost w: real)
    requires m.Length == 41 && Holds(m[..], count, sig)
    requires Digits(sig, 10) && (sig != [] ==> sig[0] != 0)
    requires v == Scale(Nat(sig, 10) as real, exponent + 1 - |sig|)
    modifies m
    ensures IsRounded(v, w)
    ensures Stores(!positive, w, r)
  {
    var idx, e;
    idx, e, w := RoundDigits(m, count, exponent, sig);
    ghost var digits := m[..idx];
    if idx == 0 {
      ScalePositive(1.0, -130);
    } else {
      PositionBounds(digits, e / 2);
      RoundedRange(w, e / 2);
    }
    if idx == 0 || e < -130 {
      return Ok([1, 128]), w;
    }
    if e > 125 {
      return NumericOverflow, w;
    }
    StoredOutcome(digits, e / 2, !positive, w);
    var n := ToBase100(m, idx);
    var part := Construct(m, n, positive, e);
    r := Ok(part);
  }

  lemma StoredOutcome(r: seq<int>, half: int, negative: bool, w: real)
    requires Digits(r, 10) && |r| <= 40 && LeadsPair(r) && r[|r| - 1] != 0 && -65 <= half <= 62
    requires w == Scale(Nat(r, 10) as real, 2 * half + 2 - |r|) && Scale(1.0, -130) <= w < Scale(1.0, 126)
    ensures Stores(negative, w, Ok(Part(Finite(negative, half, Pairs(Padded(r))))))
  {
    StoredNumber(r, half, negative);
  }

  /** Determines the exponent of the first digit read, then rounds and stores. */
  method StoreNumeral(m: array<int>, count: nat, positive: bool, decPoint: int, written: int, ghost b: Body)
    returns (r: Outcome, ghost w: real)
    requires b.Numeral? && m.Length == 41 && Holds(m[..], count, Significant(b.whole + b.fraction))
    requires decPoint == |b.whole| - Run(Nought, b.whole + b.fraction) && written == ExponentValue(b.exponent)
    requires Digits(Significant(b.whole + b.fraction), 10)
    requires var sig := Significant(b.whole + b.fraction); sig != [] ==> sig[0] != 0
    modifies m
    ensures IsRounded(Magnitude(b), w) && Stores(!positive, w, r)
  {
    var exponent := written + decPoint - 1;
    ghost var sig := Significant(b.whole + b.fraction);
    SignificantValue(b, exponent + 1 - |sig|);
    r, w := Store(m, count, positive, exponent, sig, Magnitude(b));
  }

  /** Nothing but spaces may follow a tilde. */
  method ReadInfinity(text: string, start: nat, positive: bool) returns (r: Outcome)
    requires start < |text| && text[start] == '~'
    ensures var u := ReadBody(text[start..]).value.1;
            r == if Run(Blank, u) != |u| then InvalidNumber
                 else Ok(Part(if positive then PositiveInfinity else NegativeInfinity))
  {
    assert text[start..][1..] == text[start + 1..];
    var ok := ReadEnd(text, start + 1);
    if !ok {
      return InvalidNumber;
    }
    r := Ok(if positive then [2, 255, 101] else [1, 0]);
  }

  /** The text is the literal whose sign and body were read. */
  lemma Assemble(text: string, pos: nat, sign: Sign)
    requires pos <= |text| && ReadSign(text[Run(Blank, text)..]) == (sign, text[pos..])
    ensures match Parse(text)
            case None => forall b :: !NumeralAt(text, pos, b)
            case Some(l) => l.sign == sign && NumeralAt(text, pos, l.body)
  {}

  lemma Accepted(text: string, pos: nat, sign: Sign, b: Body, w: real, r: Outcome)
    requires pos <= |text| && ReadSign(text[Run(Blank, text)..]) == (sign, text[pos..])
    requires NumeralAt(text, pos, b) && b.Numeral?
    requires IsRounded(Magnitude(b), w) && Stores(sign == Minus, w, r)
    ensures Conforms(text, r)
  {
    Assemble(text, pos, sign);
  }

  /** From the character after the sign. */
  method ReadUnsigned(text: string, pos: nat, positive: bool, ghost sign: Sign) returns (r: Outcome)
    requires pos <= |text| && ReadSign(text[Run(Blank, text)..]) == (sign, text[pos..])
    requires positive <==> sign != Minus
    ensures Conforms(text, r)
  {
    Assemble(text, pos, sign);
    if Peek(text, pos) == '~' {
      r := ReadInfinity(text, pos, positive);
      return;
    }
    if !Is(Digit, Peek(text, pos)) && Peek(text, pos) != '.' {
      return InvalidNumber;
    }
    var mantissa := new int[41];
    var ok, idx, decPoint, exponent;
    ghost var b, w;
    ok, idx, decPoint, exponent, b := ReadNumeral(text, pos, mantissa);
    if !ok {
      return InvalidNumber;
    }
    NumeralDigits(text, pos, b);
    r, w := StoreNumeral(mantissa, idx, positive, decPoint, exponent, b);
    Accepted(text, pos, sign, b, w, r);
  }

  /** oranumber_from_str. */
  method FromStr(text: string) returns (r: Outcome)
    ensures Conforms(text, r)
  {
    var pos := Skip(Blank, text, 0);
    assert text[0..] == text;
    if pos == |text| {
      return InvalidNumber;
    }
    var positive := true;
    if Peek(text, pos) == '+' {
      pos := pos + 1;
    } else if Peek(text, pos) == '-' {
      pos := pos + 1;
      positive := false;
    }
    r := ReadUnsigned(text, pos, positive, ReadSign(text[Run(Blank, text)..]).0);
  }

  lemma NumeralDigits(text: string, start: nat, b: Body)
    requires NumeralAt(text, start, b) && b.Numeral?
    ensures Digits(Significant(b.whole + b.fraction), 10)
    ensures var sig := Significant(b.whole + b.fraction); sig != [] ==> sig[0] != 0
  {
    BodyWellFormed(text[start..]);
    SignificantDigits(b.whole + b.fraction);
  }
}
