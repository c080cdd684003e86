/** The texts oranumber_from_str accepts: a grammar, a reader that inverts it, and what a text denotes. */
module NumberText {
  import opened Decimal
  import opened Basics

  datatype Sign = Unsigned | Plus | Minus

  datatype Exponent = NoExponent | Exponent(upper: bool, sign: Sign, digits: string)

  datatype Body = Tilde | Numeral(whole: string, dot: bool, fraction: string, exponent: Exponent)

  /** Spaces, an optional sign, a tilde (infinity) or a numeral, spaces. */
  datatype Literal = Literal(lead: nat, sign: Sign, body: Body, trail: nat)

  datatype Kind = Blank | Digit | Nought

  predicate Is(k: Kind, c: char) {
    match k
    case Blank => c == ' '
    case Digit => '0' <= c <= '9'
    case Nought => c == '0'
  }

  ghost predicate All(k: Kind, s: string) {
    forall i :: 0 <= i < |s| ==> Is(k, s[i])
  }

  function Spaces(n: nat): (s: string)
    ensures |s| == n && All(Blank, s)
  {
    seq(n, _ => ' ')
  }

  function SignText(s: Sign): string {
    match s
    case Unsigned => ""
    case Plus => "+"
    case Minus => "-"
  }

  function ExponentText(e: Exponent): string {
    match e
    case NoExponent => ""
    case Exponent(upper, sign, digits) => (if upper then "E" else "e") + (SignText(sign) + digits)
  }

  function FractionText(dot: bool, fraction: string): string {
    if dot then "." + fraction else ""
  }

  function BodyText(b: Body): string {
    match b
    case Tilde => "~"
    case Numeral(whole, dot, fraction, exponent) =>
      whole + (FractionText(dot, fraction) + ExponentText(exponent))
  }

  function Render(l: Literal): string {
    Spaces(l.lead) + (SignText(l.sign) + (BodyText(l.body) + Spaces(l.trail)))
  }

  /** A numeral has a digit before the dot or a dot; the exponent may have no digits at all. */
  ghost predicate WellFormed(l: Literal) {
    match l.body
    case Tilde => true
    case Numeral(whole, dot, fraction, exponent) =>
      && All(Digit, whole) && All(Digit, fraction)
      && (!dot ==> whole != "" && fraction == "")
      && (exponent.Exponent? ==> All(Digit, exponent.digits))
  }

  // ---- the reader ----

  /** Length of the longest prefix made of characters of one kind. */
  function Run(k: Kind, s: string): (n: nat)
    ensures n <= |s|
  {
    if s == "" || !Is(k, s[0]) then 0 else 1 + Run(k, s[1..])
  }

  lemma {:induction false} RunIsMaximal(k: Kind, s: string)
    ensures All(k, s[..Run(k, s)])
    ensures Run(k, s) < |s| ==> !Is(k, s[Run(k, s)])
  {
    if s != "" && Is(k, s[0]) {
      RunIsMaximal(k, s[1..]);
      assert forall i :: 1 <= i < |s| ==> s[1..][i - 1] == s[i];
      assert forall i :: 1 <= i < Run(k, s) ==> s[..Run(k, s)][i] == s[1..][..Run(k, s[1..])][i - 1];
    }
  }

  function ReadSign(s: string): (Sign, string) {
    if s != "" && s[0] == '+' then (Plus, s[1..])
    else if s != "" && s[0] == '-' then (Minus, s[1..])
    else (Unsigned, s)
  }

  function ReadExponent(s: string): (Exponent, string) {
    if s != "" && (s[0] == 'E' || s[0] == 'e') then
      var (sign, t) := ReadSign(s[1..]);
      var n := Run(Digit, t);
      (Exponent(s[0] == 'E', sign, t[..n]), t[n..])
    else (NoExponent, s)
  }

  function ReadFraction(s: string): (bool, string, string) {
    if s != "" && s[0] == '.' then
      var n := Run(Digit, s[1..]);
      (true, s[1..][..n], s[1..][n..])
    else (false, "", s)
  }

  function ReadBody(s: string): Option<(Body, string)> {
    if s == "" then None
    else if s[0] == '~' then Some((Tilde, s[1..]))
    else if !Is(Digit, s[0]) && s[0] != '.' then None
    else
      var n := Run(Digit, s);
      var (dot, fraction, t) := ReadFraction(s[n..]);
      var (exponent, u) := ReadExponent(t);
      Some((Numeral(s[..n], dot, fraction, exponent), u))
  }

  function Parse(s: string): Option<Literal> {
    var n := Run(Blank, s);
    var (sign, t) := ReadSign(s[n..]);
    match ReadBody(t)
    case None => None
    case Some((body, u)) =>
      if Run(Blank, u) == |u| then Some(Literal(n, sign, body, |u|)) else None
  }

  // ---- the reader inverts the grammar ----

  lemma {:induction false} RunPrefix(k: Kind, a: string, b: string)
    requires All(k, a) && (b != "" ==> !Is(k, b[0]))
    ensures Run(k, a + b) == |a|
  {
    if a == "" {
      assert a + b == b;
    } else {
      assert (a + b)[1..] == a[1..] + b;
      RunPrefix(k, a[1..], b);
    }
  }

  lemma Split(a: string, b: string)
    ensures (a + b)[..|a|] == a && (a + b)[|a|..] == b
  {}

  lemma ReadSignText(sign: Sign, rest: string)
    requires rest != "" ==> rest[0] != '+' && rest[0] != '-'
    ensures ReadSign(SignText(sign) + rest) == (sign, rest)
  {
    Split(SignText(sign), rest);
  }

  lemma ReadExponentText(e: Exponent, rest: string)
    requires e.Exponent? ==> All(Digit, e.digits)
    requires rest != "" ==> rest[0] == ' '
    ensures ReadExponent(ExponentText(e) + rest) == (e, rest)
  {
    if e.Exponent? {
      var letter := if e.upper then "E" else "e";
      var tail := SignText(e.sign) + (e.digits + rest);
      assert ExponentText(e) + rest == letter + tail;
      Split(letter, tail);
      ReadSignText(e.sign, e.digits + rest);
      RunPrefix(Digit, e.digits, rest);
      Split(e.digits, rest);
    } else {
      assert "" + rest == rest;
    }
  }

  lemma ReadFractionText(dot: bool, fraction: string, tail: string)
    requires All(Digit, fraction) && (!dot ==> fraction == "")
    requires tail != "" ==> !Is(Digit, tail[0]) && tail[0] != '.'
    ensures ReadFraction(FractionText(dot, fraction) + tail) == (dot, fraction, tail)
  {
    if dot {
      assert FractionText(dot, fraction) + tail == "." + (fraction + tail);
      Split(".", fraction + tail);
      RunPrefix(Digit, fraction, tail);
      Split(fraction, tail);
    } else {
      assert "" + tail == tail;
    }
  }

  lemma ReadWhole(whole: string, frac: string)
    requires All(Digit, whole) && whole + frac != ""
    requires frac != "" ==> !Is(Digit, frac[0])
    requires whole == "" ==> frac[0] == '.'
    ensures Run(Digit, whole + frac) == |whole|
    ensures (whole + frac)[..|whole|] == whole && (whole + frac)[|whole|..] == frac
    ensures Is(Digit, (whole + frac)[0]) || (whole + frac)[0] == '.'
  {
    RunPrefix(Digit, whole, frac);
  }

  lemma ReadNumeralText(b: Body, rest: string)
    requires b.Numeral? && WellFormed(Literal(0, Unsigned, b, 0))
    requires rest != "" ==> rest[0] == ' '
    ensures ReadBody(BodyText(b) + rest) == Some((b, rest))
  {
    var tail := ExponentText(b.exponent) + rest;
    var frac := FractionText(b.dot, b.fraction) + tail;
    assert BodyText(b) + rest == b.whole + frac by {
      Regroup(b.whole, FractionText(b.dot, b.fraction), ExponentText(b.exponent), rest);
    }
    ReadWhole(b.whole, frac);
    ReadFractionText(b.dot, b.fraction, tail);
    ReadExponentText(b.exponent, rest);
  }

  lemma ReadBodyText(l: Literal)
    requires WellFormed(l)
    ensures ReadBody(BodyText(l.body) + Spaces(l.trail)) == Some((l.body, Spaces(l.trail)))
  {
    if l.body == Tilde {
      Split("~", Spaces(l.trail));
    } else {
      ReadNumeralText(l.body, Spaces(l.trail));
    }
  }

  /** Every rendered literal is read back unchanged, so the grammar is unambiguous. */
  lemma ParseRender(l: Literal)
    requires WellFormed(l)
    ensures Parse(Render(l)) == Some(l)
  {
    var body := BodyText(l.body) + Spaces(l.trail);
    var signed := SignText(l.sign) + body;
    RunPrefix(Blank, Spaces(l.lead), signed);
    Split(Spaces(l.lead), signed);
    ReadSignText(l.sign, body);
    ReadBodyText(l);
    assert Spaces(l.trail) + "" == Spaces(l.trail);
    RunPrefix(Blank, Spaces(l.trail), "");
  }

  lemma BlankIsSpaces(s: string)
    requires All(Blank, s)
    ensures s == Spaces(|s|)
  {}

  /** Whatever the reader accepts is a well-formed literal whose rendering is the text. */
  lemma RenderParse(s: string)
    requires Parse(s).Some?
    ensures WellFormed(Parse(s).value) && Render(Parse(s).value) == s
  {
    var n := Run(Blank, s);
    var (sign, t) := ReadSign(s[n..]);
    var (body, u) := ReadBody(t).value;
    BodyWellFormed(t);
    SpacesSplit(s);
    SignSplit(s[n..]);
    BodySplit(t);
    SpacesSplit(u);
    assert u[|u|..] == "" && u == Spaces(|u|);
  }

  lemma SpacesSplit(s: string)
    ensures s == Spaces(Run(Blank, s)) + s[Run(Blank, s)..]
  {
    OnlySpaces(s, Run(Blank, s));
  }

  lemma SignSplit(s: string)
    ensures s == SignText(ReadSign(s).0) + ReadSign(s).1
  {
  }

  lemma OnlySpaces(s: string, n: nat)
    requires n == Run(Blank, s)
    ensures s[..n] == Spaces(n)
  {
    RunIsMaximal(Blank, s);
    BlankIsSpaces(s[..n]);
  }

  lemma BodySplit(t: string)
    requires ReadBody(t).Some?
    ensures t == BodyText(ReadBody(t).value.0) + ReadBody(t).value.1
  {
    if t[0] != '~' {
      var n := Run(Digit, t);
      var (dot, fraction, u) := ReadFraction(t[n..]);
      var (exponent, v) := ReadExponent(u);
      assert t == t[..n] + t[n..];
      assert t[n..] == FractionText(dot, fraction) + (ExponentText(exponent) + v) by {
        FractionSplit(t[n..]);
        ExponentSplit(u);
      }
      Regroup(t[..n], FractionText(dot, fraction), ExponentText(exponent), v);
      var b := Numeral(t[..n], dot, fraction, exponent);
      assert BodyText(b) == t[..n] + (FractionText(dot, fraction) + ExponentText(exponent));
    }
  }

  lemma BodyWellFormed(t: string)
    requires ReadBody(t).Some?
    ensures WellFormed(Literal(0, Unsigned, ReadBody(t).value.0, 0))
  {
    if t[0] != '~' {
      var n := Run(Digit, t);
      var (dot, fraction, u) := ReadFraction(t[n..]);
      RunIsMaximal(Digit, t);
      if dot {
        RunIsMaximal(Digit, t[n..][1..]);
      }
      if u != "" {
        RunIsMaximal(Digit, ReadSign(u[1..]).1);
      }
    }
  }

  lemma Regroup(a: string, b: string, c: string, d: string)
    ensures a + (b + (c + d)) == (a + (b + c)) + d
  {}

  lemma FractionSplit(s: string)
    ensures s == FractionText(ReadFraction(s).0, ReadFraction(s).1) + ReadFraction(s).2
  {
    if s != "" && s[0] == '.' {
      assert s == "." + s[1..];
    }
  }

  lemma ExponentSplit(u: string)
    ensures u == ExponentText(ReadExponent(u).0) + ReadExponent(u).1
  {
    if u != "" && (u[0] == 'E' || u[0] == 'e') {
      var (sign, t) := ReadSign(u[1..]);
      assert u[1..] == SignText(sign) + t;
      assert u == [u[0]] + u[1..];
    }
  }

  /** A text is accepted exactly when some well-formed literal is written that way. */
  lemma AcceptedIffGrammatical(s: string)
    ensures Parse(s).Some? <==> exists l :: WellFormed(l) && Render(l) == s
  {
    if Parse(s).Some? {
      RenderParse(s);
    }
    if l :| WellFormed(l) && Render(l) == s {
      ParseRender(l);
    }
  }

  // ---- what a text denotes ----

  function Values(s: string): (d: seq<int>)
    ensures |d| == |s|
  {
    seq(|s|, i requires 0 <= i < |s| => s[i] as int - '0' as int)
  }

  ghost function ExponentValue(e: Exponent): int {
    match e
    case NoExponent => 0
    case Exponent(_, sign, digits) =>
      if sign == Minus then -Nat(Values(digits), 10) else Nat(Values(digits), 10)
  }

  /** The absolute value of a numeral: all its digits, scaled by the exponent and the length of the fraction. */
  ghost function Magnitude(b: Body): real
    requires b.Numeral?
  {
    Scale(Nat(Values(b.whole + b.fraction), 10) as real, ExponentValue(b.exponent) - |b.fraction|)
  }

  lemma ValuesAppend(a: string, b: string)
    ensures Values(a + b) == Values(a) + Values(b)
  {}

  lemma NoughtsZeros(n: int)
    ensures Zeros(Values(Noughts(n)))
  {}

  // ---- what an exponent does ----

  /** A written exponent multiplies by that power of ten, and a negative one divides. */
  lemma ExponentShifts(b: Body, upper: bool, sign: Sign, digits: string)
    requires b.Numeral? && b.exponent == NoExponent
    ensures var k, x := Nat(Values(digits), 10), Magnitude(b.(exponent := Exponent(upper, sign, digits)));
            if sign == Minus then Scale(x, k) == Magnitude(b) else x == Scale(Magnitude(b), k)
  {
    var n, k := Nat(Values(b.whole + b.fraction), 10) as real, Nat(Values(digits), 10);
    ScaleScale(n, -|b.fraction|, k);
    ScaleScale(n, -k - |b.fraction|, k);
  }

  function Noughts(n: int): (s: string)
    ensures |s| == if n >= 0 then n else 0
    ensures forall i :: 0 <= i < |s| ==> s[i] == '0'
  {
    if n <= 0 then "" else seq(n, _ => '0')
  }

  /** A numeral without an exponent, its point moved by e places. */
  function Moved(whole: string, fraction: string, e: int): Body {
    if e >= |fraction| then Numeral(whole + fraction + Noughts(e - |fraction|), true, "", NoExponent)
    else if e >= 0 then Numeral(whole + fraction[..e], true, fraction[e..], NoExponent)
    else if -e <= |whole| then Numeral(whole[..|whole| + e], true, whole[|whole| + e..] + fraction, NoExponent)
    else Numeral("", true, Noughts(-e - |whole|) + whole + fraction, NoExponent)
  }

  lemma MovedForm(l: Literal, e: int)
    requires WellFormed(l) && l.body.Numeral?
    ensures WellFormed(Literal(l.lead, l.sign, Moved(l.body.whole, l.body.fraction, e), l.trail))
  {
  }

  lemma PaddedRight(s: string, n: nat)
    ensures Scale(Nat(Values(s + Noughts(n)), 10) as real, 0) == Scale(Nat(Values(s), 10) as real, n)
  {
    NoughtsZeros(n);
    ValuesAppend(s, Noughts(n));
    NatTrailingZeros(Values(s), Values(Noughts(n)), 0);
  }

  lemma PaddedLeft(s: string, n: nat)
    ensures Nat(Values(Noughts(n) + s), 10) == Nat(Values(s), 10)
  {
    NoughtsZeros(n);
    ValuesAppend(Noughts(n), s);
    NatLeadingZeros(Values(Noughts(n)), Values(s));
  }

  lemma MovedMagnitude(whole: string, fraction: string, e: int)
    ensures Magnitude(Moved(whole, fraction, e)) == Scale(Nat(Values(whole + fraction), 10) as real, e - |fraction|)
  {
    var all, moved := whole + fraction, Moved(whole, fraction, e);
    if e >= |fraction| {
      PaddedRight(all, e - |fraction|);
      assert moved.whole + "" == all + Noughts(e - |fraction|);
    } else if -e <= |whole| {
      assert moved.whole + moved.fraction == all;
    } else {
      PaddedLeft(all, -e - |whole|);
      assert moved.whole + moved.fraction == Noughts(-e - |whole|) + all;
    }
  }

  /** Writing an exponent and moving the point are the same. */
  lemma ExponentMovesPoint(b: Body, upper: bool, sign: Sign, digits: string)
    requires b.Numeral? && b.exponent == Exponent(upper, sign, digits)
    ensures var k := Nat(Values(digits), 10);
            Magnitude(b) == Magnitude(Moved(b.whole, b.fraction, if sign == Minus then -k else k))
  {
    var k := Nat(Values(digits), 10);
    MovedMagnitude(b.whole, b.fraction, if sign == Minus then -k else k);
  }
}
