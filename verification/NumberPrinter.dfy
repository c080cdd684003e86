/** oranumber_to_str: Oracle NUMBER bytes to plain decimal text, and the round trip with the reader. */
module NumberPrinter {
  import opened Decimal
  import opened NumberText
  import opened Basics
  import opened OraNumber
  import opened NumberParser

  const INVALID_INTERNAL_FORMAT := -1
  const TOO_SHORT_BUFFER := -2

  // ---- the text of a decoded number ----

  /** C division and remainder by ten: towards zero. */
  function Quotient(n: int): int {
    if n >= 0 then n / 10 else -((-n) / 10)
  }

  function Remainder(n: int): int {
    n - 10 * Quotient(n)
  }

  function Figure(d: int): char
    requires -48 <= d < 80
  {
    (d + '0' as int) as char
  }

  predicate SignedByte(n: int) {
    -128 <= n <= 127
  }

  function PairText(n: int): string
    requires SignedByte(n)
  {
    [Figure(Quotient(n)), Figure(Remainder(n))]
  }

  function FirstText(n: int): string
    requires SignedByte(n)
  {
    if Quotient(n) != 0 then PairText(n) else [Figure(Remainder(n))]
  }

  /** Base-100 digits ended by a negative number. */
  predicate Terminated(ms: seq<int>) {
    ms != [] && ms[|ms| - 1] < 0 && forall i :: 0 <= i < |ms| ==> SignedByte(ms[i])
  }

  /** The k digits of the integer part from position i on; missing digits print as zeros. */
  function WholePairs(ms: seq<int>, i: nat, k: int): string
    requires Terminated(ms) && i < |ms|
    decreases |ms| - i
  {
    if k <= 0 then "" else if ms[i] < 0 then Noughts(2 * k) else PairText(ms[i]) + WholePairs(ms, i + 1, k - 1)
  }

  /** Where the integer part stops reading digits. */
  function WholeEnd(ms: seq<int>, i: nat, k: int): (j: nat)
    requires Terminated(ms) && i < |ms|
    ensures i <= j < |ms|
    decreases |ms| - i
  {
    if k <= 0 || ms[i] < 0 then i else WholeEnd(ms, i + 1, k - 1)
  }

  function FractionPairs(ms: seq<int>, i: nat): string
    requires Terminated(ms) && i < |ms|
    decreases |ms| - i
  {
    if ms[i] < 0 then "" else PairText(ms[i]) + FractionPairs(ms, i + 1)
  }

  function Trim(s: string): string {
    if s != "" && s[|s| - 1] == '0' then s[..|s| - 1] else s
  }

  /** The text after the sign, before a last zero of the fraction is dropped, and whether it has a fraction. */
  function Untrimmed(ms: seq<int>, exponent: int): (string, bool)
    requires Terminated(ms) && |ms| > 1
  {
    if exponent >= 0 then
      var whole := FirstText(ms[0]) + WholePairs(ms, 1, exponent);
      var j := WholeEnd(ms, 1, exponent);
      if ms[j] < 0 then (whole, false) else (whole + "." + FractionPairs(ms, j), true)
    else ("0." + Noughts(2 * (-1 - exponent)) + FractionPairs(ms, 0), true)
  }

  function Digitized(ms: seq<int>, exponent: int): string
    requires Terminated(ms) && |ms| > 1
  {
    var (s, dot) := Untrimmed(ms, exponent);
    if dot then Trim(s) else s
  }

  predicate Bytes(part: seq<int>) {
    |part| == 22 && forall i :: 0 <= i < 22 ==> 0 <= part[i] < 256
  }

  function Signed(n: int): (b: int)
    ensures SignedByte(b)
  {
    (n + 128) % 256 - 128
  }

  function DecodedByte(part: seq<int>, i: int): (b: int)
    requires Bytes(part) && 0 <= i < 20
    ensures SignedByte(b)
  {
    Signed(if part[1] >= 128 then part[i + 2] - 1 else 101 - part[i + 2])
  }

  /** The base-100 digits stored in the bytes, as signed bytes, and the end mark. */
  function Decoded(part: seq<int>): (ms: seq<int>)
    requires Bytes(part) && 2 <= part[0] <= 21
    ensures Terminated(ms) && |ms| == part[0]
  {
    seq(part[0] - 1, i requires 0 <= i < part[0] - 1 => DecodedByte(part, i)) + [-1]
  }

  function DecodedExponent(part: seq<int>): int
    requires Bytes(part)
  {
    if part[1] >= 128 then part[1] - 193 else 62 - part[1]
  }

  /** The text of any 22 bytes, or none when the length byte is not one a NUMBER can have. */
  function Text(part: seq<int>): Option<string>
    requires Bytes(part)
  {
    if part[0] == 0 || part[0] > 21 then None
    else if part[0] == 1 then (if part[1] == 128 then Some("0") else if part[1] == 0 then Some("-~") else None)
    else if part[0] == 2 && part[1] == 255 && part[2] == 101 then Some("~")
    else Some((if part[1] >= 128 then "" else "-") + Digitized(Decoded(part), DecodedExponent(part)))
  }

  // ---- the procedure ----

  /** What was written so far is the first len characters of the buffer. */
  ghost predicate Wrote(buf: array<char>, len: int, s: string)
    reads buf
  {
    0 <= len <= buf.Length && buf[..len] == s
  }

  /** PUTC: one character, unless the buffer is full. */
  method Put(buf: array<char>, len: nat, buflen: int, c: char, ghost s: string) returns (ok: bool, len': nat)
    requires buflen <= buf.Length && Wrote(buf, len, s)
    modifies buf
    ensures ok <==> len < buflen
    ensures ok ==> len' == len + 1 && Wrote(buf, len', s + [c])
    ensures !ok ==> len' == len
  {
    ok, len' := len < buflen, len;
    if ok {
      buf[len] := c;
      len' := len + 1;
    }
  }

  method PutPair(buf: array<char>, len: nat, buflen: int, n: int, ghost s: string) returns (ok: bool, len': nat)
    requires buflen <= buf.Length && Wrote(buf, len, s) && SignedByte(n)
    modifies buf
    ensures ok <==> len + 2 <= buflen
    ensures ok ==> len' == len + 2 && Wrote(buf, len', s + PairText(n))
  {
    ok, len' := Put(buf, len, buflen, Figure(Quotient(n)), s);
    if ok {
      ok, len' := Put(buf, len', buflen, Figure(Remainder(n)), s + [Figure(Quotient(n))]);
      assert s + [Figure(Quotient(n))] + [Figure(Remainder(n))] == s + PairText(n);
    }
  }

  method PutNoughts(buf: array<char>, len: nat, buflen: int, pairs: nat, ghost s: string) returns (ok: bool, len': nat)
    requires buflen <= buf.Length && Wrote(buf, len, s)
    modifies buf
    ensures ok ==> len' == len + 2 * pairs && Wrote(buf, len', s + Noughts(2 * pairs))
    ensures if ok then len <= buflen ==> len' <= buflen else buflen < len + 2 * pairs
  {
    ok, len' := true, len;
    var k := 0;
    assert s + Noughts(0) == s;
    while k < pairs
      invariant 0 <= k <= pairs && len' == len + 2 * k && Wrote(buf, len', s + Noughts(2 * k))
      invariant len <= buflen ==> len' <= buflen
    {
      ok, len' := PutPair(buf, len', buflen, 0, s + Noughts(2 * k));
      if !ok {
        return;
      }
      assert s + Noughts(2 * k) + PairText(0) == s + Noughts(2 * (k + 1));
      k := k + 1;
    }
  }

  /** The first digit of the integer part, without a leading zero. */
  method PutFirst(n: int, buf: array<char>, len: nat, buflen: int, ghost s: string) returns (ok: bool, len': nat)
    requires buflen <= buf.Length && Wrote(buf, len, s) && SignedByte(n)
    modifies buf
    ensures if ok then len' == len + |FirstText(n)| && Wrote(buf, len', s + FirstText(n))
            else buflen < len + |FirstText(n)|
  {
    if Quotient(n) != 0 {
      ok, len' := PutPair(buf, len, buflen, n, s);
    } else {
      ok, len' := Put(buf, len, buflen, Figure(Remainder(n)), s);
    }
  }

  /** The integer part; the counter runs down as in the original loop. */
  method PutWhole(ms: seq<int>, exponent: nat, buf: array<char>, len: nat, buflen: int, ghost s: string)
    returns (ok: bool, len': nat, idx: nat)
    requires Terminated(ms) && |ms| > 1
    requires buflen <= buf.Length && Wrote(buf, len, s)
    modifies buf
    ensures var t := FirstText(ms[0]) + WholePairs(ms, 1, exponent);
            if ok then len' == len + |t| && Wrote(buf, len', s + t) && idx == WholeEnd(ms, 1, exponent)
            else buflen < len + |t|
  {
    idx := 1;
    ok, len' := PutFirst(ms[0], buf, len, buflen, s);
    if ok {
      ok, len', idx := PutPairs(ms, exponent, buf, len', buflen, s + FirstText(ms[0]));
      assert s + FirstText(ms[0]) + WholePairs(ms, 1, exponent) == s + (FirstText(ms[0]) + WholePairs(ms, 1, exponent));
    }
  }

  method PutPairs(ms: seq<int>, exponent: nat, buf: array<char>, len: nat, buflen: int, ghost s: string)
    returns (ok: bool, len': nat, idx: nat)
    requires Terminated(ms) && |ms| > 1
    requires buflen <= buf.Length && Wrote(buf, len, s)
    modifies buf
    ensures var t := WholePairs(ms, 1, exponent);
            if ok then len' == len + |t| && Wrote(buf, len', s + t) && idx == WholeEnd(ms, 1, exponent)
            else buflen < len + |t|
  {
    ok, len', idx := true, len, 1;
    ghost var t := WholePairs(ms, 1, exponent);
    ghost var done := s;
    var k := exponent;
    while k > 0
      invariant 0 <= k && 1 <= idx < |ms| && Wrote(buf, len', done) && ok
      invariant done + WholePairs(ms, idx, k) == s + t && WholeEnd(ms, idx, k) == WholeEnd(ms, 1, exponent)
    {
      var n := ms[idx];
      if n < 0 {
        ok, len' := PutNoughts(buf, len', buflen, k, done);
        return;
      }
      ok, len' := PutPair(buf, len', buflen, n, done);
      assert (done + PairText(n)) + WholePairs(ms, idx + 1, k - 1) == s + t;
      if !ok {
        return;
      }
      done := done + PairText(n);
      idx := idx + 1;
      k := k - 1;
    }
    assert done + "" == done;
  }

  method PutFraction(ms: seq<int>, start: nat, buf: array<char>, len: nat, buflen: int, ghost s: string)
    returns (ok: bool, len': nat)
    requires Terminated(ms) && start < |ms|
    requires buflen <= buf.Length && Wrote(buf, len, s)
    modifies buf
    ensures var t := FractionPairs(ms, start);
            if ok then len' == len + |t| && Wrote(buf, len', s + t) && (len <= buflen ==> len' <= buflen)
            else buflen < len + |t|
  {
    ok, len' := true, len;
    var idx := start;
    ghost var done := s;
    while ms[idx] >= 0
      invariant start <= idx < |ms| && ok && Wrote(buf, len', done) && (len <= buflen ==> len' <= buflen)
      invariant done + FractionPairs(ms, idx) == s + FractionPairs(ms, start)
      decreases |ms| - idx
    {
      ok, len' := PutPair(buf, len', buflen, ms[idx], done);
      assert (done + PairText(ms[idx])) + FractionPairs(ms, idx + 1) == s + FractionPairs(ms, start);
      if !ok {
        return;
      }
      done := done + PairText(ms[idx]);
      idx := idx + 1;
    }
    assert done + "" == done;
  }

  /** PUTEND: the terminating NUL; the number of characters before it is the result. */
  method End(buf: array<char>, len: nat, buflen: int, ghost s: string) returns (rv: int)
    requires buflen <= buf.Length && Wrote(buf, len, s)
    modifies buf
    ensures if len < buflen then rv == len && Wrote(buf, len, s) && buf[len] == '\0' else rv == TOO_SHORT_BUFFER
  {
    if len < buflen {
      buf[len] := '\0';
      rv := len;
    } else {
      rv := TOO_SHORT_BUFFER;
    }
  }

  /** A zero, the point and the zeros after it, for a number below one. */
  method PutPoint(buf: array<char>, start: nat, buflen: int, pairs: nat, ghost s: string) returns (ok: bool, len: nat)
    requires buflen <= buf.Length && Wrote(buf, start, s)
    modifies buf
    ensures var t := s + "0." + Noughts(2 * pairs);
            if ok then len <= buflen && Wrote(buf, len, t) else buflen < |t|
  {
    ok, len := Put(buf, start, buflen, '0', s);
    if !ok {
      return;
    }
    ok, len := Put(buf, len, buflen, '.', s + "0");
    if !ok {
      return;
    }
    assert s + "0" + "." == s + "0.";
    ok, len := PutNoughts(buf, len, buflen, pairs, s + "0.");
  }

  /** Everything after the sign. */
  method PutNumber(ms: seq<int>, exponent: int, buf: array<char>, start: nat, buflen: int, ghost s: string)
    returns (rv: int)
    requires Terminated(ms) && |ms| > 1
    requires buflen <= buf.Length && Wrote(buf, start, s)
    modifies buf
    ensures Ends(buf, buflen, s + Digitized(ms, exponent), rv)
  {
    if exponent >= 0 {
      rv := PutFromOne(ms, exponent, buf, start, buflen, s);
    } else {
      rv := PutBelowOne(ms, exponent, buf, start, buflen, s);
    }
  }

  /** The text and its NUL are in the buffer, or they do not fit. */
  ghost predicate Ends(buf: array<char>, buflen: int, t: string, rv: int)
    reads buf
    requires buflen <= buf.Length
  {
    if |t| < buflen then rv == |t| && Wrote(buf, rv, t) && buf[rv] == '\0' else rv == TOO_SHORT_BUFFER
  }

  method PutFromOne(ms: seq<int>, exponent: nat, buf: array<char>, start: nat, buflen: int, ghost s: string)
    returns (rv: int)
    requires Terminated(ms) && |ms| > 1
    requires buflen <= buf.Length && Wrote(buf, start, s)
    modifies buf
    ensures Ends(buf, buflen, s + Digitized(ms, exponent), rv)
  {
    ghost var whole := FirstText(ms[0]) + WholePairs(ms, 1, exponent);
    var ok, len, idx := PutWhole(ms, exponent, buf, start, buflen, s);
    if !ok {
      return TOO_SHORT_BUFFER;
    }
    if ms[idx] < 0 {
      rv := End(buf, len, buflen, s + whole);
      return;
    }
    ok, len := Put(buf, len, buflen, '.', s + whole);
    if !ok {
      return TOO_SHORT_BUFFER;
    }
    assert s + whole + "." + FractionPairs(ms, idx) == s + (whole + "." + FractionPairs(ms, idx));
    rv := PutEnd(ms, idx, buf, len, buflen, s + whole + ".", s, whole + "." + FractionPairs(ms, idx));
  }

  method PutBelowOne(ms: seq<int>, exponent: int, buf: array<char>, start: nat, buflen: int, ghost s: string)
    returns (rv: int)
    requires Terminated(ms) && |ms| > 1 && exponent < 0
    requires buflen <= buf.Length && Wrote(buf, start, s)
    modifies buf
    ensures Ends(buf, buflen, s + Digitized(ms, exponent), rv)
  {
    ghost var z := "0." + Noughts(2 * (-1 - exponent));
    var ok, len := PutPoint(buf, start, buflen, -1 - exponent, s);
    assert s + "0." + Noughts(2 * (-1 - exponent)) == s + z;
    if !ok {
      return TOO_SHORT_BUFFER;
    }
    assert s + z + FractionPairs(ms, 0) == s + (z + FractionPairs(ms, 0));
    rv := PutEnd(ms, 0, buf, len, buflen, s + z, s, z + FractionPairs(ms, 0));
  }

  /** The fraction and the end. */
  method PutEnd(ms: seq<int>, idx: nat, buf: array<char>, start: nat, buflen: int,
                ghost done: string, ghost s: string, ghost full: string)
    returns (rv: int)
    requires Terminated(ms) && idx < |ms| && start <= buflen
    requires buflen <= buf.Length && Wrote(buf, start, done) && done + FractionPairs(ms, idx) == s + full && full != ""
    modifies buf
    ensures Ends(buf, buflen, s + Trim(full), rv)
  {
    var ok, len := PutFraction(ms, idx, buf, start, buflen, done);
    if !ok {
      return TOO_SHORT_BUFFER;
    }
    rv := TrimEnd(buf, len, buflen, s, full);
  }

  /** A last zero of the fraction is dropped before the text is ended. */
  method TrimEnd(buf: array<char>, count: nat, buflen: int, ghost s: string, ghost full: string) returns (rv: int)
    requires buflen <= buf.Length && Wrote(buf, count, s + full) && full != "" && count <= buflen
    modifies buf
    ensures Ends(buf, buflen, s + Trim(full), rv)
  {
    var len := count;
    assert buf[len - 1] == full[|full| - 1];
    if buf[len - 1] == '0' {
      len := len - 1;
    }
    assert buf[..len] == s + Trim(full);
    rv := End(buf, len, buflen, s + Trim(full));
  }

  /** oranumber_to_str: never writes past buflen, and is too short exactly when the text and its NUL do not fit. */
  method ToStr(part: seq<int>, buf: array<char>, buflen: int) returns (rv: int)
    requires Bytes(part) && buflen <= buf.Length
    modifies buf
    ensures rv == INVALID_INTERNAL_FORMAT <==>
              part[0] == 0 || (part[0] == 1 && part[1] != 0x80 && part[1] != 0) || part[0] > 21
    ensures Text(part).None? ==> rv == INVALID_INTERNAL_FORMAT
    ensures Text(part).Some? ==>
      var t := Text(part).value;
      if |t| < buflen then rv == |t| && buf[..rv] == t && buf[rv] == '\0' else rv == TOO_SHORT_BUFFER
  {
    var datalen := part[0];
    var ok, len := true, 0;
    assert Wrote(buf, 0, "");
    if datalen == 0 {
      return INVALID_INTERNAL_FORMAT;
    }
    if datalen == 1 {
      if part[1] == 128 {
        ok, len := Put(buf, 0, buflen, '0', "");
        if !ok {
          return TOO_SHORT_BUFFER;
        }
        rv := End(buf, len, buflen, "0");
        return;
      }
      if part[1] == 0 {
        rv := PutNegativeInfinity(buf, buflen);
        return;
      }
      return INVALID_INTERNAL_FORMAT;
    }
    if datalen == 2 && part[1] == 255 && part[2] == 101 {
      ok, len := Put(buf, 0, buflen, '~', "");
      if !ok {
        return TOO_SHORT_BUFFER;
      }
      rv := End(buf, len, buflen, "~");
      return;
    }
    if datalen > 21 {
      return INVALID_INTERNAL_FORMAT;
    }
    var mantissa, exponent := Decode(part);
    if part[1] < 128 {
      ok, len := Put(buf, 0, buflen, '-', "");
      if !ok {
        return TOO_SHORT_BUFFER;
      }
    }
    rv := PutNumber(mantissa[..part[0]], exponent, buf, len, buflen, if part[1] >= 128 then "" else "-");
  }

  method PutNegativeInfinity(buf: array<char>, buflen: int) returns (rv: int)
    requires buflen <= buf.Length
    modifies buf
    ensures if 2 < buflen then rv == 2 && buf[..2] == "-~" && buf[2] == '\0' else rv == TOO_SHORT_BUFFER
  {
    var ok, len := Put(buf, 0, buflen, '-', "");
    if !ok {
      return TOO_SHORT_BUFFER;
    }
    ok, len := Put(buf, len, buflen, '~', "-");
    if !ok {
      return TOO_SHORT_BUFFER;
    }
    assert "-" + "~" == "-~";
    rv := End(buf, len, buflen, "-~");
  }

  /** Normalizes the exponent and the digits of either sign. */
  method Decode(part: seq<int>) returns (mantissa: array<int>, exponent: int)
    requires Bytes(part) && 2 <= part[0] <= 21
    ensures fresh(mantissa) && mantissa.Length == 21
    ensures mantissa[..part[0]] == Decoded(part) && exponent == DecodedExponent(part)
  {
    mantissa := new int[21](_ => 0);
    var positive := part[1] >= 128;
    exponent := if positive then part[1] - 193 else 62 - part[1];
    var idx := 0;
    while idx < part[0] - 1
      invariant 0 <= idx <= part[0] - 1
      invariant forall j :: 0 <= j < idx ==> mantissa[j] == Decoded(part)[j]
    {
      mantissa[idx] := Signed(if positive then part[idx + 2] - 1 else 101 - part[idx + 2]);
      idx := idx + 1;
    }
    mantissa[idx] := -1;
  }

  // ---- the text of a canonical number ----

  /** Both decimal digits of every base-100 digit. */
  function Expand(d: seq<int>): string
    requires Digits(d, 100)
  {
    if d == [] then "" else PairText(d[0]) + Expand(d[1..])
  }

  /** The plain decimal notation of a nonzero number, without superfluous zeros. */
  function PlainBody(d: seq<int>, exp: int): Body
    requires Digits(d, 100) && d != []
  {
    if exp < 0 then Numeral("0", true, Trim(Noughts(2 * (-1 - exp)) + Expand(d)), NoExponent)
    else
      var k := if exp + 1 < |d| then exp + 1 else |d|;
      var whole := FirstText(d[0]) + Expand(d[1..k]) + Noughts(2 * (exp + 1 - |d|));
      if k == |d| then Numeral(whole, false, "", NoExponent)
      else Numeral(whole, true, Trim(Expand(d[k..])), NoExponent)
  }

  function PlainLiteral(n: Number): Literal
    requires n.Finite? ==> Digits(n.digits, 100) && n.digits != []
  {
    match n
    case Zero => Literal(0, Unsigned, Numeral("0", false, "", NoExponent), 0)
    case PositiveInfinity => Literal(0, Unsigned, Tilde, 0)
    case NegativeInfinity => Literal(0, Minus, Tilde, 0)
    case Finite(negative, exp, digits) =>
      Literal(0, if negative then Minus else Unsigned, PlainBody(digits, exp), 0)
  }

  /** The 22 bytes of an OCINumber that holds n; the bytes past its length are arbitrary. */
  ghost predicate Stored(part: seq<int>, n: Number) {
    Bytes(part) && |Part(n)| <= 22 && part[..|Part(n)|] == Part(n)
  }

  /** Stored digits followed by end marks only. */
  ghost predicate Ended(ms: seq<int>, d: seq<int>) {
    && Terminated(ms) && |d| < |ms| && ms[..|d|] == d && Digits(d, 100)
    && forall i :: |d| <= i < |ms| ==> ms[i] < 0
  }

  lemma {:induction false} FractionText(ms: seq<int>, d: seq<int>, i: nat)
    requires Ended(ms, d) && i <= |d|
    ensures FractionPairs(ms, i) == Expand(d[i..])
    decreases |d| - i
  {
    if i < |d| {
      assert ms[i] == d[i] && d[i..][1..] == d[i + 1..];
      FractionText(ms, d, i + 1);
    }
  }

  lemma ExpandFrom(d: seq<int>, i: nat)
    requires Digits(d, 100) && i < |d|
    ensures Expand(d[i..]) == PairText(d[i]) + Expand(d[i + 1..])
  {
    assert d[i..][1..] == d[i + 1..];
  }

  /** k digits are wanted from position i on and the stored ones last: all of them are there. */
  lemma {:induction false} WholeInside(ms: seq<int>, d: seq<int>, i: nat, j: nat)
    requires Ended(ms, d) && i <= j <= |d|
    ensures WholePairs(ms, i, j - i) == Expand(d[i..j]) && WholeEnd(ms, i, j - i) == j
    decreases j - i
  {
    if i < j {
      assert ms[i] == d[i] && d[i..j][1..] == d[i + 1..j];
      WholeInside(ms, d, i + 1, j);
    }
  }

  lemma WholeStep(ms: seq<int>, d: seq<int>, i: nat, k: int)
    requires Ended(ms, d) && i <= |d| && 0 <= k && (i < |d| ==> 0 < k)
    ensures WholePairs(ms, i, k) == if i < |d| then PairText(d[i]) + WholePairs(ms, i + 1, k - 1) else Noughts(2 * k)
  {
    assert i < |d| ==> ms[i] == d[i];
  }

  lemma ExpandMore(d: seq<int>, i: nat, zeros: string)
    requires Digits(d, 100) && i <= |d|
    ensures Expand(d[i..]) + zeros == if i < |d| then PairText(d[i]) + (Expand(d[i + 1..]) + zeros) else zeros
  {
    if i < |d| {
      ExpandFrom(d, i);
      Assoc(PairText(d[i]), Expand(d[i + 1..]), zeros);
    } else {
      assert d[i..] == [] && "" + zeros == zeros;
    }
  }

  /** z more digits are wanted than are stored: zeros follow. */
  lemma {:induction false} WholeBeyond(ms: seq<int>, d: seq<int>, i: nat, z: nat)
    requires Ended(ms, d) && i <= |d|
    ensures WholePairs(ms, i, |d| - i + z) == Expand(d[i..]) + Noughts(2 * z)
    decreases |d| - i
  {
    WholeStep(ms, d, i, |d| - i + z);
    ExpandMore(d, i, Noughts(2 * z));
    if i < |d| {
      WholeBeyond(ms, d, i + 1, z);
    }
  }

  lemma {:induction false} EndBeyond(ms: seq<int>, d: seq<int>, i: nat, z: nat)
    requires Ended(ms, d) && i <= |d|
    ensures WholeEnd(ms, i, |d| - i + z) == |d|
    decreases |d| - i
  {
    if i < |d| {
      assert ms[i] == d[i];
      EndBeyond(ms, d, i + 1, z);
    }
  }

  lemma ExpandLength(d: seq<int>)
    requires Digits(d, 100)
    ensures |Expand(d)| == 2 * |d| && All(Digit, Expand(d))
  {}

  lemma SmallText(ms: seq<int>, d: seq<int>, exp: int)
    requires Ended(ms, d) && d != [] && exp < 0
    ensures Digitized(ms, exp) == BodyText(PlainBody(d, exp))
  {
    var z := Noughts(2 * (-1 - exp));
    FractionText(ms, d, 0);
    assert d[0..] == d;
    ExpandLength(d);
    assert "0." + z + Expand(d) == "0" + "." + (z + Expand(d));
    TrimTail("0", z + Expand(d));
  }

  lemma MixedDigits(ms: seq<int>, d: seq<int>, exp: nat)
    requires Ended(ms, d) && exp + 1 < |d|
    ensures Untrimmed(ms, exp) == (FirstText(d[0]) + Expand(d[1..exp + 1]) + "." + Expand(d[exp + 1..]), true)
  {
    WholeInside(ms, d, 1, exp + 1);
    FractionText(ms, d, exp + 1);
    assert ms[0] == d[0] && ms[exp + 1] == d[exp + 1];
  }

  lemma MixedText(ms: seq<int>, d: seq<int>, exp: nat)
    requires Ended(ms, d) && exp + 1 < |d|
    ensures Digitized(ms, exp) == BodyText(PlainBody(d, exp))
  {
    MixedDigits(ms, d, exp);
    MixedBody(d, exp);
    ExpandLength(d[exp + 1..]);
    TrimTail(FirstText(d[0]) + Expand(d[1..exp + 1]), Expand(d[exp + 1..]));
  }

  lemma WholeDigits(ms: seq<int>, d: seq<int>, exp: int)
    requires Ended(ms, d) && d != [] && |d| <= exp + 1
    ensures Untrimmed(ms, exp) == (FirstText(d[0]) + (Expand(d[1..]) + Noughts(2 * (exp + 1 - |d|))), false)
  {
    var z := exp + 1 - |d|;
    WholeBeyond(ms, d, 1, z);
    EndBeyond(ms, d, 1, z);
    assert |d| - 1 + z == exp && ms[0] == d[0] && ms[|d|] < 0;
  }

  lemma WholeText(ms: seq<int>, d: seq<int>, exp: int)
    requires Ended(ms, d) && d != [] && |d| <= exp + 1
    ensures Digitized(ms, exp) == BodyText(PlainBody(d, exp))
  {
    WholeDigits(ms, d, exp);
    WholeBody(d, exp);
  }

  lemma WholeBody(d: seq<int>, exp: int)
    requires Digits(d, 100) && d != [] && |d| <= exp + 1
    ensures BodyText(PlainBody(d, exp)) == FirstText(d[0]) + (Expand(d[1..]) + Noughts(2 * (exp + 1 - |d|)))
  {
    var zeros := Noughts(2 * (exp + 1 - |d|));
    Assoc(FirstText(d[0]), Expand(d[1..]), zeros);
    var whole := FirstText(d[0]) + Expand(d[1..]) + zeros;
    assert d[1..|d|] == d[1..] && whole + ("" + "") == whole;
  }

  lemma DigitizedText(ms: seq<int>, d: seq<int>, exp: int)
    requires Ended(ms, d) && d != []
    ensures Digitized(ms, exp) == BodyText(PlainBody(d, exp))
  {
    if exp < 0 {
      SmallText(ms, d, exp);
    } else if exp + 1 < |d| {
      MixedText(ms, d, exp);
    } else {
      WholeText(ms, d, exp);
    }
  }

  lemma TrimTail(whole: string, f: string)
    requires f != ""
    ensures Trim(whole + "." + f) == whole + (("." + Trim(f)) + "")
  {
    assert (whole + "." + f)[|whole + "." + f| - 1] == f[|f| - 1];
  }

  lemma StoredBytes(part: seq<int>, n: Number)
    requires Canonical(n) && Stored(part, n)
    ensures part[0] == |Encode(n)| <= 21 && forall j :: 1 <= j <= |Encode(n)| ==> part[j] == Encode(n)[j - 1]
  {
    assert forall j :: 0 <= j < |Part(n)| ==> part[j] == part[..|Part(n)|][j];
  }

  lemma EncodedDigits(n: Number)
    requires Canonical(n) && n.Finite?
    ensures var d := n.digits;
            |Encode(n)| == 1 + |d| + (if n.negative && |d| < 20 then 1 else 0)
            && (forall i :: 0 <= i < |d| ==> Encode(n)[i + 1] == if n.negative then 101 - d[i] else d[i] + 1)
            && (|Encode(n)| == |d| + 2 ==> Encode(n)[|d| + 1] == 102)
  {
    IncrementedEach(n.digits);
    ComplementedAt(n.digits, 20);
  }

  lemma DecodedDigit(part: seq<int>, n: Number, i: nat)
    requires Canonical(n) && n.Finite? && Stored(part, n) && 2 <= part[0] <= 21 && i < part[0] - 1
    ensures DecodedByte(part, i) == if i < |n.digits| then n.digits[i] else -1
  {
    StoredBytes(part, n);
    EncodedDigits(n);
    assert part[1] == Encode(n)[0] && part[i + 2] == Encode(n)[i + 1];
  }

  lemma DecodedDigits(part: seq<int>, n: Number)
    requires Canonical(n) && n.Finite? && Stored(part, n)
    ensures 2 <= part[0] <= 21 && Ended(Decoded(part), n.digits) && DecodedExponent(part) == n.exp
    ensures part[1] >= 128 <==> !n.negative
    ensures !(part[0] == 2 && part[1] == 255 && part[2] == 101)
  {
    StoredBytes(part, n);
    EncodedDigits(n);
    var ms := Decoded(part);
    forall i | 0 <= i < |ms| - 1 ensures ms[i] == if i < |n.digits| then n.digits[i] else -1 {
      DecodedDigit(part, n, i);
      assert ms[i] == DecodedByte(part, i);
    }
    assert part[1] == Encode(n)[0] && part[2] == Encode(n)[1];
  }

  lemma FiniteRendered(n: Number)
    requires Canonical(n) && n.Finite?
    ensures Render(PlainLiteral(n)) == (if n.negative then "-" else "") + BodyText(PlainBody(n.digits, n.exp))
  {
    var sign := if n.negative then "-" else "";
    var t := BodyText(PlainBody(n.digits, n.exp));
    assert Spaces(0) + (sign + (t + Spaces(0))) == sign + t;
  }

  lemma FiniteText(part: seq<int>, n: Number)
    requires Canonical(n) && n.Finite? && Stored(part, n)
    ensures Text(part) == Some(Render(PlainLiteral(n)))
  {
    DecodedDigits(part, n);
    DigitizedText(Decoded(part), n.digits, n.exp);
    FiniteRendered(n);
    assert BodyText(PlainBody(n.digits, n.exp)) == "" + BodyText(PlainBody(n.digits, n.exp));
  }

  lemma SpecialText(n: Number)
    requires !n.Finite?
    ensures Render(PlainLiteral(n)) == if n.Zero? then "0" else if n.PositiveInfinity? then "~" else "-~"
  {
    assert Spaces(0) == "";
    assert "0" + ("" + "") == "0";
  }

  /** What oranumber_to_str prints for a canonical number is its plain notation. */
  lemma TextIsPlain(part: seq<int>, n: Number)
    requires Canonical(n) && Stored(part, n)
    ensures Text(part) == Some(Render(PlainLiteral(n)))
  {
    StoredBytes(part, n);
    if n.Finite? {
      FiniteText(part, n);
    } else {
      SpecialText(n);
      assert part[1] == Encode(n)[0];
    }
  }

  // ---- the printed text denotes the number ----

  function Figures(d: seq<int>): (r: seq<int>)
    ensures |r| == 2 * |d|
  {
    seq(2 * |d|, i requires 0 <= i < 2 * |d| => if i % 2 == 0 then d[i / 2] / 10 else d[i / 2] % 10)
  }

  lemma FiguresAt(d: seq<int>, i: nat)
    requires i < |d|
    ensures Figures(d)[2 * i] == d[i] / 10 && Figures(d)[2 * i + 1] == d[i] % 10
  {
    assert (2 * i) / 2 == i && (2 * i) % 2 == 0 && (2 * i + 1) / 2 == i && (2 * i + 1) % 2 == 1;
  }

  lemma FiguresNat(d: seq<int>)
    requires Digits(d, 100)
    ensures Nat(Figures(d), 10) == Nat(d, 100)
  {
    var f := Figures(d);
    PairsNat(f);
    assert Pairs(f) == d by {
      forall i | 0 <= i < |d| ensures Pairs(f)[i] == d[i] {
        FiguresAt(d, i);
      }
    }
  }

  lemma {:induction false} ExpandFigures(d: seq<int>)
    requires Digits(d, 100)
    ensures Values(Expand(d)) == Figures(d)
  {
    if d != [] {
      ExpandFigures(d[1..]);
      assert Figures(d) == [d[0] / 10, d[0] % 10] + Figures(d[1..]);
      assert Values(PairText(d[0])) == [d[0] / 10, d[0] % 10];
      ValuesAppend(PairText(d[0]), Expand(d[1..]));
    }
  }

  lemma ExpandValues(d: seq<int>)
    requires Digits(d, 100)
    ensures Nat(Values(Expand(d)), 10) == Nat(d, 100)
  {
    ExpandFigures(d);
    FiguresNat(d);
  }

  /** Dropping a last zero of the fraction does not change what is denoted. */
  lemma TrimValue(whole: string, f: string)
    requires f != ""
    ensures Scale(Nat(Values(whole + Trim(f)), 10) as real, -|Trim(f)|)
         == Scale(Nat(Values(whole + f), 10) as real, -|f|)
  {
    if f[|f| - 1] == '0' {
      assert whole + f == (whole + Trim(f)) + "0";
      ValuesAppend(whole + Trim(f), "0");
      NatTrailingZeros(Values(whole + Trim(f)), Values("0"), -|f|);
    }
  }

  /** A trimmed fraction denotes the same as the digits before trimming. */
  lemma TrimmedMagnitude(whole: string, f: string, k: int)
    requires f != "" && k == -|f|
    ensures Magnitude(Numeral(whole, true, Trim(f), NoExponent)) == Scale(Nat(Values(whole + f), 10) as real, k)
  {
    TrimValue(whole, f);
    assert 0 - |Trim(f)| == -|Trim(f)|;
  }

  /** A zero before the first digit does not change what is denoted. */
  lemma LeadingNought(s: string)
    ensures Nat(Values("0" + s), 10) == Nat(Values(s), 10)
  {
    ValuesAppend("0", s);
    NatLeadingZeros(Values("0"), Values(s));
  }

  lemma FirstTextValue(n: int, rest: string)
    requires 0 <= n < 100
    ensures Nat(Values(FirstText(n) + rest), 10) == Nat(Values(PairText(n) + rest), 10)
  {
    if Quotient(n) == 0 {
      assert PairText(n) + rest == "0" + (FirstText(n) + rest);
      LeadingNought(FirstText(n) + rest);
    }
  }

  lemma {:induction false} ExpandSplit(d: seq<int>, k: nat)
    requires Digits(d, 100) && k <= |d|
    ensures Expand(d) == Expand(d[..k]) + Expand(d[k..])
  {
    if k == 0 {
      assert d[..0] == [] && d[0..] == d && "" + Expand(d) == Expand(d);
    } else {
      ExpandSplit(d[1..], k - 1);
      assert d[1..][..k - 1] == d[..k][1..] && d[1..][k - 1..] == d[k..];
      Assoc(PairText(d[0]), Expand(d[..k][1..]), Expand(d[k..]));
    }
  }

  lemma WholeValue(d: seq<int>, z: string)
    requires Digits(d, 100) && d != [] && All(Digit, z)
    ensures Nat(Values(FirstText(d[0]) + Expand(d[1..]) + z), 10) == Nat(Values(Expand(d)) + Values(z), 10)
  {
    Assoc(FirstText(d[0]), Expand(d[1..]), z);
    Assoc(PairText(d[0]), Expand(d[1..]), z);
    FirstTextValue(d[0], Expand(d[1..]) + z);
    ValuesAppend(Expand(d), z);
  }

  lemma WholeDenotes(d: seq<int>, exp: int)
    requires Digits(d, 100) && d != [] && |d| <= exp + 1
    ensures Magnitude(PlainBody(d, exp)) == Mantissa(d, exp)
  {
    var z := Noughts(2 * (exp + 1 - |d|));
    var whole := FirstText(d[0]) + Expand(d[1..|d|]) + z;
    assert d[1..|d|] == d[1..] && whole + "" == whole;
    NoughtsZeros(2 * (exp + 1 - |d|));
    WholeValue(d, z);
    ExpandValues(d);
    NatTrailingZeros(Values(Expand(d)), Values(z), 0);
  }

  /** The digits before and after the point, as printed, are all the digits. */
  lemma MixedNat(d: seq<int>, k: nat)
    requires Digits(d, 100) && 1 <= k < |d|
    ensures Nat(Values(FirstText(d[0]) + Expand(d[1..k]) + Expand(d[k..])), 10) == Nat(d, 100)
  {
    var f := Expand(d[k..]);
    Assoc(FirstText(d[0]), Expand(d[1..k]), f);
    Assoc(PairText(d[0]), Expand(d[1..k]), f);
    FirstTextValue(d[0], Expand(d[1..k]) + f);
    ExpandSplit(d, k);
    assert d[..k][1..] == d[1..k];
    ExpandValues(d);
  }

  lemma MixedBody(d: seq<int>, exp: int)
    requires Digits(d, 100) && 0 <= exp && exp + 1 < |d|
    ensures PlainBody(d, exp)
         == Numeral(FirstText(d[0]) + Expand(d[1..exp + 1]), true, Trim(Expand(d[exp + 1..])), NoExponent)
  {
    assert FirstText(d[0]) + Expand(d[1..exp + 1]) + "" == FirstText(d[0]) + Expand(d[1..exp + 1]);
  }

  lemma MixedDenotes(d: seq<int>, exp: int)
    requires Digits(d, 100) && 0 <= exp && exp + 1 < |d|
    ensures Magnitude(PlainBody(d, exp)) == Mantissa(d, exp)
  {
    MixedBody(d, exp);
    ExpandLength(d[exp + 1..]);
    MixedNat(d, exp + 1);
    TrimmedMagnitude(FirstText(d[0]) + Expand(d[1..exp + 1]), Expand(d[exp + 1..]), 2 * (exp + 1 - |d|));
  }

  lemma SmallNat(d: seq<int>, n: int)
    requires Digits(d, 100)
    ensures Nat(Values("0" + (Noughts(n) + Expand(d))), 10) == Nat(d, 100)
  {
    LeadingNought(Noughts(n) + Expand(d));
    ValuesAppend(Noughts(n), Expand(d));
    NoughtsZeros(n);
    NatLeadingZeros(Values(Noughts(n)), Values(Expand(d)));
    ExpandValues(d);
  }

  lemma SmallDenotes(d: seq<int>, exp: int)
    requires Digits(d, 100) && d != [] && exp < 0
    ensures Magnitude(PlainBody(d, exp)) == Mantissa(d, exp)
  {
    ExpandLength(d);
    SmallNat(d, 2 * (-1 - exp));
    TrimmedMagnitude("0", Noughts(2 * (-1 - exp)) + Expand(d), 2 * (exp + 1 - |d|));
  }

  /** The printed text denotes exactly the number it was printed from. */
  lemma PlainDenotes(d: seq<int>, exp: int)
    requires Digits(d, 100) && d != []
    ensures Magnitude(PlainBody(d, exp)) == Mantissa(d, exp)
  {
    if exp < 0 {
      SmallDenotes(d, exp);
    } else if exp + 1 < |d| {
      MixedDenotes(d, exp);
    } else {
      WholeDenotes(d, exp);
    }
  }

  // ---- plain form ----

  /** No exponent, no leading zero but the one before a point, no trailing zero in a fraction. */
  ghost predicate Plain(b: Body) {
    match b
    case Tilde => true
    case Numeral(whole, dot, fraction, exponent) =>
      && exponent == NoExponent && All(Digit, whole) && All(Digit, fraction)
      && whole != "" && (whole[0] == '0' ==> whole == "0")
      && (dot <==> fraction != "") && (dot ==> fraction[|fraction| - 1] != '0')
  }

  /** A fraction whose last base-100 digit is not zero ends, once trimmed, in a nonzero figure. */
  lemma ExpandEnd(z: string, d: seq<int>)
    requires Digits(d, 100) && d != [] && d[|d| - 1] != 0
    ensures var t := Trim(z + Expand(d)); t != "" && t[|t| - 1] != '0'
  {
    ExpandSplit(d, |d| - 1);
    var last := d[|d| - 1..];
    assert last[1..] == [] && PairText(last[0]) + "" == PairText(last[0]);
    Assoc(z, Expand(d[..|d| - 1]), PairText(last[0]));
    TrimPair(z + Expand(d[..|d| - 1]), last[0]);
  }

  lemma TrimPair(s: string, n: int)
    requires 0 < n < 100
    ensures var t := Trim(s + PairText(n)); t != "" && t[|t| - 1] != '0'
  {
    assert (s + PairText(n))[..|s| + 1] == s + [Figure(Quotient(n))];
  }

  lemma TrimDigits(s: string)
    requires All(Digit, s)
    ensures All(Digit, Trim(s)) && |Trim(s)| <= |s|
  {}

  lemma PlainFraction(d: seq<int>, exp: int)
    requires Trimmed(d) && d != []
    ensures Plain(Numeral("0", true, Trim(Noughts(2 * (-1 - exp)) + Expand(d)), NoExponent))
  {
    ExpandLength(d);
    ExpandEnd(Noughts(2 * (-1 - exp)), d);
    TrimDigits(Noughts(2 * (-1 - exp)) + Expand(d));
  }

  lemma PlainWhole(n: int, s: string, z: int)
    requires 0 < n < 100 && All(Digit, s)
    ensures var w := FirstText(n) + s + Noughts(z); All(Digit, w) && w != "" && w[0] != '0'
  {}

  lemma PlainTail(d: seq<int>)
    requires Trimmed(d) && d != []
    ensures var t := Trim(Expand(d)); All(Digit, t) && t != "" && t[|t| - 1] != '0'
  {
    var e := Expand(d);
    assert All(Digit, Trim(e)) by {
      ExpandLength(d);
      TrimDigits(e);
    }
    assert "" + e == e;
    ExpandEnd("", d);
  }

  lemma PlainBodyForm(d: seq<int>, exp: nat)
    requires Trimmed(d) && d != [] && d[0] != 0
    ensures Plain(PlainBody(d, exp)) && WellFormed(Literal(0, Unsigned, PlainBody(d, exp), 0))
  {
    var k := if exp + 1 < |d| then exp + 1 else |d|;
    ExpandLength(d[1..k]);
    PlainWhole(d[0], Expand(d[1..k]), 2 * (exp + 1 - |d|));
    if k < |d| {
      PlainTail(d[k..]);
    }
  }

  /** Every canonical number prints in plain form. */
  lemma PrintedForm(n: Number)
    requires Canonical(n)
    ensures Plain(PlainLiteral(n).body) && WellFormed(PlainLiteral(n))
  {
    if n.Finite? {
      FiniteForm(n.digits, n.exp);
    }
  }

  lemma FiniteForm(d: seq<int>, exp: int)
    requires Trimmed(d) && d != [] && d[0] != 0
    ensures Plain(PlainBody(d, exp)) && WellFormed(Literal(0, Unsigned, PlainBody(d, exp), 0))
  {
    if exp < 0 {
      PlainFraction(d, exp);
    } else {
      PlainBodyForm(d, exp);
    }
  }

  lemma TrimShortens(s: string)
    ensures |Trim(s)| <= |s|
  {}

  lemma BodyLength(d: seq<int>, exp: int)
    requires Digits(d, 100) && 1 <= |d| <= 20 && -65 <= exp <= 62
    ensures |BodyText(PlainBody(d, exp))| <= 170
  {
    if exp < 0 {
      ExpandLength(d);
      TrimShortens(Noughts(2 * (-1 - exp)) + Expand(d));
    } else {
      var k := if exp + 1 < |d| then exp + 1 else |d|;
      ExpandLength(d[1..k]);
      ExpandLength(d[k..]);
      TrimShortens(Expand(d[k..]));
      assert |FirstText(d[0]) + Expand(d[1..k]) + Noughts(2 * (exp + 1 - |d|))| <= 126;
    }
  }

  /** No canonical number needs more than 171 characters. */
  lemma PrintedLength(n: Number)
    requires Canonical(n)
    ensures |Render(PlainLiteral(n))| <= 171
  {
    if n.Finite? {
      BodyLength(n.digits, n.exp);
    }
  }

  // ---- the round trip ----

  lemma ExactRounding(d: seq<int>, exp: int)
    requires Trimmed(d) && 1 <= |d| <= 20 && d[0] != 0
    ensures IsRounded(Mantissa(d, exp), Mantissa(d, exp))
  {
    var v := Mantissa(d, exp);
    FiguresNat(d);
    RoundExact(Figures(d), exp);
    MantissaBounds(d, exp);
    var e := if v < Scale(1.0, 2 * exp + 1) then 2 * exp else 2 * exp + 1;
    assert Leads(v, e) && e / 2 == exp;
  }

  lemma PrintedStores(n: Number)
    requires Canonical(n) && n.Finite?
    ensures Stores(n.negative, Mantissa(n.digits, n.exp), Ok(Part(n)))
  {
    MantissaBounds(n.digits, n.exp);
    RoundedRange(Mantissa(n.digits, n.exp), n.exp);
  }

  lemma ZeroStores(n: Number)
    requires n.Zero?
    ensures IsRounded(Magnitude(PlainLiteral(n).body), 0.0) && Stores(false, 0.0, Ok(Part(n)))
  {
    assert Values("0" + "") == [0] && Nat([0], 10) == 0 by { assert [0][..0] == []; }
    ScaleZero(0);
    ScalePositive(1.0, -130);
  }

  /** Reading the plain notation of a canonical number gives its bytes back. */
  lemma ReadPlain(n: Number)
    requires Canonical(n)
    ensures Conforms(Render(PlainLiteral(n)), Ok(Part(n)))
  {
    var l := PlainLiteral(n);
    PrintedForm(n);
    ParseRender(l);
    if n.Finite? {
      PlainDenotes(n.digits, n.exp);
      ExactRounding(n.digits, n.exp);
      PrintedStores(n);
    } else if n.Zero? {
      ZeroStores(n);
    }
  }

  /** The round trip: what the printer writes for a canonical number, the reader turns back into the same bytes. */
  lemma RoundTrip(part: seq<int>, n: Number, r: Outcome)
    requires Canonical(n) && Stored(part, n)
    requires Text(part).Some? && Conforms(Text(part).value, r)
    ensures r == Ok(part[..1 + part[0]])
  {
    TextIsPlain(part, n);
    ReadPlain(n);
    OutcomeUnique(Text(part).value, r, Ok(Part(n)));
    assert part[0] == part[..|Part(n)|][0];
  }

  /** Printing into 172 characters never fails, and reading the text restores the bytes. */
  method PrintAndRead(part: seq<int>, ghost n: Number) returns (r: Outcome)
    requires Canonical(n) && Stored(part, n)
    ensures r == Ok(part[..1 + part[0]])
  {
    var buf := new char[172];
    var len := ToStr(part, buf, 172);
    TextIsPlain(part, n);
    PrintedLength(n);
    r := FromStr(buf[..len]);
    RoundTrip(part, n, r);
  }
}
