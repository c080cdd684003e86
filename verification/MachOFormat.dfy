/**
 * What the bind opcodes mean in the Mach-O format, as against what the interpreter makes of them: which binds get into
 * the table, and when the table is the right one.
 */
module MachOFormat {
  import opened Basics
  import opened MachOBind

  // The format

  /**
   * An instruction of the format. A special ordinal has no operand there, and the opcodes from 0xd on, which the
   * interpreter skips, do not occur.
   */
  datatype Meant = One(i: Instr) | Special(imm: Nibble)

  predicate Meaningful(x: Meant, segments: nat) {
    x.One? ==> WellFormed(x.i, segments) && !x.i.DylibSpecial? && !x.i.Unknown?
  }

  predicate AllMeaningful(prog: seq<Meant>, segments: nat) {
    forall k :: 0 <= k < |prog| ==> Meaningful(prog[k], segments)
  }

  function Bytes(x: Meant): (b: seq<Byte>)
    ensures b != []
  {
    match x
    case One(i) => Encode(i)
    case Special(imm) => [0x30 + imm]
  }

  function BytesOf(prog: seq<Meant>): seq<Byte> {
    if prog == [] then [] else Bytes(prog[0]) + BytesOf(prog[1..])
  }

  function FormatBound(m: Image, f: Regs): Entry
    requires f.segment < |m.vmaddrs|
  {
    Entry(f.symbol, (m.vmaddrs[f.segment] + m.slide + f.offset) % TWO64)
  }

  function FormatRepeat(m: Image, f: Regs, n: nat, step: int): seq<Entry>
    requires f.segment < |m.vmaddrs|
  {
    if n == 0 then [] else FormatRepeat(m, f, n - 1, step) + [FormatBound(m, Stepped(f, n - 1, step))]
  }

  /** Every bind moves the offset past the pointer it bound, and skips are unsigned. */
  function FormatAfter(f: Regs, x: Meant): Regs {
    if x.Special? then f
    else
      match x.i
      case SetSymbol(_, name) => f.(symbol := Some(name))
      case SetSegment(imm, g) => f.(segment := imm, offset := Value(g) % TWO64)
      case AddAddr(_, g) => Advance(f, Value(g))
      case DoBind(_) => Advance(f, 8)
      case DoBindAddAddr(_, g) => Advance(f, Value(g) + 8)
      case DoBindScaled(imm) => Advance(f, 8 * imm + 8)
      case DoBindTimes(_, count, skip) => Stepped(f, Value(count), Value(skip) + 8)
      case _ => f
  }

  function FormatEntries(m: Image, f: Regs, x: Meant): seq<Entry>
    requires f.segment < |m.vmaddrs|
  {
    if x.Special? then []
    else
      match x.i
      case DoBind(_) => [FormatBound(m, f)]
      case DoBindAddAddr(_, _) => [FormatBound(m, f)]
      case DoBindScaled(_) => [FormatBound(m, f)]
      case DoBindTimes(_, count, skip) => FormatRepeat(m, f, Value(count), Value(skip) + 8)
      case _ => []
  }

  /** The table the format means. */
  function FormatEntriesOf(m: Image, f: Regs, prog: seq<Meant>): seq<Entry>
    requires f.segment < |m.vmaddrs| && AllMeaningful(prog, |m.vmaddrs|)
    decreases |prog|
  {
    if prog == [] then []
    else FormatEntries(m, f, prog[0]) + FormatEntriesOf(m, FormatAfter(f, prog[0]), prog[1..])
  }

  function FormatAfterAll(f: Regs, prog: seq<Meant>): Regs
    decreases |prog|
  {
    if prog == [] then f else FormatAfterAll(FormatAfter(f, prog[0]), prog[1..])
  }

  /** How many pointers the format binds. */
  function Binds(x: Meant): nat {
    if x.Special? then 0
    else
      match x.i
      case DoBind(_) => 1
      case DoBindAddAddr(_, _) => 1
      case DoBindScaled(_) => 1
      case DoBindTimes(_, count, _) => Value(count)
      case _ => 0
  }

  function BindsOf(prog: seq<Meant>): nat {
    if prog == [] then 0 else Binds(prog[0]) + BindsOf(prog[1..])
  }

  // How the interpreter divides it

  function Front(b: seq<Byte>): seq<Byte>
    requires b != []
  {
    b[..|b| - 1]
  }

  /** An instruction that ends in a zero byte. */
  predicate EndsInZero(x: Meant) {
    Bytes(x)[|Bytes(x)| - 1] == 0
  }

  /**
   * From the operand of a special ordinal on, the interpreter takes everything up to a zero byte for a symbol: here
   * that is a number of whole instructions, of which the last one ends in the first zero.
   */
  predicate Closed(prog: seq<Meant>) {
    prog != [] && 0 !in Front(Bytes(prog[0])) && (EndsInZero(prog[0]) || Closed(prog[1..]))
  }

  /** The instructions taken, the symbol they become, and the instructions behind them. */
  function Run(prog: seq<Meant>): (run: seq<Meant>)
    requires Closed(prog)
    ensures run != []
  {
    if EndsInZero(prog[0]) then [prog[0]] else [prog[0]] + Run(prog[1..])
  }

  function Name(prog: seq<Meant>): seq<Byte>
    requires Closed(prog)
  {
    if EndsInZero(prog[0]) then Front(Bytes(prog[0])) else Bytes(prog[0]) + Name(prog[1..])
  }

  function Rest(prog: seq<Meant>): (rest: seq<Meant>)
    requires Closed(prog)
    ensures |rest| < |prog|
  {
    if EndsInZero(prog[0]) then prog[1..] else Rest(prog[1..])
  }

  lemma {:induction false} RunAndRest(prog: seq<Meant>)
    requires Closed(prog)
    ensures Run(prog) + Rest(prog) == prog
  {
    if !EndsInZero(prog[0]) {
      RunAndRest(prog[1..]);
      Assoc([prog[0]], Run(prog[1..]), Rest(prog[1..]));
    }
    assert [prog[0]] + prog[1..] == prog;
  }

  lemma MeaningfulParts(prog: seq<Meant>, segments: nat)
    requires Closed(prog) && AllMeaningful(prog, segments)
    ensures AllMeaningful(Run(prog), segments) && AllMeaningful(Rest(prog), segments)
  {
    RunAndRest(prog);
    var run, rest := Run(prog), Rest(prog);
    forall k | 0 <= k < |run| ensures Meaningful(run[k], segments) {
      assert run[k] == prog[k];
    }
    forall k | 0 <= k < |rest| ensures Meaningful(rest[k], segments) {
      assert rest[k] == prog[|run| + k];
    }
  }

  predicate Readable(prog: seq<Meant>)
    decreases |prog|
  {
    prog == []
    || if prog[0].One? then Readable(prog[1..]) else Closed(prog[1..]) && Readable(Rest(prog[1..]))
  }

  /** The instructions that the interpreter runs. */
  function Read(prog: seq<Meant>): seq<Instr>
    requires Readable(prog)
    decreases |prog|
  {
    if prog == [] then []
    else if prog[0].One? then [prog[0].i] + Read(prog[1..])
    else [DylibSpecial(prog[0].imm, Name(prog[1..]))] + Read(Rest(prog[1..]))
  }

  lemma LastIsZero(b: seq<Byte>)
    requires b != [] && 0 !in Front(b)
    ensures if b[|b| - 1] == 0 then b == Front(b) + [0] else 0 !in b
  {
    assert b == Front(b) + [b[|b| - 1]];
  }

  /** The symbol is what the bytes begin with, up to the first zero. */
  lemma {:induction false} NameEnds(prog: seq<Meant>)
    requires Closed(prog)
    ensures BytesOf(prog) == Name(prog) + ([0] + BytesOf(Rest(prog))) && 0 !in Name(prog)
  {
    LastIsZero(Bytes(prog[0]));
    if EndsInZero(prog[0]) {
      Assoc(Front(Bytes(prog[0])), [0], BytesOf(prog[1..]));
    } else {
      NameEnds(prog[1..]);
      Assoc(Bytes(prog[0]), Name(prog[1..]), [0] + BytesOf(Rest(prog[1..])));
    }
  }

  lemma SpecialBytes(imm: Nibble, tail: seq<Meant>)
    requires Closed(tail)
    ensures Encode(DylibSpecial(imm, Name(tail))) + BytesOf(Rest(tail)) == Bytes(Special(imm)) + BytesOf(tail)
    ensures 0 !in Name(tail)
  {
    NameEnds(tail);
    Regroup(Bytes(Special(imm)), Name(tail), BytesOf(Rest(tail)));
  }

  lemma Regroup(a: seq<Byte>, name: seq<Byte>, rest: seq<Byte>)
    ensures (a + (name + [0])) + rest == a + (name + ([0] + rest))
  {
    Assoc(a, name + [0], rest);
    Assoc(name, [0], rest);
  }

  /** The bytes of a program are the code of the instructions that the interpreter runs. */
  lemma {:induction false} ReadBytes(prog: seq<Meant>, segments: nat)
    requires Readable(prog) && AllMeaningful(prog, segments)
    ensures EncodeAll(Read(prog)) == BytesOf(prog) && Program(Read(prog), segments)
    decreases |prog|
  {
    if prog != [] {
      var read := Read(prog);
      if prog[0].One? {
        ReadBytes(prog[1..], segments);
        assert Meaningful(prog[0], segments) && read[1..] == Read(prog[1..]);
      } else {
        MeaningfulParts(prog[1..], segments);
        ReadBytes(Rest(prog[1..]), segments);
        SpecialBytes(prog[0].imm, prog[1..]);
        assert read[1..] == Read(Rest(prog[1..]));
      }
    }
  }

  // Which binds get into the table

  /** The instructions whose binds all get into the table: a count has to fit a C int. */
  predicate Recorded(i: Instr) {
    !i.DoBindAddAddr? && (i.DoBindTimes? ==> Value(i.count) < 0x8000_0000)
  }

  /** Every bind is recorded, and none is taken for a part of a symbol. */
  predicate Kept(prog: seq<Meant>)
    requires Readable(prog)
    decreases |prog|
  {
    prog == []
    || if prog[0].One? then Recorded(prog[0].i) && Kept(prog[1..])
       else BindsOf(Run(prog[1..])) == 0 && Kept(Rest(prog[1..]))
  }

  lemma {:induction false} RepeatLength(m: Image, r: Regs, n: int, step: int)
    requires r.segment < |m.vmaddrs|
    ensures |Repeat(m, r, n, step)| == if n <= 0 then 0 else n
    decreases n
  {
    if n > 0 {
      RepeatLength(m, r, n - 1, step);
    }
  }

  lemma Int32Bounds(x: nat)
    ensures var n := if Int32(x) <= 0 then 0 else Int32(x); n <= x && (n == x <==> x < 0x8000_0000)
  {
  }

  lemma EntriesCount(m: Image, r: Regs, i: Instr)
    requires r.segment < |m.vmaddrs|
    ensures |Entries(m, r, i)| <= Binds(One(i))
    ensures |Entries(m, r, i)| == Binds(One(i)) <==> Recorded(i)
  {
    if i.DoBindTimes? {
      var n := Value(i.count);
      Int32Bounds(n);
      RepeatLength(m, r, Int32(n), Int32(Value(i.skip)));
    }
  }

  lemma {:induction false} BindsSplit(a: seq<Meant>, b: seq<Meant>)
    ensures BindsOf(a + b) == BindsOf(a) + BindsOf(b)
  {
    if a == [] {
      assert a + b == b;
    } else {
      assert (a + b)[1..] == a[1..] + b;
      BindsSplit(a[1..], b);
    }
  }

  /** The table has all binds that the format means if and only if each is kept. */
  lemma {:induction false} CompleteIffKept(m: Image, r: Regs, prog: seq<Meant>)
    requires r.segment < |m.vmaddrs| && Readable(prog) && AllMeaningful(prog, |m.vmaddrs|)
    ensures Program(Read(prog), |m.vmaddrs|) && |EntriesOf(m, r, Read(prog))| <= BindsOf(prog)
    ensures |EntriesOf(m, r, Read(prog))| == BindsOf(prog) <==> Kept(prog)
    decreases |prog|
  {
    ReadBytes(prog, |m.vmaddrs|);
    if prog != [] {
      var i, tail := Read(prog)[0], prog[1..];
      if prog[0].One? {
        EntriesCount(m, r, i);
        CompleteIffKept(m, After(r, i), tail);
        assert Read(prog)[1..] == Read(tail);
      } else {
        MeaningfulParts(tail, |m.vmaddrs|);
        CompleteIffKept(m, After(r, i), Rest(tail));
        assert Read(prog)[1..] == Read(Rest(tail));
        RunAndRest(tail);
        BindsSplit(Run(tail), Rest(tail));
      }
    }
  }

  // When the addresses are right

  /** The offset is one that survives being passed as a C int. */
  predicate Fits(offset: nat) {
    offset < 0x8000_0000 || TWO64 - 0x8000_0000 <= offset
  }

  /** The offset in force reaches the entry if and only if, as a signed word, it fits a C int. */
  lemma AddressIsExactIff(m: Image, r: Regs)
    requires r.segment < |m.vmaddrs| && r.offset < TWO64
    ensures Bound(m, r).address == (m.vmaddrs[r.segment] + m.slide + r.offset) % TWO64
        <==> Fits(r.offset)
  {
    var base := m.vmaddrs[r.segment] + m.slide;
    var d := r.offset - Int32(r.offset);
    assert d == 0 <==> r.offset < 0x8000_0000;
    assert d == TWO64 <==> TWO64 - 0x8000_0000 <= r.offset;
    assert 0 <= d <= TWO64;
    if 0 < d < TWO64 {
      DifferentWords(base + Int32(r.offset), d);
    }
  }

  lemma DifferentWords(x: int, d: int)
    requires 0 < d < TWO64
    ensures (x + d) % TWO64 != x % TWO64
  {
  }

  /** How the offsets differ once a bind was made: by a pointer, and by what a skip lost above its low 32 bits. */
  predicate Lags(x: nat, y: nat) {
    (y - x) % 0x1_0000_0000 == 8
  }

  lemma SameLow(d: int, k: int)
    ensures (d + k * TWO64) % 0x1_0000_0000 == d % 0x1_0000_0000
  {
  }

  /** Offsets keep their distance, modulo 32 bits, when both go on in 64 bits. */
  lemma Distance(x: int, y: int)
    ensures (y % TWO64 - x % TWO64) % 0x1_0000_0000 == (y - x) % 0x1_0000_0000
  {
    var p, q := x / TWO64, y / TWO64;
    assert y % TWO64 - x % TWO64 == (y - x) + (p - q) * TWO64;
    SameLow(y - x, p - q);
  }

  lemma LagBegins(o: nat, a: int, b: int)
    requires (a - b) % 0x1_0000_0000 == 8
    ensures Lags((o + b) % TWO64, (o + a) % TWO64)
  {
    Distance(o + b, o + a);
  }

  lemma LagStays(x: nat, y: nat, a: int)
    requires Lags(x, y)
    ensures Lags((x + a) % TWO64, (y + a) % TWO64)
  {
    Distance(x + a, y + a);
  }

  lemma LagShows(base: int, x: nat, y: nat)
    requires Lags(x, y)
    ensures (base + Int32(x)) % TWO64 != (base + y) % TWO64
  {
  }

  lemma LostAbove(x: nat)
    ensures (x + 8 - Int32(x)) % 0x1_0000_0000 == 8
  {
  }

  /** After a bind with a skip, of which a part was cut off, the offsets differ as well. */
  lemma CutLags(r: Regs, f: Regs, skip: nat, cut: int)
    requires r.offset == f.offset && (skip + 8 - cut) % 0x1_0000_0000 == 8
    ensures Lags(Stepped(r, 1, cut).offset, Stepped(f, 1, skip + 8).offset)
  {
    LagBegins(r.offset, skip + 8, cut);
    assert Stepped(r, 1, cut) == Advance(r, cut);
    assert Stepped(f, 1, skip + 8) == Advance(f, skip + 8);
  }

  lemma SkipLags(r: Regs, f: Regs, skip: nat)
    requires r.offset == f.offset
    ensures Lags(Stepped(r, 1, Int32(skip)).offset, Stepped(f, 1, skip + 8).offset)
  {
    LostAbove(skip);
    CutLags(r, f, skip, Int32(skip));
  }

  /** After any other bind they differ by the pointer. */
  lemma BindLags(r: Regs, f: Regs, step: int)
    requires r.offset == f.offset < TWO64
    ensures Lags(Advance(r, step).offset, Advance(f, step + 8).offset)
    ensures Lags(r.offset, Advance(f, 8).offset)
  {
    LagBegins(r.offset, step + 8, step);
    LagBegins(r.offset, 8, 0);
  }

  // When the whole table is right

  /**
   * What a reader of the program knows on the way: the offset since the segment was set, and whether a bind was made
   * since then; whether the interpreter has that segment and offset too; the symbol, and what the interpreter takes
   * for it.
   */
  datatype Known = Known(offset: nat, bound: bool, placed: bool, symbol: Option<seq<Byte>>, read: Option<seq<Byte>>)

  const KNOWN := Known(0, false, true, None, None)

  predicate BindsOne(i: Instr) {
    i.DoBind? || i.DoBindScaled? || (i.DoBindTimes? && Value(i.count) == 1)
  }

  /** A pointer bound here is right. */
  predicate Right(k: Known) {
    k.read == k.symbol && k.placed && !k.bound && Fits(k.offset)
  }

  predicate Agrees(i: Instr, k: Known) {
    !i.DoBindAddAddr? && (i.DoBindTimes? ==> Value(i.count) <= 1) && (BindsOne(i) ==> Right(k))
  }

  /** Only SetSegment and AddAddr matter for an offset up to the first bind behind it. */
  function KnownAfter(i: Instr, k: Known): Known {
    match i
    case SetSymbol(_, name) => k.(symbol := Some(name), read := Some(name))
    case SetSegment(_, g) => k.(offset := Value(g) % TWO64, bound := false, placed := true)
    case AddAddr(_, g) => k.(offset := (k.offset + Value(g)) % TWO64)
    case _ => k.(bound := k.bound || BindsOne(i))
  }

  predicate Moves(x: Meant) {
    x.One? && (x.i.SetSegment? || x.i.AddAddr?)
  }

  predicate StandsStill(run: seq<Meant>) {
    run == [] || (!Moves(run[0]) && StandsStill(run[1..]))
  }

  function SymbolAfter(run: seq<Meant>, symbol: Option<seq<Byte>>): Option<seq<Byte>>
    decreases |run|
  {
    if run == [] then symbol
    else
      var x := run[0];
      SymbolAfter(run[1..], if x.One? && x.i.SetSymbol? then Some(x.i.name) else symbol)
  }

  /** After the instructions that are taken for a symbol. */
  function KnownBehind(tail: seq<Meant>, k: Known): Known
    requires Closed(tail)
  {
    k.(read := Some(Name(tail)), symbol := SymbolAfter(Run(tail), k.symbol),
       placed := k.placed && StandsStill(Run(tail)))
  }

  /**
   * Each bind is the first and only one since its segment was set, at an offset that fits a C int, and none adds an
   * address. No bind is taken for a part of a symbol; behind what is taken, no bind comes before the symbol is set,
   * unless it is what was taken, nor before the segment is, if it was moved there.
   */
  predicate Harmless(prog: seq<Meant>, k: Known)
    requires Readable(prog)
    decreases |prog|
  {
    prog == []
    || if prog[0].One? then Agrees(prog[0].i, k) && Harmless(prog[1..], KnownAfter(prog[0].i, k))
       else BindsOf(Run(prog[1..])) == 0 && Harmless(Rest(prog[1..]), KnownBehind(prog[1..], k))
  }

  /** Nothing that is taken for a symbol moves the segment or the offset: a symbol behind a special ordinal does not. */
  predicate Ordinary(prog: seq<Meant>)
    requires Readable(prog)
    decreases |prog|
  {
    prog == []
    || if prog[0].One? then Ordinary(prog[1..]) else StandsStill(Run(prog[1..])) && Ordinary(Rest(prog[1..]))
  }

  /** The interpreter's registers and the format's, as far as they are known. */
  ghost predicate Related(m: Image, r: Regs, f: Regs, k: Known) {
    && r.segment < |m.vmaddrs| && f.segment < |m.vmaddrs| && r.offset < TWO64 && f.offset < TWO64
    && r.symbol == k.read && f.symbol == k.symbol
    && (k.placed ==> r.segment == f.segment
                     && if k.bound then Lags(r.offset, f.offset) else r.offset == f.offset == k.offset)
  }

  lemma BoundAgrees(m: Image, r: Regs, f: Regs, k: Known)
    requires Related(m, r, f, k)
    ensures Right(k) ==> Bound(m, r) == FormatBound(m, f)
    ensures k.placed && Bound(m, r) == FormatBound(m, f) ==> Right(k)
  {
    if k.placed && k.bound {
      LagDiffers(m, r, f);
    } else if k.placed {
      AddressIsExactIff(m, r);
    }
  }

  lemma {:induction false} FormatRepeatAt(m: Image, f: Regs, n: nat, step: int, j: nat)
    requires f.segment < |m.vmaddrs|
    ensures |FormatRepeat(m, f, n, step)| == n
    ensures j < n ==> FormatRepeat(m, f, n, step)[j] == FormatBound(m, Stepped(f, j, step))
    decreases n
  {
    if n > 0 {
      FormatRepeatAt(m, f, n - 1, step, if j < n - 1 then j else 0);
    }
  }

  lemma {:induction false} RepeatAt(m: Image, r: Regs, n: nat, step: int, j: nat)
    requires r.segment < |m.vmaddrs|
    ensures |Repeat(m, r, n, step)| == n
    ensures j < n ==> Repeat(m, r, n, step)[j] == Bound(m, Stepped(r, j, step))
    decreases n
  {
    if n > 0 {
      RepeatAt(m, r, n - 1, step, if j < n - 1 then j else 0);
    }
  }

  lemma LagDiffers(m: Image, r: Regs, f: Regs)
    requires r.segment == f.segment < |m.vmaddrs| && Lags(r.offset, f.offset)
    ensures Bound(m, r) != FormatBound(m, f)
  {
    LagShows(m.vmaddrs[r.segment] + m.slide, r.offset, f.offset);
  }

  lemma SecondDiffers(m: Image, r: Regs, f: Regs, skip: nat)
    requires r.segment == f.segment < |m.vmaddrs| && r.offset == f.offset
    ensures Bound(m, Stepped(r, 1, Int32(skip))) != FormatBound(m, Stepped(f, 1, skip + 8))
  {
    SkipLags(r, f, skip);
    LagDiffers(m, Stepped(r, 1, Int32(skip)), Stepped(f, 1, skip + 8));
  }

  /** A repeated bind agrees only if it binds nothing, or one pointer that agrees. */
  lemma TimesAgrees(m: Image, r: Regs, f: Regs, k: Known, n: nat, skip: nat)
    requires Related(m, r, f, k)
    ensures n == 0 || (n == 1 && Right(k)) ==> Repeat(m, r, Int32(n), Int32(skip)) == FormatRepeat(m, f, n, skip + 8)
    ensures k.placed && Repeat(m, r, Int32(n), Int32(skip)) == FormatRepeat(m, f, n, skip + 8)
            ==> n == 0 || (n == 1 && Right(k))
  {
    var c, g := Repeat(m, r, Int32(n), Int32(skip)), FormatRepeat(m, f, n, skip + 8);
    Int32Bounds(n);
    RepeatLength(m, r, Int32(n), Int32(skip));
    FormatRepeatAt(m, f, n, skip + 8, 0);
    if 0 < n < 0x8000_0000 {
      RepeatAt(m, r, n, Int32(skip), 0);
      BoundAgrees(m, r, f, k);
      if n == 1 {
        assert c == g <==> c[0] == g[0];
      } else if Right(k) {
        RepeatAt(m, r, n, Int32(skip), 1);
        FormatRepeatAt(m, f, n, skip + 8, 1);
        SecondDiffers(m, r, f, skip);
        assert c[1] != g[1];
      } else if k.placed {
        assert c[0] != g[0];
      }
    }
  }

  lemma OneAgrees(m: Image, r: Regs, f: Regs, k: Known)
    requires Related(m, r, f, k)
    ensures Right(k) ==> [Bound(m, r)] == [FormatBound(m, f)]
    ensures k.placed && [Bound(m, r)] == [FormatBound(m, f)] ==> Right(k)
  {
    BoundAgrees(m, r, f, k);
    assert [Bound(m, r)][0] == Bound(m, r) && [FormatBound(m, f)][0] == FormatBound(m, f);
  }

  lemma OtherEntries(m: Image, r: Regs, f: Regs, i: Instr)
    requires r.segment < |m.vmaddrs| && f.segment < |m.vmaddrs| && !i.DoBindTimes? && !BindsOne(i)
    ensures Entries(m, r, i) == [] && (FormatEntries(m, f, One(i)) == [] <==> !i.DoBindAddAddr?)
  {
    assert i.DoBindAddAddr? <==> |FormatEntries(m, f, One(i))| == 1;
  }

  lemma EntriesAgree(m: Image, r: Regs, f: Regs, k: Known, i: Instr)
    requires Related(m, r, f, k) && !i.DylibSpecial?
    ensures Agrees(i, k) ==> Entries(m, r, i) == FormatEntries(m, f, One(i))
    ensures k.placed && Entries(m, r, i) == FormatEntries(m, f, One(i)) ==> Agrees(i, k)
  {
    if i.DoBindTimes? {
      TimesAgrees(m, r, f, k, Value(i.count), Value(i.skip));
    } else if BindsOne(i) {
      OneAgrees(m, r, f, k);
    } else {
      OtherEntries(m, r, f, i);
    }
  }

  lemma BindRelates(m: Image, r: Regs, f: Regs, k: Known, i: Instr)
    requires Related(m, r, f, k) && Right(k) && BindsOne(i)
    ensures Related(m, After(r, i), FormatAfter(f, One(i)), k.(bound := true))
  {
    match i
    case DoBind(_) => BindLags(r, f, 0);
    case DoBindScaled(imm) => BindLags(r, f, 8 * imm);
    case DoBindTimes(_, count, skip) => SkipLags(r, f, Value(skip));
  }

  lemma OtherRelates(m: Image, r: Regs, f: Regs, k: Known, i: Instr)
    requires Related(m, r, f, k) && Agrees(i, k) && !BindsOne(i) && Meaningful(One(i), |m.vmaddrs|)
    ensures Related(m, After(r, i), FormatAfter(f, One(i)), KnownAfter(i, k))
  {
    if i.AddAddr? && k.placed && k.bound {
      LagStays(r.offset, f.offset, Value(i.g));
    }
  }

  lemma StaysRelated(m: Image, r: Regs, f: Regs, k: Known, i: Instr)
    requires Related(m, r, f, k) && Agrees(i, k) && Meaningful(One(i), |m.vmaddrs|)
    ensures Related(m, After(r, i), FormatAfter(f, One(i)), KnownAfter(i, k))
  {
    if BindsOne(i) {
      BindRelates(m, r, f, k, i);
    } else {
      OtherRelates(m, r, f, k, i);
    }
  }

  lemma {:induction false} FormatCount(m: Image, f: Regs, prog: seq<Meant>)
    requires f.segment < |m.vmaddrs| && AllMeaningful(prog, |m.vmaddrs|)
    ensures |FormatEntriesOf(m, f, prog)| == BindsOf(prog)
    decreases |prog|
  {
    if prog != [] {
      if prog[0].One? && prog[0].i.DoBindTimes? {
        FormatRepeatAt(m, f, Value(prog[0].i.count), Value(prog[0].i.skip) + 8, 0);
      }
      assert Meaningful(prog[0], |m.vmaddrs|);
      FormatCount(m, FormatAfter(f, prog[0]), prog[1..]);
    }
  }

  /** What the format does with instructions that bind nothing: the symbol may change, and the rest only if moved. */
  lemma {:induction false} RunQuietly(m: Image, f: Regs, run: seq<Meant>, rest: seq<Meant>)
    requires f.segment < |m.vmaddrs| && f.offset < TWO64 && AllMeaningful(run + rest, |m.vmaddrs|)
    requires BindsOf(run) == 0
    ensures var g := FormatAfterAll(f, run);
            && g.segment < |m.vmaddrs| && g.offset < TWO64 && AllMeaningful(rest, |m.vmaddrs|)
            && g.symbol == SymbolAfter(run, f.symbol)
            && (StandsStill(run) ==> g.segment == f.segment && g.offset == f.offset)
            && FormatEntriesOf(m, f, run + rest) == FormatEntriesOf(m, g, rest)
    decreases |run|
  {
    if run == [] {
      assert run + rest == rest;
    } else {
      assert (run + rest)[1..] == run[1..] + rest && (run + rest)[0] == run[0];
      assert Meaningful(run[0], |m.vmaddrs|);
      RunQuietly(m, FormatAfter(f, run[0]), run[1..], rest);
      assert FormatEntries(m, f, run[0]) == [];
    }
  }

  /** A run that binds nothing makes no entries, on either side. */
  lemma RunStep(m: Image, r: Regs, f: Regs, k: Known, prog: seq<Meant>)
    requires Related(m, r, f, k) && Readable(prog) && AllMeaningful(prog, |m.vmaddrs|)
    requires prog != [] && prog[0].Special? && BindsOf(Run(prog[1..])) == 0 && Program(Read(prog), |m.vmaddrs|)
    ensures var rest := Rest(prog[1..]);
            var r', g := After(r, Read(prog)[0]), FormatAfterAll(f, Run(prog[1..]));
            && Related(m, r', g, KnownBehind(prog[1..], k)) && AllMeaningful(rest, |m.vmaddrs|)
            && Program(Read(rest), |m.vmaddrs|)
            && EntriesOf(m, r, Read(prog)) == EntriesOf(m, r', Read(rest))
            && FormatEntriesOf(m, f, prog) == FormatEntriesOf(m, g, rest)
  {
    var tail := prog[1..];
    RunAndRest(tail);
    assert Read(prog)[1..] == Read(Rest(tail));
    RunQuietly(m, f, Run(tail), Rest(tail));
    assert FormatEntriesOf(m, f, prog) == [] + FormatEntriesOf(m, f, tail);
  }

  lemma EqualParts(a: seq<Entry>, b: seq<Entry>, c: seq<Entry>, d: seq<Entry>)
    requires |a| <= |c| && |b| <= |d|
    ensures a + b == c + d <==> a == c && b == d
  {
    if a + b == c + d {
      assert |a| + |b| == |c| + |d|;
      assert a == (a + b)[..|a|] && c == (c + d)[..|c|] && b == (a + b)[|a|..] && d == (c + d)[|c|..];
    }
  }

  /** The tables are equal if the program is harmless, and only if it is ordinary. */
  ghost predicate Judged(m: Image, r: Regs, f: Regs, k: Known, prog: seq<Meant>)
    requires Related(m, r, f, k) && Readable(prog) && AllMeaningful(prog, |m.vmaddrs|)
    requires Program(Read(prog), |m.vmaddrs|)
  {
    && (Harmless(prog, k) ==> EntriesOf(m, r, Read(prog)) == FormatEntriesOf(m, f, prog))
    && (Ordinary(prog) && k.placed && EntriesOf(m, r, Read(prog)) == FormatEntriesOf(m, f, prog)
        ==> Harmless(prog, k))
  }

  lemma {:induction false} TablesAgree(m: Image, r: Regs, f: Regs, k: Known, prog: seq<Meant>)
    requires Related(m, r, f, k) && Readable(prog) && AllMeaningful(prog, |m.vmaddrs|)
    ensures Program(Read(prog), |m.vmaddrs|) && Judged(m, r, f, k, prog)
    decreases |prog|
  {
    ReadBytes(prog, |m.vmaddrs|);
    if prog != [] {
      var i, tail := Read(prog)[0], prog[1..];
      if prog[0].One? {
        assert Meaningful(prog[0], |m.vmaddrs|) && Read(prog)[1..] == Read(tail);
        if Agrees(i, k) {
          StaysRelated(m, r, f, k, i);
          TablesAgree(m, After(r, i), FormatAfter(f, prog[0]), KnownAfter(i, k), tail);
        }
        FirstStep(m, r, f, k, prog);
      } else if BindsOf(Run(tail)) == 0 {
        RunStep(m, r, f, k, prog);
        TablesAgree(m, After(r, i), FormatAfterAll(f, Run(tail)), KnownBehind(tail, k), Rest(tail));
      } else {
        CompleteIffKept(m, r, prog);
        FormatCount(m, f, prog);
        assert !Kept(prog);
      }
    }
  }

  /** The first instruction decides on the first entries. */
  lemma FirstStep(m: Image, r: Regs, f: Regs, k: Known, prog: seq<Meant>)
    requires Related(m, r, f, k) && Readable(prog) && AllMeaningful(prog, |m.vmaddrs|) && prog != [] && prog[0].One?
    requires Program(Read(prog), |m.vmaddrs|) && Meaningful(prog[0], |m.vmaddrs|)
    ensures var i, tail := prog[0].i, prog[1..];
            var same := EntriesOf(m, After(r, i), Read(tail)) == FormatEntriesOf(m, FormatAfter(f, prog[0]), tail);
            var all := EntriesOf(m, r, Read(prog)) == FormatEntriesOf(m, f, prog);
            && Program(Read(tail), |m.vmaddrs|)
            && (Agrees(i, k) && same ==> all) && (k.placed && all ==> Agrees(i, k) && same)
  {
    var i, tail := prog[0].i, prog[1..];
    assert Read(prog)[1..] == Read(tail);
    EntriesAgree(m, r, f, k, i);
    EntriesCount(m, r, i);
    CompleteIffKept(m, After(r, i), tail);
    FormatCount(m, FormatAfter(f, prog[0]), tail);
    FormatCount(m, f, prog);
    EqualParts(Entries(m, r, i), EntriesOf(m, After(r, i), Read(tail)),
               FormatEntries(m, f, prog[0]), FormatEntriesOf(m, FormatAfter(f, prog[0]), tail));
  }

  /**
   * For whole programs, special ordinals included: if the program is harmless the table is the one the format means,
   * and unless the segment is moved in what is taken for a symbol, only if.
   */
  lemma TableIsRightIff(m: Image, prog: seq<Meant>)
    requires m.vmaddrs != [] && Readable(prog) && AllMeaningful(prog, |m.vmaddrs|)
    ensures Program(Read(prog), |m.vmaddrs|)
    ensures Harmless(prog, KNOWN) ==> EntriesOf(m, START, Read(prog)) == FormatEntriesOf(m, START, prog)
    ensures Ordinary(prog) ==>
              (EntriesOf(m, START, Read(prog)) == FormatEntriesOf(m, START, prog) <==> Harmless(prog, KNOWN))
  {
    TablesAgree(m, START, START, KNOWN, prog);
  }

  /** What the two passes over the bytes of a program make of it. */
  method OpenProgram(code: seq<Byte>, m: Image, ghost prog: seq<Meant>) returns (entries: array<Entry>)
    requires m.vmaddrs != [] && Readable(prog) && AllMeaningful(prog, |m.vmaddrs|) && code == BytesOf(prog)
    ensures fresh(entries) && entries.Length <= BindsOf(prog)
    ensures entries.Length == BindsOf(prog) <==> Kept(prog)
    ensures Harmless(prog, KNOWN) ==> entries[..] == FormatEntriesOf(m, START, prog)
    ensures Ordinary(prog) ==> (entries[..] == FormatEntriesOf(m, START, prog) <==> Harmless(prog, KNOWN))
  {
    ReadBytes(prog, |m.vmaddrs|);
    CompleteIffKept(m, START, prog);
    TableIsRightIff(m, prog);
    entries := OpenReal(code, m, Read(prog));
  }

  /** Without special ordinals the interpreter divides a program as the format does. */
  lemma {:induction false} ReadsAsMeant(prog: seq<Meant>)
    requires forall k :: 0 <= k < |prog| ==> prog[k].One?
    ensures Readable(prog) && Ordinary(prog) && Read(prog) == seq(|prog|, k requires 0 <= k < |prog| => prog[k].i)
  {
    if prog != [] {
      ReadsAsMeant(prog[1..]);
    }
  }

  // Inputs on which it is not right

  /** A symbol directly behind a special ordinal is always spoiled: no bind is right before the next symbol. */
  lemma SpecialSpoilsSymbol(imm: Nibble, symbol: Instr, rest: seq<Meant>, k: Known)
    requires symbol.SetSymbol? && 0 !in symbol.name
    ensures var tail := [One(symbol)] + rest;
            && Closed(tail) && Rest(tail) == rest && Name(tail) == [0x40 + symbol.imm] + symbol.name
            && !Right(KnownBehind(tail, k)) && (KnownBehind(tail, k).placed <==> k.placed)
  {
    var tail := [One(symbol)] + rest;
    assert tail[1..] == rest && Run(tail) == [One(symbol)];
    assert Encode(symbol) == [0x40 + symbol.imm] + symbol.name + [0];
    assert Front(Bytes(One(symbol))) == [0x40 + symbol.imm] + symbol.name;
    assert StandsStill([One(symbol)][1..]) && SymbolAfter([One(symbol)][1..], Some(symbol.name)) == Some(symbol.name);
  }

  /** Such a program: the bytes are those of another one, and the entry has the opcode in its name. */
  lemma SpoiledSymbol(m: Image)
    requires m.vmaddrs != []
    ensures var prog := [Special(14), One(SetSymbol(0, [97])), One(DoBind(0))];
            && Readable(prog) && AllMeaningful(prog, |m.vmaddrs|) && Ordinary(prog) && !Harmless(prog, KNOWN)
            && Read(prog) == [DylibSpecial(14, [0x40, 97]), DoBind(0)]
  {
    var tail := [One(SetSymbol(0, [97])), One(DoBind(0))];
    assert tail == [One(SetSymbol(0, [97]))] + [One(DoBind(0))];
    SpecialSpoilsSymbol(14, SetSymbol(0, [97]), [One(DoBind(0))], KNOWN);
    var prog := [Special(14), One(SetSymbol(0, [97])), One(DoBind(0))];
    assert prog[1..] == tail && [One(DoBind(0))][1..] == [];
    assert Read([One(DoBind(0))]) == [DoBind(0)];
    assert Name(tail) == [0x40, 97] && Rest(tail) == [One(DoBind(0))];
  }

  const TWO_BINDS := [SetSymbol(0, [97]), DoBind(0), SetSymbol(0, [98]), DoBind(0)]
  const TWO_MEANT := [One(SetSymbol(0, [97])), One(DoBind(0)), One(SetSymbol(0, [98])), One(DoBind(0))]

  /** Two binds after one another: the entries share an address that belongs to the first of them only. */
  lemma TwoBindsShareAddress(m: Image)
    requires m.vmaddrs != []
    ensures var base := m.vmaddrs[0] + m.slide;
            && AllMeaningful(TWO_MEANT, |m.vmaddrs|) && Readable(TWO_MEANT) && Read(TWO_MEANT) == TWO_BINDS
            && Program(TWO_BINDS, |m.vmaddrs|)
            && EntriesOf(m, START, TWO_BINDS) == [Entry(Some([97]), base % TWO64), Entry(Some([98]), base % TWO64)]
            && FormatEntriesOf(m, START, TWO_MEANT)
               == [Entry(Some([97]), base % TWO64), Entry(Some([98]), (base + 8) % TWO64)]
  {
    ReadsAsMeant(TWO_MEANT);
    assert Read(TWO_MEANT) == TWO_BINDS;
    ReadBytes(TWO_MEANT, |m.vmaddrs|);
    TwoEntries(m);
    TwoMeantEntries(m);
  }

  lemma TwoEntries(m: Image)
    requires m.vmaddrs != [] && Program(TWO_BINDS, |m.vmaddrs|)
    ensures var base := m.vmaddrs[0] + m.slide;
            EntriesOf(m, START, TWO_BINDS) == [Entry(Some([97]), base % TWO64), Entry(Some([98]), base % TWO64)]
  {
    var prog := TWO_BINDS;
    assert prog[1..] == [DoBind(0), SetSymbol(0, [98]), DoBind(0)];
    assert prog[1..][1..] == [SetSymbol(0, [98]), DoBind(0)] && prog[1..][1..][1..] == [DoBind(0)];
    assert [DoBind(0)][1..] == [];
  }

  lemma TwoMeantEntries(m: Image)
    requires m.vmaddrs != [] && AllMeaningful(TWO_MEANT, |m.vmaddrs|)
    ensures var base := m.vmaddrs[0] + m.slide;
            FormatEntriesOf(m, START, TWO_MEANT)
            == [Entry(Some([97]), base % TWO64), Entry(Some([98]), (base + 8) % TWO64)]
  {
    var meant, f := TWO_MEANT, Regs(Some([97]), 0, 8);
    assert meant[1..] == [One(DoBind(0)), One(SetSymbol(0, [98])), One(DoBind(0))];
    assert meant[1..][1..] == [One(SetSymbol(0, [98])), One(DoBind(0))] && meant[1..][1..][1..] == [One(DoBind(0))];
    assert [One(DoBind(0))][1..] == [];
    assert FormatEntriesOf(m, f, meant[1..][1..]) == [] + ([FormatBound(m, f.(symbol := Some([98])))] + []);
  }

  const SKIP_MEANT := [Special(14), One(DoBindTimes(0, [0], [0x90, 1]))]
  const SKIP_READ := [DylibSpecial(14, [0xc0]), DoBind(0), Done(1)]

  /**
   * If the zero lies within an instruction, the interpreter goes on in the middle of it: here it runs the number of
   * bytes to skip as a bind, where the format binds nothing.
   */
  lemma SkipIsRun(m: Image)
    requires m.vmaddrs != []
    ensures AllMeaningful(SKIP_MEANT, |m.vmaddrs|) && !Readable(SKIP_MEANT) && BindsOf(SKIP_MEANT) == 0
    ensures BytesOf(SKIP_MEANT) == EncodeAll(SKIP_READ) && Program(SKIP_READ, |m.vmaddrs|)
    ensures |EntriesOf(m, START, SKIP_READ)| == 1
  {
    var prog, read := SKIP_MEANT, SKIP_READ;
    assert prog[1..] == [prog[1]] && Front(Bytes(prog[1]))[1] == 0;
    SkipBytes();
    assert read[1..] == [DoBind(0), Done(1)] && read[1..][1..] == [Done(1)];
    assert [Done(1)][1..] == [] && Program([Done(1)], |m.vmaddrs|) && Program(read[1..], |m.vmaddrs|);
  }

  lemma SkipBytes()
    ensures BytesOf(SKIP_MEANT) == EncodeAll(SKIP_READ)
  {
    var prog, read := SKIP_MEANT, SKIP_READ;
    assert prog[1..] == [prog[1]] && Bytes(prog[1]) == [0xc0, 0, 0x90, 1];
    assert BytesOf(prog) == [0x3e, 0xc0, 0, 0x90, 1];
    assert read[1..] == [DoBind(0), Done(1)] && read[1..][1..] == [Done(1)];
    assert EncodeAll(read) == [0x3e, 0xc0, 0, 0x90, 1];
  }
}
