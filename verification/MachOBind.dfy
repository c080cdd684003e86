/**
 * The lazy-bind opcodes of a Mach-O file, run twice: once to count the entries of the table, and once to fill it.
 * Numbers in them are in LEB128, section 7.6 of the DWARF 5 standard.
 */
module MachOBind {
  import opened Basics

  const TWO64 := 0x1_0000_0000_0000_0000

  /** The bytes s are in the code at p. */
  predicate At(code: seq<Byte>, p: int, s: seq<Byte>) {
    0 <= p && p + |s| <= |code| && code[p..p + |s|] == s
  }

  lemma AtParts(code: seq<Byte>, p: int, a: seq<Byte>, b: seq<Byte>)
    requires At(code, p, a + b)
    ensures At(code, p, a) && At(code, p + |a|, b)
  {
    assert a == (a + b)[..|a|] && b == (a + b)[|a|..];
  }

  // LEB128

  /** One number: all bytes but the last have the top bit set. */
  predicate Group(g: seq<Byte>) {
    g != [] && g[|g| - 1] < 0x80 && forall i :: 0 <= i < |g| - 1 ==> g[i] >= 0x80
  }

  function Value(g: seq<Byte>): nat {
    if g == [] then 0 else g[0] % 0x80 + 0x80 * Value(g[1..])
  }

  function EncodeUleb(n: nat): (g: seq<Byte>)
    ensures Group(g)
  {
    if n < 0x80 then [n] else [0x80 + n % 0x80] + EncodeUleb(n / 0x80)
  }

  /** Writing a number and reading it gives the number. */
  lemma {:induction false} UlebRoundTrip(n: nat)
    ensures Value(EncodeUleb(n)) == n
  {
    if n >= 0x80 {
      UlebRoundTrip(n / 0x80);
      assert EncodeUleb(n)[1..] == EncodeUleb(n / 0x80);
    }
  }

  function Shift(x: nat, k: nat): nat
    decreases k
  {
    if k == 0 then x else Shift(0x80 * x, k - 1)
  }

  lemma {:induction false} ValueAppend(g: seq<Byte>, b: Byte)
    ensures Value(g + [b]) == Value(g) + Shift(b % 0x80, |g|)
  {
    if g == [] {
      assert Value([b]) == b % 0x80 + 0x80 * Value([]);
    } else {
      assert (g + [b])[1..] == g[1..] + [b];
      ValueAppend(g[1..], b);
      ShiftMore(b % 0x80, |g| - 1);
    }
  }

  lemma {:induction false} ShiftMore(x: nat, k: nat)
    ensures Shift(x, k + 1) == 0x80 * Shift(x, k)
    decreases k
  {
    if k > 0 {
      ShiftMore(0x80 * x, k - 1);
    }
  }

  lemma AddInWord(a: nat, b: nat)
    ensures (a % TWO64 + b) % TWO64 == (a + b) % TWO64
  {
  }

  /** uleb128; the bits of r lie below those that are or-ed in, so that or is plus. */
  method Uleb128(code: seq<Byte>, start: nat, ghost g: seq<Byte>) returns (r: nat, p: nat)
    requires At(code, start, g) && Group(g) && |g| <= 10
    ensures r == Value(g) % TWO64 && p == start + |g|
  {
    r, p := 0, start;
    var s, b := 0, 0x80;
    while b >= 0x80
      invariant start <= p <= start + |g| && s == p - start
      invariant b >= 0x80 <==> s < |g|
      invariant r == Value(g[..s]) % TWO64
      decreases |g| - s
    {
      b := code[p];
      assert b == code[start..start + |g|][s] == g[s] && g[..s + 1] == g[..s] + [b];
      ValueAppend(g[..s], b);
      AddInWord(Value(g[..s]), Shift(b % 0x80, s));
      r := (r + Shift(b % 0x80, s)) % TWO64;
      p, s := p + 1, s + 1;
    }
    assert g[..s] == g;
  }

  /** sleb128, whose value the interpreter does not use */
  method Sleb128(code: seq<Byte>, start: nat, ghost g: seq<Byte>) returns (p: nat)
    requires At(code, start, g) && Group(g)
    ensures p == start + |g|
  {
    p := start;
    var b := 0x80;
    while b >= 0x80
      invariant start <= p <= start + |g|
      invariant b >= 0x80 <==> p < start + |g|
      decreases start + |g| - p
    {
      b := code[p];
      assert b == code[start..start + |g|][p - start] == g[p - start];
      p := p + 1;
    }
  }

  /** strlen */
  method Length(code: seq<Byte>, start: nat, ghost name: seq<Byte>) returns (n: nat)
    requires At(code, start, name + [0]) && forall i :: 0 <= i < |name| ==> name[i] != 0
    ensures n == |name|
  {
    n := 0;
    while code[start + n] != 0
      invariant 0 <= n <= |name|
      invariant code[start + n] == code[start..start + |name| + 1][n] == (name + [0])[n]
      decreases |name| - n
    {
      n := n + 1;
      assert n <= |name|;
    }
  }

  // The opcodes

  type Nibble = n: int | 0 <= n < 16

  datatype Instr =
    | Done(imm: Nibble)
    | OrdinalImm(imm: Nibble)
    | OrdinalUleb(imm: Nibble, g: seq<Byte>)
    | DylibSpecial(imm: Nibble, name: seq<Byte>)   // falls through and takes a name too
    | SetSymbol(imm: Nibble, name: seq<Byte>)
    | SetType(imm: Nibble)
    | SetAddend(imm: Nibble, g: seq<Byte>)
    | SetSegment(imm: Nibble, g: seq<Byte>)
    | AddAddr(imm: Nibble, g: seq<Byte>)
    | DoBind(imm: Nibble)
    | DoBindAddAddr(imm: Nibble, g: seq<Byte>)
    | DoBindScaled(imm: Nibble)
    | DoBindTimes(imm: Nibble, count: seq<Byte>, skip: seq<Byte>)
    | Unknown(op: Nibble, imm: Nibble)

  function Opcode(i: Instr): Nibble {
    match i
    case Done(_) => 0x0
    case OrdinalImm(_) => 0x1
    case OrdinalUleb(_, _) => 0x2
    case DylibSpecial(_, _) => 0x3
    case SetSymbol(_, _) => 0x4
    case SetType(_) => 0x5
    case SetAddend(_, _) => 0x6
    case SetSegment(_, _) => 0x7
    case AddAddr(_, _) => 0x8
    case DoBind(_) => 0x9
    case DoBindAddAddr(_, _) => 0xa
    case DoBindScaled(_) => 0xb
    case DoBindTimes(_, _, _) => 0xc
    case Unknown(op, _) => op
  }

  function Operand(i: Instr): seq<Byte> {
    match i
    case OrdinalUleb(_, g) => g
    case DylibSpecial(_, name) => name + [0]
    case SetSymbol(_, name) => name + [0]
    case SetAddend(_, g) => g
    case SetSegment(_, g) => g
    case AddAddr(_, g) => g
    case DoBindAddAddr(_, g) => g
    case DoBindTimes(_, count, skip) => count + skip
    case _ => []
  }

  function Encode(i: Instr): seq<Byte> {
    [16 * Opcode(i) + i.imm] + Operand(i)
  }

  function EncodeAll(prog: seq<Instr>): seq<Byte> {
    if prog == [] then [] else Encode(prog[0]) + EncodeAll(prog[1..])
  }

  predicate Number(g: seq<Byte>) {
    Group(g) && |g| <= 10
  }

  predicate WellFormed(i: Instr, segments: nat) {
    match i
    case OrdinalUleb(_, g) => Number(g)
    case DylibSpecial(_, name) => 0 !in name
    case SetSymbol(_, name) => 0 !in name
    case SetAddend(_, g) => Group(g)
    case SetSegment(imm, g) => Number(g) && imm < segments
    case AddAddr(_, g) => Number(g)
    case DoBindAddAddr(_, g) => Number(g)
    case DoBindTimes(_, count, skip) => Number(count) && Number(skip)
    case Unknown(op, _) => op > 0xc
    case _ => true
  }

  // What they mean

  /** The symbol and the address in force. */
  datatype Regs = Regs(symbol: Option<seq<Byte>>, segment: nat, offset: nat)

  datatype Entry = Entry(symbol: Option<seq<Byte>>, address: nat)

  /** A C int made from an unsigned number. */
  function Int32(x: int): int {
    var r := x % 0x1_0000_0000;
    if r < 0x8000_0000 then r else r - 0x1_0000_0000
  }

  /** Where the segments of the image are loaded. */
  datatype Image = Image(vmaddrs: seq<nat>, slide: int)

  function Bound(m: Image, r: Regs): Entry
    requires r.segment < |m.vmaddrs|
  {
    Entry(r.symbol, (m.vmaddrs[r.segment] + m.slide + Int32(r.offset)) % TWO64)
  }

  function Advance(r: Regs, step: int): Regs {
    r.(offset := (r.offset + step) % TWO64)
  }

  /** n entries, a step apart. */
  function Repeat(m: Image, r: Regs, n: int, step: int): seq<Entry>
    requires r.segment < |m.vmaddrs|
    decreases n
  {
    if n <= 0 then [] else Repeat(m, r, n - 1, step) + [Bound(m, Stepped(r, n - 1, step))]
  }

  function Stepped(r: Regs, n: int, step: int): (s: Regs)
    ensures s.segment == r.segment && s.symbol == r.symbol
    decreases n
  {
    if n <= 0 then r else Advance(Stepped(r, n - 1, step), step)
  }

  function After(r: Regs, i: Instr): Regs {
    match i
    case DylibSpecial(_, name) => r.(symbol := Some(name))
    case SetSymbol(_, name) => r.(symbol := Some(name))
    case SetSegment(imm, g) => r.(segment := imm, offset := Value(g) % TWO64)
    case AddAddr(_, g) => Advance(r, Value(g))
    case DoBindAddAddr(_, g) => Advance(r, Value(g))
    case DoBindScaled(imm) => Advance(r, 8 * imm)
    case DoBindTimes(_, count, skip) => Stepped(r, Int32(Value(count)), Int32(Value(skip)))
    case _ => r
  }

  function Entries(m: Image, r: Regs, i: Instr): seq<Entry>
    requires r.segment < |m.vmaddrs|
  {
    match i
    case DoBind(_) => [Bound(m, r)]
    case DoBindScaled(_) => [Bound(m, r)]
    case DoBindTimes(_, count, skip) => Repeat(m, r, Int32(Value(count)), Int32(Value(skip)))
    case _ => []
  }

  predicate Program(prog: seq<Instr>, segments: nat) {
    prog == [] || (WellFormed(prog[0], segments) && Program(prog[1..], segments))
  }

  /** The entries of a whole program. */
  function EntriesOf(m: Image, r: Regs, prog: seq<Instr>): seq<Entry>
    requires r.segment < |m.vmaddrs| && Program(prog, |m.vmaddrs|)
    decreases |prog|
  {
    if prog == [] then []
    else
      Entries(m, r, prog[0]) + EntriesOf(m, After(r, prog[0]), prog[1..])
  }

  const START := Regs(None, 0, 0)

  // The interpreter

  /** The table, if there is one, starts with these entries. */
  ghost predicate Filled(entries: array?<Entry>, out: seq<Entry>)
    reads entries
  {
    entries != null ==> |out| <= entries.Length && entries[..|out|] == out
  }

  ghost predicate Room(entries: array?<Entry>, n: int) {
    entries != null ==> n <= entries.Length
  }

  /** set_bind_addr; without a table it only counts. */
  method SetBindAddr(entries: array?<Entry>, idx: nat, m: Image, r: Regs, ghost out: seq<Entry>) returns (next: nat)
    requires r.segment < |m.vmaddrs| && idx == |out| && Filled(entries, out) && Room(entries, idx + 1)
    modifies if entries == null then {} else {entries}
    ensures next == idx + 1 && Filled(entries, out + [Bound(m, r)])
  {
    if entries != null {
      entries[idx] := Bound(m, r);
    }
    next := idx + 1;
  }

  /** The loop of BIND_OPCODE_DO_BIND_ULEB_TIMES_SKIPPING_ULEB */
  method BindTimes(entries: array?<Entry>, idx0: nat, m: Image, r0: Regs, count: int, skip: int, ghost out: seq<Entry>)
    returns (idx: nat, r: Regs)
    requires r0.segment < |m.vmaddrs| && idx0 == |out| && Filled(entries, out)
    requires Room(entries, idx0 + |Repeat(m, r0, count, skip)|)
    modifies if entries == null then {} else {entries}
    ensures r == Stepped(r0, count, skip)
    ensures idx == idx0 + |Repeat(m, r0, count, skip)| && Filled(entries, out + Repeat(m, r0, count, skip))
  {
    idx, r := idx0, r0;
    var i := 0;
    assert out + Repeat(m, r0, 0, skip) == out;
    while i < count
      invariant 0 <= i && (i <= count || i == 0)
      invariant r == Stepped(r0, i, skip) && idx == idx0 + |Repeat(m, r0, i, skip)|
      invariant Filled(entries, out + Repeat(m, r0, i, skip))
    {
      RepeatGrows(m, r0, i + 1, count, skip);
      idx := SetBindAddr(entries, idx, m, r, out + Repeat(m, r0, i, skip));
      assert out + Repeat(m, r0, i, skip) + [Bound(m, r)] == out + Repeat(m, r0, i + 1, skip);
      r := Advance(r, skip);
      i := i + 1;
    }
  }

  lemma {:induction false} RepeatGrows(m: Image, r: Regs, i: int, n: int, step: int)
    requires r.segment < |m.vmaddrs| && i <= n
    ensures |Repeat(m, r, i, step)| <= |Repeat(m, r, n, step)|
    decreases n - i
  {
    if i < n {
      RepeatGrows(m, r, i, n - 1, step);
    }
  }

  /** The opcodes that only change the symbol or the address in force, after the first byte. */
  method SetRegs(code: seq<Byte>, start: nat, op: nat, imm: Nibble, r0: Regs, ghost i: Instr, ghost segments: nat)
    returns (p: nat, r: Regs)
    requires At(code, start, Operand(i)) && WellFormed(i, segments) && op == Opcode(i) && imm == i.imm
    requires op != 0x9 && op != 0xb && op != 0xc
    ensures p == start + |Operand(i)| && r == After(r0, i)
  {
    p, r := start, r0;
    if op == 0x2 {
      var ordinal;
      ordinal, p := Uleb128(code, p, i.g);
    } else if op == 0x3 || op == 0x4 {
      var n := Length(code, p, i.name);
      AtParts(code, p, i.name, [0]);
      r := r.(symbol := Some(code[p..p + n]));
      p := p + n + 1;
    } else if op == 0x6 {
      p := Sleb128(code, p, i.g);
    } else if op == 0x7 {
      var offset;
      offset, p := Uleb128(code, p, i.g);
      r := r.(segment := imm, offset := offset);
    } else if op == 0x8 || op == 0xa {
      var step;
      step, p := Uleb128(code, p, i.g);
      AddInWord(Value(i.g), r.offset);
      r := Advance(r, step);
    }
  }

  /** The opcodes that enter something into the table, after the first byte. */
  method Bind(code: seq<Byte>, start: nat, op: nat, imm: Nibble, entries: array?<Entry>, idx0: nat, m: Image, r0: Regs,
              ghost i: Instr, ghost out: seq<Entry>)
    returns (p: nat, idx: nat, r: Regs)
    requires At(code, start, Operand(i)) && WellFormed(i, |m.vmaddrs|) && op == Opcode(i) && imm == i.imm
    requires op == 0x9 || op == 0xb || op == 0xc
    requires r0.segment < |m.vmaddrs| && idx0 == |out| && Filled(entries, out)
    requires Room(entries, idx0 + |Entries(m, r0, i)|)
    modifies if entries == null then {} else {entries}
    ensures p == start + |Operand(i)| && r == After(r0, i)
    ensures idx == idx0 + |Entries(m, r0, i)| && Filled(entries, out + Entries(m, r0, i))
  {
    p, r := start, r0;
    if op == 0x9 {
      idx := SetBindAddr(entries, idx0, m, r, out);
    } else if op == 0xb {
      idx := SetBindAddr(entries, idx0, m, r, out);
      r := Advance(r, imm * 8);
    } else {
      var count, skip;
      AtParts(code, p, i.count, i.skip);
      count, p := Uleb128(code, p, i.count);
      skip, p := Uleb128(code, p, i.skip);
      IntOfWord(Value(i.count));
      IntOfWord(Value(i.skip));
      idx, r := BindTimes(entries, idx0, m, r, Int32(count), Int32(skip), out);
    }
  }

  lemma IntOfWord(x: nat)
    ensures Int32(x % TWO64) == Int32(x)
  {
  }

  lemma FirstByte(code: seq<Byte>, start: nat, i: Instr)
    requires At(code, start, Encode(i))
    ensures code[start] / 16 == Opcode(i) && code[start] % 16 == i.imm && At(code, start + 1, Operand(i))
  {
    AtParts(code, start, [16 * Opcode(i) + i.imm], Operand(i));
    assert code[start] == code[start..start + 1][0];
  }

  /** One round of the loop of set_bind_addrs. */
  method Instruction(code: seq<Byte>, start: nat, entries: array?<Entry>, idx0: nat, m: Image, r0: Regs,
                     ghost i: Instr, ghost out: seq<Entry>)
    returns (p: nat, idx: nat, r: Regs)
    requires At(code, start, Encode(i)) && WellFormed(i, |m.vmaddrs|)
    requires r0.segment < |m.vmaddrs| && idx0 == |out| && Filled(entries, out)
    requires Room(entries, idx0 + |Entries(m, r0, i)|)
    modifies if entries == null then {} else {entries}
    ensures p == start + |Encode(i)| && r == After(r0, i)
    ensures idx == idx0 + |Entries(m, r0, i)| && Filled(entries, out + Entries(m, r0, i))
  {
    FirstByte(code, start, i);
    var op, imm := code[start] / 16, code[start] % 16;
    if op == 0x9 || op == 0xb || op == 0xc {
      p, idx, r := Bind(code, start + 1, op, imm, entries, idx0, m, r0, i, out);
    } else {
      p, r := SetRegs(code, start + 1, op, imm, r0, i, |m.vmaddrs|);
      idx := idx0;
      assert out + [] == out;
    }
  }

  /** From p on the code is the rest of a program, whose entries complete those made so far. */
  ghost predicate Remains(code: seq<Byte>, p: int, rest: seq<Instr>, m: Image, r: Regs,
                          out: seq<Entry>, all: seq<Entry>)
  {
    && 0 <= p <= |code| && code[p..] == EncodeAll(rest) && Program(rest, |m.vmaddrs|)
    && r.segment < |m.vmaddrs| && out + EntriesOf(m, r, rest) == all
  }

  lemma RestOfCode(code: seq<Byte>, p: nat, e: seq<Byte>, tail: seq<Byte>)
    requires p < |code| && code[p..] == e + tail
    ensures At(code, p, e) && code[p + |e|..] == tail
  {
    assert code[p..p + |e|] == code[p..][..|e|] == e;
    assert code[p + |e|..] == code[p..][|e|..] == tail;
  }

  lemma NextInstruction(code: seq<Byte>, p: nat, rest: seq<Instr>, m: Image, r: Regs, out: seq<Entry>, all: seq<Entry>)
    requires p < |code| && Remains(code, p, rest, m, r, out, all)
    ensures rest != [] && r.segment < |m.vmaddrs| && WellFormed(rest[0], |m.vmaddrs|) && At(code, p, Encode(rest[0]))
    ensures |out| + |Entries(m, r, rest[0])| <= |all|
    ensures Remains(code, p + |Encode(rest[0])|, rest[1..], m, After(r, rest[0]), out + Entries(m, r, rest[0]), all)
  {
    RestOfCode(code, p, Encode(rest[0]), EncodeAll(rest[1..]));
    Assoc(out, Entries(m, r, rest[0]), EntriesOf(m, After(r, rest[0]), rest[1..]));
  }

  lemma WholeProgram(code: seq<Byte>, m: Image, prog: seq<Instr>)
    requires m.vmaddrs != [] && Program(prog, |m.vmaddrs|) && code == EncodeAll(prog)
    ensures Remains(code, 0, prog, m, START, [], EntriesOf(m, START, prog))
  {
    assert code[0..] == code;
    assert [] + EntriesOf(m, START, prog) == EntriesOf(m, START, prog);
  }

  lemma NothingRemains(code: seq<Byte>, rest: seq<Instr>, m: Image, r: Regs, out: seq<Entry>, all: seq<Entry>)
    requires Remains(code, |code|, rest, m, r, out, all)
    ensures out == all
  {
    assert rest == [];
  }

  /** set_bind_addrs; the code is a well-formed program. */
  method SetBindAddrs(code: seq<Byte>, entries: array?<Entry>, m: Image, ghost prog: seq<Instr>) returns (idx: nat)
    requires m.vmaddrs != [] && Program(prog, |m.vmaddrs|) && code == EncodeAll(prog)
    requires entries != null ==> entries.Length == |EntriesOf(m, START, prog)|
    modifies if entries == null then {} else {entries}
    ensures idx == |EntriesOf(m, START, prog)|
    ensures entries != null ==> entries[..] == EntriesOf(m, START, prog)
  {
    idx := 0;
    var p, r := 0, START;
    ghost var rest, out: seq<Entry>, all := prog, [], EntriesOf(m, START, prog);
    WholeProgram(code, m, prog);
    while p < |code|
      invariant Remains(code, p, rest, m, r, out, all) && idx == |out| && Filled(entries, out)
      decreases |code| - p
    {
      NextInstruction(code, p, rest, m, r, out, all);
      ghost var i, made := rest[0], Entries(m, r, rest[0]);
      p, idx, r := Instruction(code, p, entries, idx, m, r, i, out);
      out, rest := out + made, rest[1..];
    }
    NothingRemains(code, rest, m, r, out, all);
  }

  /** The two passes of plthook_open_real: the table has the size that was counted, and every entry is filled. */
  method OpenReal(code: seq<Byte>, m: Image, ghost prog: seq<Instr>) returns (entries: array<Entry>)
    requires m.vmaddrs != [] && Program(prog, |m.vmaddrs|) && code == EncodeAll(prog)
    ensures fresh(entries) && entries[..] == EntriesOf(m, START, prog)
  {
    var n := SetBindAddrs(code, null, m, prog);
    entries := new Entry[n];
    var filled := SetBindAddrs(code, entries, m, prog);
  }
}
