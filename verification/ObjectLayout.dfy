/** The memory layout of object types: where the values of their attributes lie, and where their indicators do. */
module ObjectLayout {

  // Rounding up with a mask

  predicate PowerOfTwo(a: int) {
    a == 1 || (a > 1 && a % 2 == 0 && PowerOfTwo(a / 2))
  }

  function Not(x: int): int {
    -x - 1
  }

  function Magnitude(x: int): nat {
    if x >= 0 then x else -x - 1
  }

  /** Ruby's & on integers, which are two's complement numbers of unbounded width. */
  function And(x: int, y: int): int
    decreases Magnitude(x)
  {
    if x == 0 then 0
    else if x == -1 then y
    else 2 * And(x / 2, y / 2) + if x % 2 == 1 && y % 2 == 1 then 1 else 0
  }

  function RoundUp(x: int, a: int): int {
    And(x + a - 1, Not(a - 1))
  }

  /** x is a multiple of the power of two a. */
  predicate Multiple(x: int, a: int)
    requires PowerOfTwo(a)
    decreases a
  {
    a == 1 || (x % 2 == 0 && Multiple(x / 2, a / 2))
  }

  lemma {:induction false} MaskRoundsDown(x: int, a: int)
    requires PowerOfTwo(a)
    ensures var r := And(x, -a); Multiple(r, a) && x - a < r <= x
    decreases a
  {
    if a == 1 {
      AndMinusOne(x);
    } else if x == 0 {
      ZeroIsMultiple(a);
    } else if x == -1 {
      SelfIsMultiple(a);
    } else {
      MaskRoundsDown(x / 2, a / 2);
      assert (-a) / 2 == -(a / 2) && (-a) % 2 == 0;
      var h := And(x / 2, -(a / 2));
      assert And(x, -a) == 2 * h;
      assert (2 * h) / 2 == h;
    }
  }

  lemma {:induction false} AndMinusOne(x: int)
    ensures And(x, -1) == x
    decreases Magnitude(x)
  {
    if x != 0 && x != -1 {
      AndMinusOne(x / 2);
    }
  }

  lemma {:induction false} ZeroIsMultiple(a: int)
    requires PowerOfTwo(a)
    ensures Multiple(0, a)
    decreases a
  {
    if a != 1 {
      ZeroIsMultiple(a / 2);
    }
  }

  lemma {:induction false} SelfIsMultiple(a: int)
    requires PowerOfTwo(a)
    ensures Multiple(a, a) && Multiple(-a, a)
    decreases a
  {
    if a != 1 {
      SelfIsMultiple(a / 2);
      assert (-a) / 2 == -(a / 2);
    }
  }

  lemma {:induction false} SumIsMultiple(x: int, y: int, a: int)
    requires PowerOfTwo(a) && Multiple(x, a) && Multiple(y, a)
    ensures Multiple(x + y, a)
    decreases a
  {
    if a != 1 {
      SumIsMultiple(x / 2, y / 2, a / 2);
      assert (x + y) / 2 == x / 2 + y / 2;
    }
  }

  lemma {:induction false} CoarserIsFiner(x: int, a: int, b: int)
    requires PowerOfTwo(a) && PowerOfTwo(b) && b <= a && Multiple(x, a)
    ensures Multiple(x, b)
    decreases a
  {
    if b != 1 {
      CoarserIsFiner(x / 2, a / 2, b / 2);
    }
  }

  /** A multiple, in terms of the remainder. */
  lemma {:induction false} MultipleMeans(x: int, a: int)
    requires PowerOfTwo(a)
    ensures Multiple(x, a) <==> x % a == 0
    decreases a
  {
    if a != 1 {
      MultipleMeans(x / 2, a / 2);
      var h := a / 2;
      var q, r := (x / 2) / h, (x / 2) % h;
      assert x == 2 * (q * h + r) + x % 2;
      assert q * a == 2 * (q * h);
      Remainder(x, a, q, 2 * r + x % 2);
    }
  }

  lemma AtLeastOne(k: int, a: int)
    requires k >= 1 && a >= 1
    ensures k * a >= a
  {
  }

  lemma SameRemainder(a: int, q: int, r: int, q': int, r': int)
    requires 0 <= r < a && 0 <= r' < a && q * a + r == q' * a + r'
    ensures r == r'
  {
    if q > q' {
      AtLeastOne(q - q', a);
    } else if q < q' {
      AtLeastOne(q' - q, a);
    }
  }

  lemma Remainder(x: int, a: int, q: int, r: int)
    requires 0 <= r < a && x == q * a + r
    ensures x % a == r
  {
    SameRemainder(a, q, r, x / a, x % a);
  }

  /** The mask formula is the next multiple of a power of two. */
  lemma MaskRoundsUp(x: int, a: int)
    requires PowerOfTwo(a)
    ensures Multiple(RoundUp(x, a), a) && x <= RoundUp(x, a) < x + a
  {
    MaskRoundsDown(x + a - 1, a);
  }

  lemma {:induction false} OppositeIsMultiple(x: int, a: int)
    requires PowerOfTwo(a) && Multiple(x, a)
    ensures Multiple(-x, a)
    decreases a
  {
    if a != 1 {
      OppositeIsMultiple(x / 2, a / 2);
      assert (-x) / 2 == -(x / 2);
    }
  }

  lemma {:induction false} SmallMultiple(x: int, a: int)
    requires PowerOfTwo(a) && Multiple(x, a) && -a < x < a
    ensures x == 0
    decreases a
  {
    if a != 1 {
      SmallMultiple(x / 2, a / 2);
    }
  }

  /** It is the least one that is not smaller. */
  lemma RoundsToLeast(x: int, a: int, y: int)
    requires PowerOfTwo(a) && Multiple(y, a) && x <= y
    ensures RoundUp(x, a) <= y
    ensures y < x + a ==> RoundUp(x, a) == y
  {
    var r := RoundUp(x, a);
    MaskRoundsUp(x, a);
    OppositeIsMultiple(r, a);
    SumIsMultiple(y, -r, a);
    if -a < y - r < a {
      SmallMultiple(y - r, a);
    }
  }

  lemma CoarserRoundsFurther(x: int, a: int, b: int)
    requires PowerOfTwo(a) && PowerOfTwo(b) && a <= b
    ensures RoundUp(x, a) <= RoundUp(x, b)
  {
    MaskRoundsUp(x, b);
    CoarserIsFiner(RoundUp(x, b), b, a);
    RoundsToLeast(x, a, RoundUp(x, b));
  }

  /** Rounding what lies between a number and its rounded value gives that value, from any multiple on. */
  lemma RoundsAlike(base: int, p: int, e: int, a: int)
    requires PowerOfTwo(a) && Multiple(base, a) && e <= base + p <= RoundUp(e, a)
    ensures base + RoundUp(p, a) == RoundUp(e, a)
  {
    MaskRoundsUp(e, a);
    MaskRoundsUp(p, a);
    SumIsMultiple(base, RoundUp(p, a), a);
    RoundsToLeast(base + p, a, base + RoundUp(p, a));
    RoundsToLeast(base + p, a, RoundUp(e, a));
  }

  // Types and their layout

  /** How check_metadata classifies an attribute that is not itself an object type. */
  datatype Kind = Pointer | Number | Date | Double | Float

  datatype Type = Scalar(kind: Kind) | Named(attrs: seq<Type>) | Collection(element: Type)

  datatype Cell = Cell(size: int, alignment: int)

  /** The sizes and alignments of the C types. */
  datatype Machine = Machine(pointer: Cell, number: Cell, date: Cell, double: Cell, float: Cell) {
    function Of(kind: Kind): Cell {
      match kind
      case Pointer => pointer
      case Number => number
      case Date => date
      case Double => double
      case Float => float
    }

    /** As C has it: an alignment is a power of two and divides the size. */
    ghost predicate Valid() {
      forall kind :: PowerOfTwo(Of(kind).alignment) && Of(kind).size > 0 && Multiple(Of(kind).size, Of(kind).alignment)
    }
  }

  /** What a TDO, or check_metadata for a scalar, says about a type; one offset pair for each attribute. */
  datatype Tdo = Tdo(valSize: int, indSize: int, alignment: int, offsets: seq<(int, int)>)

  /** TDO::Attr, and next_offset */
  function Attach(p: Tdo, s: Tdo): Tdo {
    var at := RoundUp(p.valSize, s.alignment);
    Tdo(at + s.valSize, p.indSize + s.indSize,
        if p.alignment < s.alignment then s.alignment else p.alignment, p.offsets + [(at, p.indSize)])
  }

  /** The first n attributes of an object type. */
  function Upto(m: Machine, t: Type, n: nat): (r: Tdo)
    requires t.Named? && n <= |t.attrs|
    ensures |r.offsets| == n
    decreases t, n
  {
    if n == 0 then Tdo(0, 2, 1, []) else Attach(Upto(m, t, n - 1), Describe(m, t.attrs[n - 1]))
  }

  function Describe(m: Machine, t: Type): (r: Tdo)
    ensures t.Named? ==> |r.offsets| == |t.attrs|
    decreases t
  {
    match t
    case Scalar(kind) => Tdo(m.Of(kind).size, 2, m.Of(kind).alignment, [])
    case Collection(_) => Tdo(m.pointer.size, 2, m.pointer.alignment, [])
    case Named(attrs) =>
      var p := Upto(m, t, |attrs|);
      p.(valSize := RoundUp(p.valSize, p.alignment))
  }

  /** TDO#initialize: check_metadata, initialize_named_type and initialize_named_collection */
  method Initialize(m: Machine, t: Type) returns (tdo: Tdo)
    ensures tdo == Describe(m, t)
    decreases t
  {
    match t
    case Scalar(kind) => tdo := Tdo(m.Of(kind).size, 2, m.Of(kind).alignment, []);
    case Collection(_) => tdo := Tdo(m.pointer.size, 2, m.pointer.alignment, []);
    case Named(attrs) =>
      var valSize, indSize, alignment := 0, 2, 1;
      var offsets: seq<(int, int)> := [];
      for i := 0 to |attrs|
        invariant Tdo(valSize, indSize, alignment, offsets) == Upto(m, t, i)
      {
        var s := Initialize(m, attrs[i]);
        var valOffset := And(valSize + s.alignment - 1, Not(s.alignment - 1));
        offsets := offsets + [(valOffset, indSize)];
        valSize, indSize := valOffset + s.valSize, indSize + s.indSize;
        if alignment < s.alignment {
          alignment := s.alignment;
        }
      }
      tdo := Tdo(And(valSize + alignment - 1, Not(alignment - 1)), indSize, alignment, offsets);
  }

  // Where everything lies

  lemma {:induction false} UptoIsAligned(m: Machine, t: Type, n: nat)
    requires m.Valid() && t.Named? && n <= |t.attrs|
    ensures PowerOfTwo(Upto(m, t, n).alignment) && Upto(m, t, n).valSize >= 0
    decreases t, n
  {
    if n > 0 {
      UptoIsAligned(m, t, n - 1);
      DescribeIsAligned(m, t.attrs[n - 1]);
      MaskRoundsUp(Upto(m, t, n - 1).valSize, Describe(m, t.attrs[n - 1]).alignment);
    }
  }

  /** The size of a type is a multiple of its alignment, so that values can follow each other. */
  lemma {:induction false} DescribeIsAligned(m: Machine, t: Type)
    requires m.Valid()
    ensures var d := Describe(m, t);
      PowerOfTwo(d.alignment) && d.valSize >= 0 && Multiple(d.valSize, d.alignment)
    decreases t
  {
    match t
    case Scalar(kind) => assert m.Of(kind).size > 0;
    case Collection(_) => assert m.Of(Pointer).size > 0;
    case Named(attrs) =>
      UptoIsAligned(m, t, |attrs|);
      MaskRoundsUp(Upto(m, t, |attrs|).valSize, Upto(m, t, |attrs|).alignment);
  }

  lemma {:induction false} OffsetsAt(m: Machine, t: Type, i: nat, n: nat)
    requires t.Named? && i < n <= |t.attrs|
    ensures Upto(m, t, n).offsets[i]
         == (RoundUp(Upto(m, t, i).valSize, Describe(m, t.attrs[i]).alignment), Upto(m, t, i).indSize)
    decreases n
  {
    if i < n - 1 {
      OffsetsAt(m, t, i, n - 1);
    }
  }

  /** A scalar or collection value somewhere inside an object, with the size and alignment of its C type. */
  datatype Leaf = Leaf(offset: int, size: int, alignment: int)

  /** All values inside the first n attributes of an object at an offset, attributes of attributes included. */
  function LeavesUpto(m: Machine, t: Type, n: nat, base: int): seq<Leaf>
    requires t.Named? && n <= |t.attrs|
    decreases t, n
  {
    if n == 0 then []
    else LeavesUpto(m, t, n - 1, base) + Leaves(m, t.attrs[n - 1], base + Describe(m, t).offsets[n - 1].0)
  }

  function Leaves(m: Machine, t: Type, base: int): seq<Leaf>
    decreases t
  {
    match t
    case Scalar(kind) => [Leaf(base, m.Of(kind).size, m.Of(kind).alignment)]
    case Collection(_) => [Leaf(base, m.pointer.size, m.pointer.alignment)]
    case Named(attrs) => LeavesUpto(m, t, |attrs|, base)
  }

  /** The values lie apart, in order, between two offsets. */
  ghost predicate Apart(leaves: seq<Leaf>, from: int, to: int) {
    && from <= to
    && (forall i :: 0 <= i < |leaves| ==>
          from <= leaves[i].offset && leaves[i].offset + leaves[i].size <= to && leaves[i].size >= 0)
    && (forall i, j :: 0 <= i < j < |leaves| ==> leaves[i].offset + leaves[i].size <= leaves[j].offset)
  }

  ghost predicate Aligned(leaves: seq<Leaf>) {
    forall i :: 0 <= i < |leaves| ==> PowerOfTwo(leaves[i].alignment) && Multiple(leaves[i].offset, leaves[i].alignment)
  }

  lemma Joined(a: seq<Leaf>, b: seq<Leaf>, from: int, mid: int, start: int, to: int)
    requires Apart(a, from, mid) && Apart(b, start, to) && mid <= start && Aligned(a) && Aligned(b)
    ensures Apart(a + b, from, to) && Aligned(a + b)
  {
  }

  /** An aligned object gives its next attribute an aligned place after the ones before. */
  lemma NextIsAligned(m: Machine, t: Type, n: nat, base: int)
    requires m.Valid() && t.Named? && 0 < n <= |t.attrs|
    requires PowerOfTwo(Upto(m, t, n).alignment) && Multiple(base, Upto(m, t, n).alignment)
    ensures var before, d, shift := Upto(m, t, n - 1), Describe(m, t.attrs[n - 1]), Describe(m, t).offsets[n - 1].0;
      && PowerOfTwo(before.alignment) && Multiple(base, before.alignment)
      && PowerOfTwo(d.alignment) && Multiple(base + shift, d.alignment)
      && before.valSize <= shift && shift + d.valSize == Upto(m, t, n).valSize
  {
    var before, d := Upto(m, t, n - 1), Describe(m, t.attrs[n - 1]);
    OffsetsAt(m, t, n - 1, |t.attrs|);
    UptoIsAligned(m, t, n - 1);
    DescribeIsAligned(m, t.attrs[n - 1]);
    MaskRoundsUp(before.valSize, d.alignment);
    CoarserIsFiner(base, Upto(m, t, n).alignment, before.alignment);
    CoarserIsFiner(base, Upto(m, t, n).alignment, d.alignment);
    SumIsMultiple(base, RoundUp(before.valSize, d.alignment), d.alignment);
  }

  lemma LeavesJoin(m: Machine, t: Type, n: nat, base: int, at: int)
    requires t.Named? && 0 < n <= |t.attrs| && at == base + Describe(m, t).offsets[n - 1].0
    requires var before := LeavesUpto(m, t, n - 1, base);
             Apart(before, base, base + Upto(m, t, n - 1).valSize) && Aligned(before)
    requires var last := Leaves(m, t.attrs[n - 1], at);
             Apart(last, at, base + Upto(m, t, n).valSize) && Aligned(last)
    requires base + Upto(m, t, n - 1).valSize <= at
    ensures Apart(LeavesUpto(m, t, n, base), base, base + Upto(m, t, n).valSize)
    ensures Aligned(LeavesUpto(m, t, n, base))
  {
    var before, last := LeavesUpto(m, t, n - 1, base), Leaves(m, t.attrs[n - 1], at);
    Joined(before, last, base, base + Upto(m, t, n - 1).valSize, at, base + Upto(m, t, n).valSize);
    assert LeavesUpto(m, t, n, base) == before + last;
  }

  lemma {:induction false} LeavesUptoAreSound(m: Machine, t: Type, n: nat, base: int)
    requires m.Valid() && t.Named? && n <= |t.attrs|
    requires PowerOfTwo(Upto(m, t, n).alignment) && Multiple(base, Upto(m, t, n).alignment)
    ensures Apart(LeavesUpto(m, t, n, base), base, base + Upto(m, t, n).valSize)
    ensures Aligned(LeavesUpto(m, t, n, base))
    decreases t, n
  {
    if n > 0 {
      NextIsAligned(m, t, n, base);
      var at := base + Describe(m, t).offsets[n - 1].0;
      LeavesUptoAreSound(m, t, n - 1, base);
      LeavesAreSound(m, t.attrs[n - 1], at);
      LeavesJoin(m, t, n, base, at);
    }
  }

  /**
   * In an object that is aligned itself, however deep the types are nested: every value is aligned as its own type
   * demands, no two values overlap, and all lie within the size of the object.
   */
  lemma {:induction false} LeavesAreSound(m: Machine, t: Type, base: int)
    requires m.Valid()
    requires PowerOfTwo(Describe(m, t).alignment) && Multiple(base, Describe(m, t).alignment)
    ensures Apart(Leaves(m, t, base), base, base + Describe(m, t).valSize) && Aligned(Leaves(m, t, base))
    decreases t
  {
    DescribeIsAligned(m, t);
    if t.Named? {
      LeavesUptoAreSound(m, t, |t.attrs|, base);
      var p := Upto(m, t, |t.attrs|);
      UptoIsAligned(m, t, |t.attrs|);
      MaskRoundsUp(p.valSize, p.alignment);
    }
  }

  // Nothing is wasted

  /** Where the last value ends. */
  function End(leaves: seq<Leaf>, base: int): int {
    if leaves == [] then base else leaves[|leaves| - 1].offset + leaves[|leaves| - 1].size
  }

  function Coarsest(leaves: seq<Leaf>): int {
    if leaves == [] then 1
    else
      var before, last := Coarsest(leaves[..|leaves| - 1]), leaves[|leaves| - 1].alignment;
      if before < last then last else before
  }

  lemma {:induction false} CoarsestOfBoth(a: seq<Leaf>, b: seq<Leaf>)
    ensures Coarsest(b) >= 1
    ensures Coarsest(a + b) == if Coarsest(a) < Coarsest(b) then Coarsest(b) else Coarsest(a)
  {
    if b == [] {
      assert a + b == a;
      AtLeastFine(a);
    } else {
      assert (a + b)[..|a + b| - 1] == a + b[..|b| - 1];
      CoarsestOfBoth(a, b[..|b| - 1]);
    }
  }

  lemma {:induction false} AtLeastFine(a: seq<Leaf>)
    ensures Coarsest(a) >= 1
  {
    if a != [] {
      AtLeastFine(a[..|a| - 1]);
    }
  }

  /** Up to here the size is exact: the last value ends in it, and rounding that end would not give less. */
  ghost predicate Exact(leaves: seq<Leaf>, base: int, size: int, alignment: int) {
    && alignment == Coarsest(leaves) && (leaves == [] ==> size == 0)
    && End(leaves, base) <= base + size <= RoundUp(End(leaves, base), alignment)
  }

  lemma ExactStep(before: seq<Leaf>, base: int, size: int, a: int, last: seq<Leaf>, at: int, lastSize: int, b: int)
    requires Exact(before, base, size, a) && PowerOfTwo(a) && PowerOfTwo(b) && b == Coarsest(last)
    requires at + lastSize == RoundUp(End(last, at), b)
    requires last == [] ==> lastSize == 0 && at == base + size
    ensures Exact(before + last, base, at + lastSize - base, if a < b then b else a)
  {
    CoarsestOfBoth(before, last);
    if last == [] {
      assert before + last == before;
    } else {
      assert End(before + last, base) == End(last, at);
      CoarserRoundsFurther(End(last, at), b, if a < b then b else a);
      MaskRoundsUp(End(last, at), b);
    }
  }

  lemma FlushIfFine(m: Machine, t: Type, n: nat)
    requires t.Named? && 0 < n <= |t.attrs| && Describe(m, t.attrs[n - 1]).alignment == 1
    ensures Describe(m, t).offsets[n - 1].0 == Upto(m, t, n - 1).valSize
  {
    OffsetsAt(m, t, n - 1, |t.attrs|);
    MaskRoundsUp(Upto(m, t, n - 1).valSize, 1);
  }

  lemma {:induction false} UptoIsExact(m: Machine, t: Type, n: nat, base: int)
    requires m.Valid() && t.Named? && n <= |t.attrs|
    requires PowerOfTwo(Upto(m, t, n).alignment) && Multiple(base, Upto(m, t, n).alignment)
    ensures Exact(LeavesUpto(m, t, n, base), base, Upto(m, t, n).valSize, Upto(m, t, n).alignment)
    decreases t, n
  {
    if n == 0 {
      MaskRoundsUp(base, 1);
    } else {
      NextIsAligned(m, t, n, base);
      UptoIsExact(m, t, n - 1, base);
      var at, p, d := base + Describe(m, t).offsets[n - 1].0, Upto(m, t, n - 1), Describe(m, t.attrs[n - 1]);
      var before, last := LeavesUpto(m, t, n - 1, base), Leaves(m, t.attrs[n - 1], at);
      DescribeIsExact(m, t.attrs[n - 1], at);
      if last == [] {
        FlushIfFine(m, t, n);
      }
      ExactStep(before, base, p.valSize, p.alignment, last, at, d.valSize, d.alignment);
      assert LeavesUpto(m, t, n, base) == before + last;
    }
  }

  /**
   * The alignment of a type is that of its coarsest value, and its size is the least multiple of that in which the last
   * value ends.
   */
  lemma {:induction false} DescribeIsExact(m: Machine, t: Type, base: int)
    requires m.Valid() && PowerOfTwo(Describe(m, t).alignment) && Multiple(base, Describe(m, t).alignment)
    ensures var leaves := Leaves(m, t, base);
            && Describe(m, t).alignment == Coarsest(leaves) && (leaves == [] ==> Describe(m, t).valSize == 0)
            && base + Describe(m, t).valSize == RoundUp(End(leaves, base), Coarsest(leaves))
    decreases t
  {
    DescribeIsAligned(m, t);
    var d, leaves := Describe(m, t), Leaves(m, t, base);
    if t.Named? {
      var p := Upto(m, t, |t.attrs|);
      UptoIsExact(m, t, |t.attrs|, base);
      RoundsAlike(base, p.valSize, End(leaves, base), p.alignment);
      MaskRoundsUp(0, p.alignment);
      if leaves == [] {
        RoundsToLeast(0, 1, 0);
      }
    } else {
      assert leaves[..0] == [];
      SumIsMultiple(base, d.valSize, d.alignment);
      RoundsToLeast(base + d.valSize, d.alignment, base + d.valSize);
    }
  }

  /** Two attributes of one C type: one value behind the other, and nothing else. */
  lemma TwoAlike(m: Machine, kind: Kind, c: Cell)
    requires m.Valid()
    requires c == match kind
                  case Pointer => m.pointer
                  case Number => m.number
                  case Date => m.date
                  case Double => m.double
                  case Float => m.float
    ensures Describe(m, Named([Scalar(kind), Scalar(kind)]))
         == Tdo(2 * c.size, 6, c.alignment, [(0, 2), (c.size, 4)])
  {
    var t, d := Named([Scalar(kind), Scalar(kind)]), Tdo(c.size, 2, c.alignment, []);
    assert m.Of(kind) == c && Describe(m, Scalar(kind)) == d;
    ZeroIsMultiple(c.alignment);
    SumIsMultiple(c.size, c.size, c.alignment);
    AttachFlush(Tdo(0, 2, 1, []), d);
    AttachFlush(Tdo(c.size, 4, c.alignment, [(0, 2)]), d);
    assert Upto(m, t, 1) == Tdo(c.size, 4, c.alignment, [(0, 2)]);
    assert Upto(m, t, 2) == Tdo(2 * c.size, 6, c.alignment, [(0, 2), (c.size, 4)]);
    RoundsToLeast(2 * c.size, c.alignment, 2 * c.size);
  }

  lemma AttachFlush(p: Tdo, s: Tdo)
    requires PowerOfTwo(s.alignment) && Multiple(p.valSize, s.alignment)
    ensures Attach(p, s) == Tdo(p.valSize + s.valSize, p.indSize + s.indSize,
                                if p.alignment < s.alignment then s.alignment else p.alignment,
                                p.offsets + [(p.valSize, p.indSize)])
  {
    RoundsToLeast(p.valSize, s.alignment, p.valSize);
  }

  /** The gap in front of an attribute is smaller than its alignment. */
  lemma AttributesAreTight(m: Machine, t: Type, i: nat)
    requires m.Valid() && t.Named? && i < |t.attrs|
    ensures var offsets := Describe(m, t).offsets;
            var end := if i == 0 then 0 else offsets[i - 1].0 + Describe(m, t.attrs[i - 1]).valSize;
            end <= offsets[i].0 < end + Describe(m, t.attrs[i]).alignment
  {
    OffsetsAt(m, t, i, |t.attrs|);
    if i > 0 {
      OffsetsAt(m, t, i - 1, |t.attrs|);
    }
    DescribeIsAligned(m, t.attrs[i]);
    MaskRoundsUp(Upto(m, t, i).valSize, Describe(m, t.attrs[i]).alignment);
  }

  // The indicators

  /** The indicators of the first n attributes, as offsets: an object has its own one before those of its attributes. */
  function SlotsUpto(m: Machine, t: Type, n: nat, base: int): seq<int>
    requires t.Named? && n <= |t.attrs|
    decreases t, n
  {
    if n == 0 then [base]
    else SlotsUpto(m, t, n - 1, base) + Slots(m, t.attrs[n - 1], base + Describe(m, t).offsets[n - 1].1)
  }

  function Slots(m: Machine, t: Type, base: int): seq<int>
    decreases t
  {
    if t.Named? then SlotsUpto(m, t, |t.attrs|, base) else [base]
  }

  /** Slots of two bytes, one after the other without a gap. */
  ghost predicate Tile(slots: seq<int>, from: int, to: int) {
    to == from + 2 * |slots| && forall i :: 0 <= i < |slots| ==> slots[i] == from + 2 * i
  }

  lemma TileMore(a: seq<int>, b: seq<int>, from: int, mid: int, to: int)
    requires Tile(a, from, mid) && Tile(b, mid, to)
    ensures Tile(a + b, from, to)
  {
    forall i | 0 <= i < |a + b| ensures (a + b)[i] == from + 2 * i {
      assert i >= |a| ==> b[i - |a|] == mid + 2 * (i - |a|);
    }
  }

  lemma {:induction false} SlotsUptoTile(m: Machine, t: Type, n: nat, base: int)
    requires t.Named? && n <= |t.attrs|
    ensures Tile(SlotsUpto(m, t, n, base), base, base + Upto(m, t, n).indSize)
    decreases t, n
  {
    if n > 0 {
      SlotsUptoTile(m, t, n - 1, base);
      OffsetsAt(m, t, n - 1, |t.attrs|);
      var at := base + Upto(m, t, n - 1).indSize;
      SlotsTile(m, t.attrs[n - 1], at);
      TileMore(SlotsUpto(m, t, n - 1, base), Slots(m, t.attrs[n - 1], at), base, at, base + Upto(m, t, n).indSize);
    }
  }

  /** The indicators of an object and of everything in it fill its indicator structure exactly. */
  lemma {:induction false} SlotsTile(m: Machine, t: Type, base: int)
    ensures Tile(Slots(m, t, base), base, base + Describe(m, t).indSize)
    decreases t
  {
    if t.Named? {
      SlotsUptoTile(m, t, |t.attrs|, base);
    }
  }
}
