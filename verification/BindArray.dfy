/** A bind buffer of one value or of an array of values, and its current index. */
module BindArray {
  import opened Basics

  type Value = int

  /** What Ruby passes in; whether a value that is not nil converts to the C type is up to the type of the bind. */
  datatype Ruby = Nil | Scalar(x: int) | Array(items: seq<Ruby>)

  type Conversion = Ruby -> Option<Value>

  /** What Ruby gets back; None is nil. */
  datatype Data = One(value: Option<Value>) | Many(values: seq<Option<Value>>)

  datatype Failure = IndexTooBig | OverMaxSize | NotAnArray | BadElement(index: nat)

  predicate Converts(x: Ruby, convert: Conversion) {
    x == Nil || convert(x).Some?
  }

  predicate AllConvert(items: seq<Ruby>, convert: Conversion, n: nat)
    requires n <= |items|
  {
    forall j :: 0 <= j < n ==> Converts(items[j], convert)
  }

  /** The element a value becomes. */
  function Stored(x: Ruby, convert: Conversion): Option<Value> {
    if x == Nil then None else convert(x)
  }

  /** Elements whose first n are new. */
  ghost function Overlaid(items: seq<Ruby>, convert: Conversion, n: nat, was: seq<Option<Value>>): seq<Option<Value>>
    requires n <= |items| <= |was|
  {
    seq(|was|, j requires 0 <= j < |was| => if j < n then Stored(items[j], convert) else was[j])
  }

  class Bind {
    const maxarSz: nat
    const values: array<Value>   // valuep
    const nulls: array<bool>     // inds: true is -1, false is 0
    var curarSz: nat
    var curarIdx: nat

    ghost predicate Valid()
      reads this
    {
      && values.Length == nulls.Length == (if maxarSz == 0 then 1 else maxarSz)
      && curarSz <= maxarSz && curarIdx < values.Length
    }

    /** oci8_bind_get: a null indicator hides the bytes. */
    function At(i: nat): Option<Value>
      requires i < values.Length == nulls.Length
      reads values, nulls
    {
      if nulls[i] then None else Some(values[i])
    }

    ghost function Elements(): (s: seq<Option<Value>>)
      requires Valid()
      reads this, values, nulls
      ensures |s| == values.Length && forall i :: 0 <= i < |s| ==> s[i] == At(i)
    {
      seq(values.Length, i requires 0 <= i < values.Length == nulls.Length reads values, nulls => At(i))
    }

    /** What get_data without an index is to give. */
    ghost function Contents(): Data
      requires Valid()
      reads this, values, nulls
    {
      if maxarSz == 0 then One(At(0)) else Many(Elements()[..curarSz])
    }

    /** oci8_bind_initialize without a value; no array size is a scalar. Every element is nil over zero bytes. */
    constructor (maxArraySize: Option<nat>)
      ensures Valid() && fresh(values) && fresh(nulls)
      ensures maxarSz == (match maxArraySize case None => 0 case Some(n) => n)
      ensures curarSz == 0 && forall i :: 0 <= i < values.Length ==> At(i) == None && values[i] == 0
    {
      var n := match maxArraySize case None => 0 case Some(n) => n;
      maxarSz, curarSz, curarIdx := n, 0, 0;
      values := new Value[if n > 0 then n else 1](_ => 0);
      nulls := new bool[if n > 0 then n else 1](_ => true);
    }

    /** oci8_bind_set at the current index: the indicator is cleared before the conversion can raise. */
    method Set(x: Ruby, convert: Conversion) returns (ok: bool)
      requires Valid()
      modifies values, nulls
      ensures ok == Converts(x, convert)
      ensures ok ==> Elements() == old(Elements())[curarIdx := Stored(x, convert)]
      ensures forall j :: 0 <= j < values.Length && (j != curarIdx || !ok) ==> values[j] == old(values[j])
      ensures !ok ==> Elements() == old(Elements())[curarIdx := Some(old(values[curarIdx]))]
    {
      if x == Nil {
        nulls[curarIdx] := true;
        return true;
      }
      nulls[curarIdx] := false;
      var v := convert(x);
      if v.Some? {
        values[curarIdx] := v.value;
      }
      return v.Some?;
    }

    /** The loop of oci8_bind_set_data */
    method SetEach(items: seq<Ruby>, convert: Conversion) returns (failure: Option<Failure>)
      requires Valid() && |items| <= maxarSz
      modifies this`curarIdx, values, nulls
      ensures Valid()
      ensures failure == None ==> AllConvert(items, convert, |items|)
                                  && Elements() == Overlaid(items, convert, |items|, old(Elements()))
      ensures failure.Some? ==> Stopped(failure.value, items, convert, old(values[..]), old(Elements()))
    {
      for i := 0 to |items|
        invariant Valid() && Elements() == Overlaid(items, convert, i, old(Elements()))
        invariant AllConvert(items, convert, i)
        invariant forall j :: i <= j < values.Length ==> values[j] == old(values[j])
      {
        curarIdx := i;
        var ok := Set(items[i], convert);
        if !ok { return Some(BadElement(i)); }
        assert Elements() == Overlaid(items, convert, i + 1, old(Elements()));
      }
      failure := None;
    }

    /** After a failure at item k: the items before it are stored, and element k shows the bytes it had before. */
    ghost predicate Stopped(failure: Failure, items: seq<Ruby>, convert: Conversion, bytes: seq<Value>,
                            was: seq<Option<Value>>)
      requires Valid() && |items| <= |was| == |bytes|
      reads this, values, nulls
    {
      && failure.BadElement? && failure.index < |items| && !Converts(items[failure.index], convert)
      && AllConvert(items, convert, failure.index)
      && var k := failure.index;
         Elements() == Overlaid(items, convert, k, was)[k := Some(bytes[k])]
    }

    /**
     * oci8_bind_set_data. All of the data is stored or the array keeps its size. Data of the wrong shape changes
     * nothing in an array; where a value does not convert, see Stopped.
     */
    method SetData(data: Ruby, convert: Conversion) returns (failure: Option<Failure>)
      requires Valid()
      modifies this`curarSz, this`curarIdx, values, nulls
      ensures Valid()
      ensures failure == None ==>
                if maxarSz == 0 then Converts(data, convert) && Contents() == One(Stored(data, convert))
                else data.Array? && AllConvert(data.items, convert, |data.items|)
                     && Contents() == Many(Each(data.items, convert))
      ensures failure != None ==> curarSz == old(curarSz)
      ensures failure == Some(NotAnArray) <==> maxarSz > 0 && !data.Array?
      ensures failure == Some(OverMaxSize) <==> maxarSz > 0 && data.Array? && |data.items| > maxarSz
      ensures failure in {Some(NotAnArray), Some(OverMaxSize)} ==> Elements() == old(Elements())
      ensures failure != Some(IndexTooBig)
      ensures failure.Some? && failure.value.BadElement? ==>
                if maxarSz == 0 then
                  failure.value.index == 0 && !Converts(data, convert) && Elements() == [Some(old(values[0]))]
                else
                  data.Array? && |data.items| <= maxarSz
                  && Stopped(failure.value, data.items, convert, old(values[..]), old(Elements()))
    {
      if maxarSz == 0 {
        curarIdx := 0;
        var ok := Set(data, convert);
        return if ok then None else Some(BadElement(0));
      }
      if !data.Array? { return Some(NotAnArray); }
      if |data.items| > maxarSz { return Some(OverMaxSize); }
      failure := SetEach(data.items, convert);
      if failure == None {
        curarSz := |data.items|;
      }
    }

    /** oci8_bind_get_data */
    method GetData(index: Option<nat>) returns (data: Data, failure: Option<Failure>)
      requires Valid()
      modifies this`curarIdx
      ensures Valid()
      ensures index == None ==> failure == None && data == Contents()
      ensures index.Some? ==> failure == if index.value >= maxarSz then Some(IndexTooBig) else None
      ensures index.Some? && failure == None ==> data == One(At(index.value))
    {
      failure := None;
      if index.Some? {
        if index.value >= maxarSz { return One(None), Some(IndexTooBig); }
        curarIdx := index.value;
        return One(At(curarIdx)), None;
      }
      if maxarSz == 0 {
        curarIdx := 0;
        return One(At(0)), None;
      }
      var s := [];
      for i := 0 to curarSz
        invariant Valid() && s == Elements()[..i]
      {
        curarIdx := i;
        s := s + [At(i)];
      }
      data := Many(s);
    }
  }

  function Each(items: seq<Ruby>, convert: Conversion): seq<Option<Value>> {
    seq(|items|, j requires 0 <= j < |items| => Stored(items[j], convert))
  }

  /** What is set is what is got back, unless setting it failed. */
  method SetAndGet(b: Bind, data: Ruby, convert: Conversion) returns (got: Data, failure: Option<Failure>)
    requires b.Valid()
    modifies b, b.values, b.nulls
    ensures b.Valid()
    ensures failure == None ==>
              if b.maxarSz == 0 then got == One(if data == Nil then None else convert(data))
              else
                && data.Array? && got.Many? && |got.values| == |data.items|
                && forall i :: 0 <= i < |data.items| ==>
                     got.values[i] == if data.items[i] == Nil then None else convert(data.items[i])
  {
    failure := b.SetData(data, convert);
    var ignored;
    got, ignored := b.GetData(None);
    assert failure == None && b.maxarSz > 0 ==> got == Many(Each(data.items, convert));
  }

  /** An array set fails at the first value that does not convert, and changes that element iff it was nil. */
  method FailedSet(b: Bind, items: seq<Ruby>, convert: Conversion) returns (k: nat)
    requires b.Valid() && 0 < |items| <= b.maxarSz
    requires exists i :: 0 <= i < |items| && items[i] != Nil && convert(items[i]) == None
    modifies b, b.values, b.nulls
    ensures b.Valid() && k < |items| && items[k] != Nil && convert(items[k]) == None
    ensures forall j :: 0 <= j < k ==> items[j] == Nil || convert(items[j]).Some?
    ensures b.At(k) == Some(old(b.values[k]))
    ensures b.At(k) == old(b.At(k)) <==> old(b.At(k)) != None
    ensures forall j :: 0 <= j < b.values.Length && j != k ==>
              b.At(j) == if j >= k then old(b.At(j)) else if items[j] == Nil then None else convert(items[j])
  {
    var failure := b.SetData(Array(items), convert);
    k := failure.value.index;
    assert b.At(k) == b.Elements()[k];
    forall j | 0 <= j < b.values.Length && j != k
      ensures b.At(j) == if j < k then Stored(items[j], convert) else old(b.At(j))
    {
      assert b.At(j) == b.Elements()[j];
    }
  }

  /** A new bind is nil, and after a set that fails it gives the zero bytes under it instead. */
  method NilIsLost(x: Ruby, convert: Conversion) returns (before: Data, after: Data)
    requires !Converts(x, convert)
    ensures before == One(None) && after == One(Some(0))
  {
    var b := new Bind(None);
    var ignored;
    before, ignored := b.GetData(None);
    ignored := b.SetData(x, convert);
    assert b.Elements()[0] == Some(0);
    after, ignored := b.GetData(None);
  }
}
