/** A select cursor that fetches rows in batches and hands them out one by one. */
module ArrayFetch {
  import opened Basics

  type Value = int
  type Row = seq<Value>

  /** A define handle: the buffer of one column; a place OCI has not filled holds None. */
  datatype Define = Define(maxarSz: nat, buffer: seq<Option<Value>>)

  datatype Failure = OciError | SizeMismatch | IndexTooBig

  datatype Fetched = Row(cells: seq<Option<Value>>) | Nil | Raised(reason: Failure)

  /** How many places the buffer of a define handle has: one even if its array size is zero. */
  function Places(n: nat): nat {
    if n == 0 then 1 else n
  }

  /** What a define handle holds when OCI has fetched k rows from position p on into it. */
  function Filled(d: Define, rows: seq<Row>, c: nat, p: nat, k: nat): (r: Define)
    requires p + k <= |rows| && k <= |d.buffer| && forall row :: row in rows ==> c < |row|
    ensures r.maxarSz == d.maxarSz && |r.buffer| == |d.buffer|
    ensures forall j :: 0 <= j < k ==> r.buffer[j] == Some(rows[p + j][c])
  {
    d.(buffer := seq(k, (j: nat) requires j < k => Some(rows[p + j][c])) + d.buffer[k..])
  }

  /** The define handles of all columns after a fetch of k rows from position p on. */
  function Loaded(handles: seq<Option<Define>>, rows: seq<Row>, p: nat, k: nat): seq<Option<Define>>
    requires p + k <= |rows| && forall row :: row in rows ==> |row| == |handles|
    requires forall c :: 0 <= c < |handles| ==> handles[c].Some? && k <= |handles[c].value.buffer|
  {
    seq(|handles|, c requires 0 <= c < |handles| => Some(Filled(handles[c].value, rows, c, p, k)))
  }

  /** A row as the cursor gives it, with nothing in the lost columns. */
  function Cells(row: Row, lost: set<nat>): seq<Option<Value>> {
    seq(|row|, c requires 0 <= c < |row| => if c in lost then None else Some(row[c]))
  }

  class Cursor {
    const columns: nat
    var prefetchRows: nat
    var metadata: nat                    // column_metadata.size
    var handles: seq<Option<Define>>     // define_handles
    var fetchArraySize: Option<nat>
    var rowbufSize: Option<nat>
    var rowbufIndex: nat
    var endOfFetch: bool
    // the server's side of the statement
    var executed: bool
    var rows: seq<Row>
    var at: nat
    ghost var lost: set<nat>             // columns defined since the buffers were filled

    /** How many rows one fetch asks for. */
    function BatchSize(): nat
      reads this`fetchArraySize
    {
      match fetchArraySize case None => 1 case Some(n) => n
    }

    /** The next row a fetch is to give. */
    ghost function Position(): int
      reads this`rows, this`at, this`rowbufSize, this`rowbufIndex
    {
      match rowbufSize case None => |rows| case Some(n) => at - (n - rowbufIndex)
    }

    /** The buffers are used up, so the next fetch of a row is a fetch of a batch. */
    predicate Drained()
      reads this`rowbufSize, this`rowbufIndex
    {
      rowbufSize == Some(rowbufIndex)
    }

    /** All buffers have the size of a batch, whatever the order of define and exec was. */
    ghost predicate Sized()
      reads this`metadata, this`handles, this`fetchArraySize
    {
      && columns >= 1
      && |handles| <= columns && (metadata == 0 || metadata == columns == |handles|)
      && (forall c :: 0 <= c < |handles| && handles[c].Some? ==>
            handles[c].value.maxarSz == BatchSize() && |handles[c].value.buffer| == Places(BatchSize()))
      && (metadata > 0 ==> forall c :: 0 <= c < |handles| ==> handles[c].Some?)
    }

    /** What the buffer of a column holds for the rows still to be given. */
    ghost predicate Holds(c: nat)
      requires c < |handles| && handles[c].Some?
      reads this`handles, this`rowbufSize, this`rowbufIndex, this`rows, this`at, this`lost
    {
      var buffer := handles[c].value.buffer;
      rowbufSize.Some? && rowbufSize.value <= |buffer| && rowbufSize.value <= at <= |rows| ==>
        forall j :: rowbufIndex <= j < rowbufSize.value ==>
          var row := rows[at - rowbufSize.value + j];
          c < |row| && buffer[j] == if c in lost then None else Some(row[c])
    }

    ghost predicate Valid()
      reads this
    {
      && Sized()
      && at <= |rows| && (forall row :: row in rows ==> |row| == columns)
      && (endOfFetch || rowbufSize == None ==> at == |rows| || BatchSize() == 0)
      && (executed ==> metadata > 0)
      && (rowbufSize.Some? ==> rowbufIndex <= rowbufSize.value <= at && rowbufSize.value <= BatchSize())
      && (rowbufSize.Some? && rowbufIndex < rowbufSize.value ==>
            metadata > 0 && forall c {:trigger Holds(c)} :: 0 <= c < |handles| ==> Holds(c))
    }

    constructor (columns: nat, prefetchRows: nat)
      requires columns >= 1
      ensures Valid() && this.columns == columns && this.prefetchRows == prefetchRows && !executed
      ensures metadata == 0 && handles == []
    {
      this.columns, this.prefetchRows := columns, prefetchRows;
      metadata, handles, fetchArraySize, rowbufSize, rowbufIndex := 0, [], None, Some(0), 0;
      endOfFetch, executed, rows, at, lost := false, false, [], 0, {};
    }

    /** prefetch_rows=, which takes zero too */
    method SetPrefetchRows(n: nat)
      requires Valid()
      modifies this`prefetchRows
      ensures Valid() && prefetchRows == n
    {
      prefetchRows := n;
      forall c | 0 <= c < |handles| && rowbufSize.Some? && rowbufIndex < rowbufSize.value ensures Holds(c) {
        assert old(Holds(c));
      }
    }

    /** make_bind_object with the batch size, and the assignment to define_handles. */
    method SetHandle(c: nat)
      requires c < columns && Sized()
      modifies this`handles
      ensures |handles| == (if c < |old(handles)| then |old(handles)| else c + 1)
      ensures forall i :: 0 <= i < |handles| ==>
                handles[i] == if i == c then Some(Define(BatchSize(), seq(Places(BatchSize()), _ => None)))
                              else if i < |old(handles)| then old(handles)[i] else None
    {
      if |handles| <= c {
        handles := handles + seq(c + 1 - |handles|, _ => None);
      }
      handles := handles[c := Some(Define(BatchSize(), seq(Places(BatchSize()), _ => None)))];
    }

    /** define, for a column of the select list counted from one; it can be called at any time. */
    method DefineColumn(pos: nat)
      requires Valid() && 1 <= pos <= columns
      modifies this`handles, this`lost
      ensures Valid() && pos <= |handles| && handles[pos - 1].Some? && lost == old(lost) + {pos - 1}
    {
      SetHandle(pos - 1);
      lost := lost + {pos - 1};
      forall c | 0 <= c < |handles| && rowbufSize.Some? && rowbufIndex < rowbufSize.value ensures Holds(c) {
        assert old(Holds(c));
      }
    }

    /** define_columns: the batch size is chosen only if no column has been defined yet. */
    method DefineColumns(arrayFetch: bool)
      requires Sized() && metadata == 0
      modifies this`handles, this`metadata, this`fetchArraySize
      ensures Sized() && metadata == columns
      ensures fetchArraySize == if old(handles) == [] && arrayFetch then Some(prefetchRows) else old(fetchArraySize)
    {
      if |handles| == 0 && arrayFetch {
        fetchArraySize := Some(prefetchRows);
      }
      var c := 0;
      while c < columns
        invariant 0 <= c <= columns && Sized() && metadata == 0 && c <= |handles|
        invariant forall i :: 0 <= i < c ==> handles[i].Some?
        modifies this`handles
      {
        if |handles| <= c || handles[c] == None {
          SetHandle(c);
        }
        c := c + 1;
      }
      metadata := columns;
    }

    /** exec of a select statement whose result is these rows; ok is what OCI answers. */
    method Exec(result: seq<Row>, ok: bool, arrayFetch: bool) returns (raised: bool)
      requires Valid() && forall row :: row in result ==> |row| == columns
      modifies this`handles, this`metadata, this`fetchArraySize, this`rowbufSize, this`rowbufIndex, this`endOfFetch
      modifies this`executed, this`rows, this`at
      ensures Valid() && raised == !ok && !endOfFetch
      ensures fetchArraySize == if ok && old(metadata) == 0 && old(handles) == [] && arrayFetch then Some(prefetchRows)
                                else old(fetchArraySize)
      ensures ok ==> executed && rows == result && Position() == 0 && Drained()
      ensures !ok ==> !executed && rows == old(rows) && Position() == old(Position())
    {
      endOfFetch := false;
      executed := false;
      if !ok {
        ghost var buffered := rowbufSize.Some? && rowbufIndex < rowbufSize.value;
        forall c | 0 <= c < |handles| && buffered ensures Holds(c) {
          assert old(Holds(c));
        }
        return true;
      }
      rows, at := result, 0;
      rowbufSize, rowbufIndex := Some(0), 0;
      if metadata == 0 {
        DefineColumns(arrayFetch);
      }
      executed := true;
      return false;
    }

    /** __fetch: none if the result is used up, and otherwise how many rows are now in the buffers. */
    method StmtFetch(nrows: nat, ok: bool) returns (n: Option<nat>, failure: Option<Failure>)
      requires Valid() && Drained() && nrows == BatchSize()
      modifies this`endOfFetch, this`at, this`handles, this`lost
      ensures Sized() && at <= |rows| && (endOfFetch ==> at == |rows| || nrows == 0)
      ensures old(endOfFetch) ==> n == None && failure == None && at == old(at)
      ensures !old(endOfFetch) && !(executed && ok) ==>
                failure == Some(OciError) && at == old(at) && handles == old(handles) && endOfFetch == old(endOfFetch)
      ensures !old(endOfFetch) && executed && ok ==>
                && failure == None && lost == {}
                && at == (if old(at) + nrows <= |rows| then old(at) + nrows else |rows|)
                && n == (if at == old(at) then None else Some(at - old(at)))
                && handles == Loaded(old(handles), rows, old(at), at - old(at))
    {
      if endOfFetch { return None, None; }
      var i := 0;
      while i < |handles|
        invariant 0 <= i <= |handles|
      {
        if handles[i].Some? && nrows > 1 && nrows != handles[i].value.maxarSz {
          return None, Some(SizeMismatch);
        }
        i := i + 1;
      }
      if !executed || !ok { return None, Some(OciError); }
      // OCIStmtFetch: NO_DATA if it meets the end, and perhaps if it just reaches it or is asked for nothing
      var k := if nrows <= |rows| - at then nrows else |rows| - at;
      handles := Loaded(handles, rows, at, k);
      if at + nrows > |rows| {
        endOfFetch := true;
      } else if at + nrows == |rows| || nrows == 0 {
        endOfFetch := *;
      }
      at, lost := at + k, {};
      return if k == 0 then None else Some(k), None;
    }

    /** fetch_row_internal; a batch of no rows ends the result. */
    method FetchBatch(ok: bool) returns (failure: Option<Failure>)
      requires Valid()
      modifies this`endOfFetch, this`at, this`handles, this`lost, this`rowbufSize, this`rowbufIndex
      ensures Valid()
      ensures Position() == if BatchSize() > 0 || failure.Some? then old(Position()) else |rows|
      ensures failure == if old(Drained() && !endOfFetch) && !(executed && ok) then Some(OciError) else None
      ensures fetchArraySize == None ==> at <= old(at) + 1
      ensures failure == None ==>
                if Position() < |rows| then rowbufSize.Some? && rowbufIndex < rowbufSize.value
                                            && lost == if old(Drained()) then {} else old(lost)
                else rowbufSize == None
    {
      failure := None;
      if Drained() {
        failure := Refill(ok);
      }
    }

    method Refill(ok: bool) returns (failure: Option<Failure>)
      requires Valid() && Drained()
      modifies this`endOfFetch, this`at, this`handles, this`lost, this`rowbufSize, this`rowbufIndex
      ensures Valid()
      ensures Position() == if BatchSize() > 0 || failure.Some? then old(Position()) else |rows|
      ensures failure == if old(!endOfFetch) && !(executed && ok) then Some(OciError) else None
      ensures fetchArraySize == None ==> at <= old(at) + 1
      ensures failure == None ==>
                if Position() < |rows| then rowbufSize.Some? && rowbufIndex < rowbufSize.value && lost == {}
                else rowbufSize == None
    {
      var n;
      n, failure := StmtFetch(BatchSize(), ok);
      if failure == None {
        SetRowbuf(n, old(handles), old(at));
      }
    }

    /** The batch that __fetch reports is in the buffers. */
    method SetRowbuf(n: Option<nat>, ghost was: seq<Option<Define>>, ghost p: nat)
      requires Sized() && at <= |rows| && (forall row :: row in rows ==> |row| == columns)
      requires (endOfFetch || n == None ==> at == |rows| || BatchSize() == 0) && (executed ==> metadata > 0)
      requires n.Some? ==> metadata > 0 && lost == {} && 0 < n.value <= BatchSize() && at == p + n.value
      requires n.Some? ==>
                 |was| == columns
                 && forall c :: 0 <= c < columns ==> was[c].Some? && |was[c].value.buffer| == BatchSize()
      requires n.Some? ==> handles == Loaded(was, rows, p, n.value)
      modifies this`rowbufSize, this`rowbufIndex
      ensures Valid() && rowbufSize == n && rowbufIndex == 0
    {
      rowbufSize, rowbufIndex := n, 0;
      if n.Some? {
        forall c | 0 <= c < |handles| ensures Holds(c) {
          assert handles[c].value == Filled(was[c].value, rows, c, p, n.value);
        }
      }
    }

    /** The values of the current row, one get_data for each column. */
    method GetData() returns (r: Fetched)
      requires Valid() && rowbufSize.Some? && rowbufIndex < rowbufSize.value
      ensures 0 <= Position() < |rows| && r == Row(Cells(rows[Position()], lost))
    {
      var cells: seq<Option<Value>>, c := [], 0;
      ghost var row := rows[Position()];
      while c < |handles|
        invariant 0 <= c <= |handles| && cells == Cells(row, lost)[..c]
      {
        assert Holds(c);
        if rowbufIndex >= handles[c].value.maxarSz { return Raised(IndexTooBig); }
        cells := cells + [handles[c].value.buffer[rowbufIndex]];
        c := c + 1;
      }
      r := Row(cells);
    }

    /**
     * fetch_one_row_as_array: each row of the result once and in order, whatever the size of a batch, and nil from
     * then on until the next exec; but nil at once if a batch has no rows. A column is missing in a row exactly if it
     * was defined since the row was fetched.
     */
    method FetchRow(ok: bool) returns (r: Fetched)
      requires Valid()
      modifies this`endOfFetch, this`at, this`handles, this`lost, this`rowbufSize, this`rowbufIndex
      ensures Valid()
      ensures r.Raised? <==> old(Drained() && !endOfFetch) && !(executed && ok)
      ensures r.Raised? ==> r.reason == OciError && Position() == old(Position())
      ensures fetchArraySize == None ==> at <= old(at) + 1
      ensures !r.Raised? && old(Position()) < |rows| && BatchSize() > 0 ==>
                && 0 <= old(Position()) && Position() == old(Position()) + 1
                && r == Row(Cells(rows[old(Position())], lost)) && lost == (if old(Drained()) then {} else old(lost))
                && |r.cells| == columns
                && forall c :: 0 <= c < columns ==>
                     r.cells[c] == if c in lost then None else Some(rows[old(Position())][c])
      ensures !r.Raised? && (old(Position()) >= |rows| || BatchSize() == 0) ==> r == Nil && Position() == |rows|
    {
      var failure := FetchBatch(ok);
      if failure.Some? { return Raised(failure.value); }
      if rowbufSize == None { return Nil; }
      r := GetData();
      if r.Row? { Advance(); }
    }

    method Advance()
      requires Valid() && rowbufSize.Some? && rowbufIndex < rowbufSize.value
      modifies this`rowbufIndex
      ensures Valid() && rowbufIndex == old(rowbufIndex) + 1
    {
      rowbufIndex := rowbufIndex + 1;
      forall i | 0 <= i < |handles| ensures Holds(i) {
        assert old(Holds(i));
      }
    }

    /**
     * fetch with a block, after exec: every row of the result, once and in order, if and only if there is none or a
     * batch has rows; otherwise none at all.
     */
    method FetchAll() returns (all: seq<seq<Option<Value>>>)
      requires Valid() && executed && Drained() && Position() == 0
      modifies this`endOfFetch, this`at, this`handles, this`lost, this`rowbufSize, this`rowbufIndex
      ensures Valid() && Position() == |rows|
      ensures if BatchSize() == 0 then all == []
              else |all| == |rows| && forall i :: 0 <= i < |all| ==>
                     |all[i]| == columns && forall c :: 0 <= c < columns ==> all[i][c] == Some(rows[i][c])
    {
      all := [];
      var r := FetchRow(true);
      while r.Row?
        invariant Valid() && !r.Raised? && (BatchSize() == 0 ==> r == Nil && all == [])
        invariant if r.Row? then Position() == |all| + 1 <= |rows| && r.cells == Cells(rows[|all|], {})
                  else Position() == |rows| && (BatchSize() > 0 ==> |all| == |rows|)
        invariant r.Row? ==> lost == {}
        invariant forall i :: 0 <= i < |all| ==> all[i] == Cells(rows[i], {})
        decreases |rows| - |all|
      {
        all := all + [r.cells];
        r := FetchRow(true);
      }
    }
  }

  /** Nothing to prefetch, and a column that is fetched in arrays: the result has a row, and a fetch gives none. */
  method NoRows() returns (c: Cursor, all: seq<seq<Option<Value>>>)
    ensures c.rows == [[7]] && all == []
  {
    c := new Cursor(1, 0);
    var raised := c.Exec([[7]], true, true);
    all := c.FetchAll();
  }
}
