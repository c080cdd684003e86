/** Reading a LOB in pieces of growing size, and the pieces' protection from the temporary-LOB queue. */
module LobRead {
  import opened Basics

  /** The bytes of one character; a character of a BLOB or a BFILE is one byte. */
  type Char = c: seq<Byte> | 1 <= |c| <= 512 witness [0]

  const UB4MAXVAL := 0xffff_ffff
  const BUFFER_LIMIT := 128 * 1024 * 1024

  function Flatten(parts: seq<seq<Byte>>): seq<Byte> {
    if parts == [] then [] else parts[0] + Flatten(parts[1..])
  }

  lemma {:induction false} FlattenSum(a: seq<seq<Byte>>, b: seq<seq<Byte>>)
    ensures Flatten(a + b) == Flatten(a) + Flatten(b)
  {
    if a == [] {
      assert a + b == b;
    } else {
      assert (a + b)[1..] == a[1..] + b;
      FlattenSum(a[1..], b);
    }
  }

  /** No piece is empty unless it has no characters, and bytes count the characters of a BLOB. */
  lemma {:induction false} FlattenSize(piece: seq<Char>)
    ensures |Flatten(piece)| >= |piece|
    ensures (forall c :: c in piece ==> |c| == 1) ==> |Flatten(piece)| == |piece|
    ensures |piece| == 1 ==> Flatten(piece) == piece[0]
  {
    if piece != [] {
      FlattenSize(piece[1..]);
    }
  }

  function Min(a: nat, b: nat): nat {
    if a <= b then a else b
  }

  /** Where a read ends that starts at a position; without a size it goes to the end. */
  function End(content: seq<Char>, from: nat, size: Option<nat>): nat {
    match size case None => |content| case Some(n) => Min(from + n, |content|)
  }

  /** The bytes from a position up to the end of the read. */
  function Wanted(content: seq<Char>, from: nat, size: Option<nat>): seq<Byte> {
    var end := End(content, from, size);
    if from < end then Flatten(content[from..end]) else []
  }

  /** Where the position is after a read. */
  function After(content: seq<Char>, from: nat, size: Option<nat>): nat {
    var end := End(content, from, size);
    if from < end then end else from
  }

  /** What reads of these sizes give, one after the other. */
  function Reads(content: seq<Char>, from: nat, sizes: seq<nat>): seq<Byte>
    decreases |sizes|
  {
    if sizes == [] then []
    else Wanted(content, from, Some(sizes[0])) + Reads(content, After(content, from, Some(sizes[0])), sizes[1..])
  }

  function Total(sizes: seq<nat>): nat {
    if sizes == [] then 0 else sizes[0] + Total(sizes[1..])
  }

  /** Reading in steps, of whatever sizes, gives what one read of their total gives. */
  lemma {:induction false} ReadsAgree(content: seq<Char>, from: nat, sizes: seq<nat>)
    ensures Reads(content, from, sizes) == Wanted(content, from, Some(Total(sizes)))
    decreases |sizes|
  {
    if sizes != [] {
      ReadsAgree(content, After(content, from, Some(sizes[0])), sizes[1..]);
      TwoReads(content, from, sizes[0], Total(sizes[1..]));
    }
  }

  lemma TwoReads(content: seq<Char>, from: nat, n: nat, rest: nat)
    ensures Wanted(content, from, Some(n)) + Wanted(content, After(content, from, Some(n)), Some(rest))
         == Wanted(content, from, Some(n + rest))
  {
    var mid, end := After(content, from, Some(n)), End(content, from, Some(n + rest));
    if from < mid < end {
      assert content[from..end] == content[from..mid] + content[mid..end];
      FlattenSum(content[from..mid], content[mid..end]);
    }
  }

  datatype Status = Success | NeedData | Error | Thrown   // Thrown: the call wrapper raises before it calls OCI

  /** What happens on the connection while a LOB is read. */
  datatype Event = FreeTemporaries | Piece(status: Status)

  predicate EndsOpen(log: seq<Event>) {
    log != [] && log[|log| - 1] == Piece(NeedData)
  }

  /** Between a piece that asks for more and the next piece no temporary LOB is freed. */
  predicate Undisturbed(log: seq<Event>) {
    forall i :: 0 <= i < |log| - 1 && log[i] == Piece(NeedData) ==> log[i + 1].Piece?
  }

  /**
   * What is decided outside about one call: whether temporary LOBs are queued, whether the call wrapper raises before
   * it calls OCI, whether OCI fails, and how many characters it sends if the buffer and the request have room for them.
   */
  datatype Answer = Answer(queued: bool, raises: bool, fails: bool, sent: nat)

  /** OCI sends at least one character, and no more than fits. */
  function Fitting(content: seq<Char>, at: nat, until: nat, size: nat, sent: nat): (n: nat)
    requires at < until <= |content| && size >= 512
    ensures 1 <= n <= until - at && |Flatten(content[at..at + n])| <= size
  {
    assert Flatten(content[at..at + 1]) == content[at] + [];
    if 1 <= sent <= until - at && |Flatten(content[at..at + sent])| <= size then sent else 1
  }

  /** The status of one call, and where OCI is after it. */
  function Called(a: Answer, content: seq<Char>, at: nat, until: nat, size: nat): (Status, nat)
    requires until <= |content| && size >= 512
  {
    if a.raises then (Thrown, at)
    else if a.fails then (Error, at)
    else if at >= until then (Success, at)
    else
      var to := at + Fitting(content, at, until, size, a.sent);
      (if to == until then Success else NeedData, to)
  }

  /** The connection as far as a read is concerned. */
  class Service {
    const plan: nat -> Answer   // by the number of the call
    var calls: nat
    var suppress: bool
    var at: nat                 // what OCI has still to send of the current request
    var until: nat
    var log: seq<Event>

    constructor (plan: nat -> Answer)
      ensures Valid() && log == [] && calls == 0 && this.plan == plan
    {
      this.plan, calls := plan, 0;
      suppress, at, until, log := false, 0, 0, [];
    }

    /** The flag is set exactly while OCI waits to be asked for the rest of a request. */
    ghost predicate Valid()
      reads this`suppress, this`log
    {
      Undisturbed(log) && (suppress <==> EndsOpen(log))
    }

    /** oci8_call_without_gvl on its way in, as far as the temporary LOBs are concerned. */
    method Enter(queued: bool)
      requires Valid()
      modifies this`log
      ensures Valid() && log == if queued && !suppress then old(log) + [FreeTemporaries] else old(log)
    {
      if !suppress && queued {
        log := log + [FreeTemporaries];
      }
    }

    /** OCI sends the next characters of the request. */
    method Send(content: seq<Char>, size: nat, a: Answer) returns (status: Status, piece: seq<Char>)
      requires at < until <= |content| && size >= 512 && !a.raises && !a.fails
      modifies this`at
      ensures (status, at) == Called(a, content, old(at), until, size)
      ensures old(at) < at <= until && (status == Success <==> at == until) && (status == NeedData <==> at < until)
      ensures piece == content[old(at)..at] && |Flatten(piece)| <= size
    {
      var n := Fitting(content, at, until, size, a.sent);
      piece := content[at..at + n];
      at := at + n;
      status := if at == until then Success else NeedData;
    }

    /** What OCI does in a call. */
    method Serve(content: seq<Char>, first: bool, pos: nat, amount: nat, size: nat, a: Answer,
                 ghost from: nat, ghost end: nat)
      returns (status: Status, piece: seq<Char>)
      requires size >= 512 && end <= |content| && !a.raises
      requires if first then from == pos && end == End(content, pos, Some(amount)) else from == at < until == end
      modifies this`at, this`until
      ensures status == Called(a, content, from, end, size).0 && |Flatten(piece)| <= size
      ensures status == Success ==> piece == if from < end then content[from..end] else []
      ensures status == NeedData ==>
                && from < at < until == end && piece == content[from..at]
                && at == Called(a, content, from, end, size).1
      ensures status == Error ==> piece == []
    {
      status, piece := Error, [];
      if !a.fails {
        if first {
          at, until := pos, End(content, pos, Some(amount));
        }
        status := Success;
        if at < until {
          status, piece := Send(content, size, a);
        }
      }
    }

    /**
     * OCILobRead2_nb. The wrapper frees queued temporary LOBs unless it is told not to. OCI sends at most a buffer
     * full, and asks for another call exactly if something of the request is left: from and end bound that.
     */
    method Call(content: seq<Char>, first: bool, pos: nat, amount: nat, size: nat, ghost from: nat, ghost end: nat)
      returns (status: Status, piece: seq<Char>)
      requires Valid() && size >= 512
      requires if first then from == pos && end == End(content, pos, Some(amount)) else from == at < until == end
      requires end <= |content|
      modifies this`calls, this`at, this`until, this`log
      ensures calls == old(calls) + 1 && status == Called(plan(old(calls)), content, from, end, size).0
      ensures Undisturbed(log) && (if status == Thrown then Valid() else EndsOpen(log) <==> status == NeedData)
      ensures log == old(log) + (if plan(old(calls)).queued && !suppress then [FreeTemporaries] else [])
                     + (if plan(old(calls)).raises then [] else [Piece(status)])
      ensures |Flatten(piece)| <= size
      ensures status == Success ==> piece == if from < end then content[from..end] else []
      ensures status == NeedData ==>
                && from < at < until == end && piece == content[from..at]
                && at == Called(plan(old(calls)), content, from, end, size).1
      ensures status == Error || status == Thrown ==> piece == []
    {
      var a := plan(calls);
      calls := calls + 1;
      status, piece := Thrown, [];
      Enter(a.queued);
      if a.raises { return; }
      status, piece := Serve(content, first, pos, amount, size, a, from, end);
      log := log + [Piece(status)];
    }
  }

  // How a read comes out, from the answers to its calls

  /** An exception of the wrapper leaves the flag open if OCI was waiting for the next piece. */
  datatype Fate = Done | Failed | Raises(open: bool)

  function Grown(size: nat): nat {
    if size < BUFFER_LIMIT then size * 2 else size
  }

  /** One request from call k on: how it comes out, the number of the next call, and the size of the next buffer. */
  function Request(plan: nat -> Answer, k: nat, content: seq<Char>, at: nat, until: nat, size: nat, open: bool):
    (r: (Fate, nat, nat))
    requires until <= |content| && size >= 512
    ensures r.2 >= size
    decreases if at < until then until - at else 0
  {
    match Called(plan(k), content, at, until, size)
    case (Thrown, _) => (Raises(open), k + 1, size)
    case (Error, _) => (Failed, k + 1, size)
    case (Success, _) => (Done, k + 1, if at < until then Grown(size) else size)
    case (NeedData, to) => Request(plan, k + 1, content, to, until, Grown(size), true)
  }

  /** The amount of one request. */
  function Amount(size: Option<nat>): nat {
    match size case None => UB4MAXVAL case Some(n) => n
  }

  /** A whole read from call k on. Without a size a request that was filled is followed by another one. */
  function FateOf(plan: nat -> Answer, k: nat, content: seq<Char>, pos: nat, size: Option<nat>, room: nat, open: bool):
    Fate
    requires room >= 512
    decreases if pos < |content| then |content| - pos else 0
  {
    var until := End(content, pos, Some(Amount(size)));
    var (fate, next, room') := Request(plan, k, content, pos, until, room, open);
    if fate == Done && size == None && until == pos + UB4MAXVAL
    then FateOf(plan, next, content, until, size, room', false)
    else fate
  }

  /** What a read gives: data, nil, or an exception. */
  datatype Result = Data(bytes: seq<Byte>) | Nil | Raised(inWrapper: bool)

  class Lob {
    const content: seq<Char>
    const clob: bool
    const service: Service
    var pos: nat

    constructor (content: seq<Char>, clob: bool, service: Service)
      requires clob || forall c :: c in content ==> |c| == 1
      ensures Valid() && this.content == content && this.service == service && pos == 0
    {
      this.content, this.clob, this.service, pos := content, clob, service, 0;
    }

    ghost predicate Valid() {
      clob || forall c :: c in content ==> |c| == 1
    }

    /** The pieces read so far are the content between two positions. */
    ghost predicate Got(from: nat, to: nat, parts: seq<seq<Byte>>) {
      && from <= to && (parts == [] <==> from == to)
      && (from < to ==> to <= |content| && Flatten(parts) == Flatten(content[from..to]))
    }

    /** A read from a position is over. */
    ghost predicate Complete(from: nat, to: nat, size: Option<nat>) {
      to == End(content, from, size) || (to == from && to >= End(content, from, size))
    }

    /** What the amounts of a piece say: its characters for a CLOB, its bytes, which are as many, otherwise. */
    lemma PieceSize(piece: seq<Char>, to: nat)
      requires Valid() && (piece == [] || (to + |piece| <= |content| && piece == content[to..to + |piece|]))
      ensures |Flatten(piece)| == 0 <==> piece == []
      ensures !clob ==> |Flatten(piece)| == |piece|
    {
      FlattenSize(piece);
    }

    lemma Extend(from: nat, to: nat, parts: seq<seq<Byte>>, n: nat)
      requires Got(from, to, parts) && to < n <= |content|
      ensures Got(from, n, parts + [Flatten(content[to..n])])
    {
      var bytes := Flatten(content[to..n]);
      assert Flatten(parts + [bytes]) == Flatten(parts) + bytes by {
        FlattenSum(parts, [bytes]);
        assert Flatten([bytes]) == bytes + [];
      }
      assert Flatten(content[from..n]) == Flatten(content[from..to]) + bytes by {
        FlattenSum(content[from..to], content[to..n]);
        assert content[from..n] == content[from..to] + content[to..n];
      }
    }

    /** One call of the loop, and the flag that keeps the next one from freeing temporary LOBs. */
    method NextPiece(first: bool, p: nat, sz: nat, size: nat, ghost end: nat) returns (status: Status, piece: seq<Char>)
      requires service.Valid() && size >= 512 && end <= |content|
      requires if first then end == End(content, p, Some(sz)) else p == service.at < service.until == end
      modifies service
      ensures service.Valid()
      ensures service.suppress <==> if status == Thrown then old(service.suppress) else status == NeedData
      ensures Request(service.plan, old(service.calls), content, p, end, size, old(service.suppress))
           == match status
              case Thrown => (Raises(service.suppress), service.calls, size)
              case Error => (Failed, service.calls, size)
              case Success => (Done, service.calls, if piece == [] then size else Grown(size))
              case NeedData => Request(service.plan, service.calls, content, service.at, end, Grown(size), true)
      ensures |Flatten(piece)| <= size
      ensures status == Success ==> piece == if p < end then content[p..end] else []
      ensures status == NeedData ==>
                p < service.at < service.until == end && piece == content[p..service.at]
      ensures piece == [] || (p + |piece| <= |content| && piece == content[p..p + |piece|])
    {
      status, piece := service.Call(content, first, p, sz, size, p, end);
      if status != Thrown {
        service.suppress := false;
        if status == NeedData {
          service.suppress := true;
        }
      }
    }

    /** The do-while loop of oci8_lob_read: one request of at most sz characters from the position on. */
    method ReadRequest(sz: nat, parts0: seq<seq<Byte>>, bufferSize0: nat, ghost from: nat)
      returns (status: Status, p: nat, parts: seq<seq<Byte>>, bufferSize: nat)
      requires Valid() && service.Valid() && bufferSize0 >= 512 && Got(from, pos, parts0)
      modifies service
      ensures service.Valid() && bufferSize >= 512 && status != NeedData
      ensures status == Success ==> Got(from, p, parts) && Complete(pos, p, Some(sz))
      ensures status != Thrown ==> !service.suppress
      ensures var (fate, next, room) := Request(service.plan, old(service.calls), content, pos,
                                                End(content, pos, Some(sz)), bufferSize0, old(service.suppress));
              if status == Success then fate == Done && next == service.calls && room == bufferSize
              else if status == Error then fate == Failed
              else fate == Raises(service.suppress)
    {
      p, parts, bufferSize := pos, parts0, bufferSize0;
      var first := true;
      status := NeedData;
      ghost var end := End(content, pos, Some(sz));
      ghost var all := Request(service.plan, service.calls, content, pos, end, bufferSize0, service.suppress);
      while status == NeedData
        invariant Got(from, p, parts) && pos <= p && bufferSize >= 512 && service.Valid()
        invariant status == NeedData || (status == Success && !service.suppress && Complete(pos, p, Some(sz)))
        invariant status == NeedData ==> if first then p == pos else p == service.at < service.until == end
        invariant all == if status == Success then (Done, service.calls, bufferSize)
                         else Request(service.plan, service.calls, content, p, end, bufferSize, service.suppress)
        decreases |content| - p
      {
        var piece;
        status, piece := NextPiece(first, p, sz, bufferSize, end);
        if status == Thrown || status == Error { return; }
        first := false;
        var empty;
        empty, p, parts, bufferSize := Keep(piece, p, parts, bufferSize, from);
        if empty { return; }
      }
    }

    /** What the loop does with a piece. */
    method Keep(piece: seq<Char>, p: nat, parts: seq<seq<Byte>>, bufferSize: nat, ghost from: nat)
      returns (empty: bool, p': nat, parts': seq<seq<Byte>>, bufferSize': nat)
      requires Valid() && Got(from, p, parts) && bufferSize >= 512
      requires piece == [] || (p + |piece| <= |content| && piece == content[p..p + |piece|])
      ensures (empty <==> piece == []) && p' == p + |piece| && Got(from, p', parts')
      ensures bufferSize' == if empty then bufferSize else Grown(bufferSize)
    {
      var bytes := Flatten(piece);
      PieceSize(piece, p);
      empty, p', parts', bufferSize' := |bytes| == 0, p, parts, bufferSize;
      if !empty {
        Extend(from, p, parts, p + |piece|);
        p' := p + if clob then |piece| else |bytes|;
        parts' := parts + [bytes];
        if bufferSize < BUFFER_LIMIT { bufferSize' := bufferSize * 2; }
      }
    }

    /** oci8_lob_read on an open LOB; no size is read(nil). */
    method Read(size: Option<nat>) returns (r: Result)
      requires Valid() && service.Valid()
      modifies this`pos, service
      ensures service.Valid()
      ensures !r.Raised? ==> pos == After(content, old(pos), size)
      ensures !r.Raised? ==>
                pos == if |content| <= old(pos) then old(pos)
                       else if size == None || |content| < old(pos) + size.value then |content|
                       else old(pos) + size.value
      ensures !r.Raised? && old(pos) < pos ==> r == Data(Flatten(content[old(pos)..pos]))
      ensures !r.Raised? ==>
                r == if old(pos) < End(content, old(pos), size) then Data(Wanted(content, old(pos), size))
                     else if size == None && old(pos) == 0 then Data([])
                     else Nil
      ensures r.Raised? ==> old(pos) <= pos && (pos == old(pos) || (size == None && pos <= |content|))
      ensures service.suppress <==> r == Raised(true) && EndsOpen(service.log)
      ensures match FateOf(service.plan, old(service.calls), content, old(pos), size, 512, old(service.suppress))
              case Done => !r.Raised? && !service.suppress
              case Failed => r == Raised(false) && !service.suppress
              case Raises(open) => r == Raised(true) && (service.suppress <==> open)
    {
      var sz := Amount(size);
      var p: nat, bufferSize := pos, 512;
      var parts: seq<seq<Byte>> := [];
      var again := true;
      ghost var fate := FateOf(service.plan, service.calls, content, pos, size, 512, service.suppress);
      while again
        invariant old(pos) <= pos && (size.Some? ==> pos == old(pos)) && (pos == old(pos) || pos <= |content|)
        invariant service.Valid() && (again || !service.suppress) && bufferSize >= 512
        invariant Got(old(pos), p, parts)
        invariant if again then p == pos else Complete(old(pos), p, size)
        invariant fate == if !again then Done
                          else FateOf(service.plan, service.calls, content, pos, size, bufferSize, service.suppress)
        decreases again, |content| - pos
      {
        again := false;
        var status;
        status, p, parts, bufferSize := ReadRequest(sz, parts, bufferSize, old(pos));
        if status != Success { return Raised(status == Thrown); }
        if size == None && p - pos == sz {
          pos, again := p, true;
        }
      }
      pos := p;
      if parts == [] {
        r := if size == None && p == 0 then Data([]) else Nil;
      } else {
        r := Data(Flatten(parts));
      }
    }
  }

  /** One piece has come, and the wrapper raises before it asks for the next: the flag stays set after the read. */
  method LeavesFlagSet() returns (r: Result, service: Service)
    ensures r == Raised(true) && service.Valid() && service.suppress && EndsOpen(service.log)
  {
    service := new Service(k => Answer(true, k == 1, false, 1));
    var lob := new Lob([[1], [2]], false, service);
    assert Called(service.plan(0), lob.content, 0, 2, 512) == (NeedData, 1);
    assert Request(service.plan, 1, lob.content, 1, 2, 1024, true).0 == Raises(true);
    assert Request(service.plan, 0, lob.content, 0, 2, 512, false).0 == Raises(true);
    r := lob.Read(Some(2));
  }
}
