/** LONG and LONG RAW bind buffers: a reusable chunk list moved piecewise by OCI callbacks. */
module ChunkBuffer {
  import opened Basics

  const UB4_RANGE := 0x1_0000_0000

  /** Size of the chunk allocated after one of size alloc_len: doubled in 32 bits, then capped. */
  function GrownSize(allocLen: nat, max: nat): nat {
    var doubled := allocLen * 2 % UB4_RANGE;
    if doubled > max then max else doubled
  }

  /** The chunk sizes that can be set. */
  predicate Setting(n: int) {
    0 < n < UB4_RANGE
  }

  /** The size of the chunk that would be linked behind chunks of these sizes. */
  function NextSize(sizes: seq<nat>, initial: nat, max: nat): nat {
    if sizes == [] then initial else GrownSize(sizes[|sizes| - 1], max)
  }

  function Concat(pieces: seq<seq<Byte>>): seq<Byte> {
    if pieces == [] then [] else Concat(pieces[..|pieces| - 1]) + pieces[|pieces| - 1]
  }

  lemma OneMore(pieces: seq<seq<Byte>>, i: nat)
    requires i < |pieces|
    ensures Concat(pieces[..i]) + pieces[i] == Concat(pieces[..i + 1])
  {
    assert pieces[..i + 1][..i] == pieces[..i];
  }

  lemma TakeMore(s: seq<Byte>, i: nat, n: nat)
    requires i + n <= |s|
    ensures s[..i] + s[i..i + n] == s[..i + n]
  {}

  /** A chunk carries its bytes in itself, so they are a field and not an object of their own. */
  class Chunk {
    const allocLen: nat
    ghost const index: nat   // its position in the list
    var next: Chunk?
    var usedLen: nat
    var buf: seq<Byte>

    constructor (allocLen: nat, ghost index: nat)
      ensures this.allocLen == allocLen && next == null && usedLen == 0 && |buf| == allocLen && this.index == index
    {
      this.allocLen := allocLen;
      this.index := index;
      next := null;
      usedLen := 0;
      buf := seq(allocLen, _ => 0);
    }

    ghost predicate Sound()
      reads this`usedLen, this`buf
    {
      usedLen <= allocLen == |buf|
    }

    function Bytes(): seq<Byte>
      reads this`usedLen, this`buf
    {
      if usedLen <= |buf| then buf[..usedLen] else buf
    }

    /** memcpy into the chunk. */
    method Store(data: seq<Byte>)
      requires Sound() && |data| <= allocLen
      modifies this`buf, this`usedLen
      ensures Sound() && Bytes() == data
    {
      buf := data + buf[|data|..];
      usedLen := |data|;
    }
  }

  function SizesOf(chunks: seq<Chunk>): seq<nat> {
    seq(|chunks|, i requires 0 <= i < |chunks| => chunks[i].allocLen)
  }

  ghost function BytesOf(chunks: seq<Chunk>): (s: seq<seq<Byte>>)
    reads chunks
    ensures |s| == |chunks| && forall i :: 0 <= i < |s| ==> s[i] == chunks[i].Bytes()
  {
    seq(|chunks|, i requires 0 <= i < |chunks| reads chunks => chunks[i].Bytes())
  }

  /** The list is the same, or it has one more chunk of the size that is next. */
  ghost predicate Grew(was: seq<Chunk>, now: seq<Chunk>, initial: nat, max: nat) {
    || now == was
    || (|now| == |was| + 1 && was == now[..|was|] && now[|was|].allocLen == NextSize(SizesOf(was), initial, max))
  }

  /** The address of a chunk pointer: that of the head, or of a chunk's next field. */
  datatype Link = HeadLink | NextLink(chunk: Chunk)

  datatype Piece = OnePiece | FirstPiece | NextPiece | LastPiece

  class ChunkBuf {
    var head: Chunk?
    var tail: Link
    var inpos: Link

    ghost var chunks: seq<Chunk>   // every chunk of the list, in order
    ghost var used: nat            // how many of them precede the tail
    ghost var sent: nat            // how many of them precede inpos
    ghost var pieces: seq<seq<Byte>>   // the bytes of the used chunks

    ghost function At(i: nat): Chunk?
      reads this`chunks
    {
      if i < |chunks| then chunks[i] else null
    }

    ghost function LinkAt(i: nat): Link
      reads this`chunks
      requires i <= |chunks|
    {
      if i == 0 then HeadLink else NextLink(chunks[i - 1])
    }

    /** Chunk i is linked to the next one, and while it is in use its bytes are piece i of the value. */
    ghost predicate Placed(i: nat)
      reads this`chunks, this`used, this`pieces, chunks
      requires i < |chunks| && |pieces| == used
    {
      && chunks[i].index == i && chunks[i].Sound() && chunks[i].next == At(i + 1)
      && (i < used ==> pieces[i] == chunks[i].Bytes())
    }

    ghost predicate Valid()
      reads this, chunks
    {
      && used <= |chunks| && sent <= |chunks| && |pieces| == used
      && head == At(0) && tail == LinkAt(used) && inpos == LinkAt(sent)
      && forall i {:trigger Placed(i)} :: 0 <= i < |chunks| ==> Placed(i)
    }

    /** The value held: the bytes of the used chunks. Spare chunks are invisible. */
    ghost function Contents(): seq<Byte>
      reads this`pieces
    {
      Concat(pieces)
    }

    /** The bytes of all chunks, of the used ones and of the spare ones. */
    ghost function AllBytes(): seq<seq<Byte>>
      reads this`chunks, chunks
    {
      BytesOf(chunks)
    }

    /** The used chunks hold the value. */
    lemma UsedBytes()
      requires Valid()
      ensures AllBytes()[..used] == pieces
    {
      forall i | 0 <= i < used ensures AllBytes()[i] == pieces[i] {
        assert Placed(i);
      }
    }

    /** bind_long_init_elem */
    constructor ()
      ensures Valid() && chunks == [] && used == 0 && sent == 0 && Contents() == []
    {
      head, tail, inpos := null, HeadLink, HeadLink;
      chunks, used, sent, pieces := [], 0, 0, [];
    }

    /** The chunk a link points to. */
    function Target(l: Link): Chunk?
      reads this, if l.NextLink? then {l.chunk} else {}
    {
      if l.HeadLink? then head else l.chunk.next
    }

    /** A link points to the chunk at its position, or to nothing at the end of the list. */
    lemma LinkTarget(i: nat)
      requires Valid() && i <= |chunks|
      ensures Target(LinkAt(i)) == At(i)
      ensures i < |chunks| ==> chunks[i].index == i && chunks[i].Sound()
    {
      if i > 0 {
        assert Placed(i - 1);
      }
      assert i < |chunks| ==> Placed(i);
    }

    /** Links a new chunk at the end of the list. */
    method Append(allocLen: nat) returns (chunk: Chunk)
      requires Valid() && used == |chunks|
      modifies this`head, this`chunks, if chunks == [] then {} else {chunks[|chunks| - 1]}
      ensures Valid() && fresh(chunk) && chunks == old(chunks) + [chunk] && chunk.allocLen == allocLen
      ensures forall c: Chunk :: c in old(chunks) ==> c.usedLen == old(c.usedLen) && c.buf == old(c.buf)
    {
      assert chunks != [] ==> Placed(|chunks| - 1);
      chunk := new Chunk(allocLen, |chunks|);
      if tail == HeadLink {
        head := chunk;
      } else {
        tail.chunk.next := chunk;
      }
      chunks := chunks + [chunk];
      forall i | 0 <= i < |chunks| ensures Placed(i) {
        assert i < |old(chunks)| ==> old(Placed(i));
      }
    }

    /** The chunk after the tail becomes used: a spare one if there is any, else a new one of grown size. */
    method TakeChunk(initial: nat, max: nat) returns (chunk: Chunk)
      requires Valid() && Setting(initial) && Setting(max)
      modifies this, chunks
      ensures Valid() && used == old(used) + 1 && chunk == chunks[used - 1] && sent == old(sent)
      ensures pieces[..old(used)] == old(pieces)
      ensures if old(used) < |old(chunks)| then chunks == old(chunks)
              else chunks == old(chunks) + [chunk] && fresh(chunk)
      ensures Grew(old(chunks), chunks, initial, max)
      ensures forall i :: 0 <= i < |old(chunks)| ==> chunks[i].Bytes() == old(chunks[i].Bytes())
    {
      LinkTarget(used);
      if Target(tail) != null {
        chunk := Target(tail);
      } else {
        var allocLen;
        if head == null {
          allocLen := initial;
        } else {
          assert Placed(used - 1);
          allocLen := tail.chunk.allocLen * 2 % UB4_RANGE;
          if allocLen > max {
            allocLen := max;
          }
        }
        chunk := Append(allocLen);
      }
      Use(chunk);
    }

    /** The tail moves behind the chunk it points to. */
    method Use(chunk: Chunk)
      requires Valid() && used < |chunks| && chunk == chunks[used]
      modifies this`tail, this`used, this`pieces
      ensures Valid() && used == old(used) + 1 && pieces[..old(used)] == old(pieces)
    {
      assert Placed(used);
      tail := NextLink(chunk);
      used, pieces := used + 1, pieces + [chunk.Bytes()];
      forall i | 0 <= i < |chunks| ensures Placed(i) {
        assert old(Placed(i));
      }
    }

    /** memcpy into the last used chunk, by bind_long_set or by OCI through the pointers a callback gave it. */
    method StoreLast(data: seq<Byte>)
      requires Valid() && used > 0 && |data| <= chunks[used - 1].allocLen
      modifies this`pieces, chunks[used - 1]
      ensures Valid() && pieces == old(pieces)[..used - 1] + [data]
      ensures Contents() == Concat(old(pieces)[..used - 1]) + data
    {
      assert Placed(used - 1);
      tail.chunk.Store(data);
      pieces := pieces[..used - 1] + [data];
      forall i | 0 <= i < |chunks| ensures Placed(i) {
        assert old(Placed(i));
      }
    }

    /** The tail goes back to the head; the chunks stay in the list. */
    method Reset()
      requires Valid()
      modifies this`tail, this`used, this`pieces
      ensures Valid() && used == 0 && pieces == []
    {
      tail := HeadLink;
      used, pieces := 0, [];
      forall i | 0 <= i < |chunks| ensures Placed(i) {
        assert old(Placed(i));
      }
    }

    /** The chunks that were in the list but are not in use have the bytes they had. */
    ghost predicate Spared(was: seq<seq<Byte>>)
      reads this, chunks
    {
      |was| <= |chunks| && forall i {:trigger SparedAt(was, i)} :: 0 <= i < |was| ==> SparedAt(was, i)
    }

    ghost predicate SparedAt(was: seq<seq<Byte>>, i: nat)
      reads this, chunks
      requires i < |was| <= |chunks|
    {
      used <= i ==> chunks[i].Bytes() == was[i]
    }

    /** The next chunk takes all that is left, or as much as it can hold. */
    method StoreNext(val: seq<Byte>, buf: nat, len: nat, initial: nat, max: nat, ghost was: seq<seq<Byte>>)
      returns (n: nat, more: bool)
      requires Valid() && Setting(initial) && Setting(max) && Spared(was)
      requires buf + len <= |val| && Contents() == val[..buf]
      modifies this, chunks
      ensures Valid() && sent == old(sent) && used == old(used) + 1 && Grew(old(chunks), chunks, initial, max)
      ensures |chunks| == |old(chunks)| + if old(used) < |old(chunks)| then 0 else 1
      ensures forall i :: |old(chunks)| <= i < |chunks| ==> fresh(chunks[i])
      ensures more <==> chunks[used - 1].allocLen < len
      ensures n == if more then chunks[used - 1].allocLen else len
      ensures Contents() == val[..buf + n] && Spared(was)
    {
      var chunk := TakeChunk(initial, max);
      assert Placed(used - 1);
      more := chunk.allocLen < len;
      n := if more then chunk.allocLen else len;
      StoreSlice(val, buf, n);
      forall i | 0 <= i < |was| ensures SparedAt(was, i) {
        assert old(SparedAt(was, i));
      }
    }

    /** The next bytes of a value go into the last used chunk. */
    method StoreSlice(val: seq<Byte>, buf: nat, n: nat)
      requires Valid() && used > 0 && buf + n <= |val| && n <= chunks[used - 1].allocLen
      requires Concat(pieces[..used - 1]) == val[..buf]
      modifies this`pieces, chunks[used - 1]
      ensures Valid() && Contents() == val[..buf + n]
      ensures forall i :: used <= i < |chunks| ==> chunks[i].Bytes() == old(chunks[i].Bytes())
    {
      TakeMore(val, buf, n);
      StoreLast(val[buf..buf + n]);
      forall i | used <= i < |chunks| ensures chunks[i].Bytes() == old(chunks[i].Bytes()) {
        assert Placed(i) && Placed(used - 1);
      }
    }

    /** One round of the loop of bind_long_set. */
    method SetChunk(val: seq<Byte>, buf: nat, len: nat, initial: nat, max: nat,
                    ghost was: seq<seq<Byte>>, ghost first: seq<Chunk>, ghost needed: nat)
      returns (n: nat, more: bool)
      requires Valid() && Setting(initial) && Setting(max) && Spared(was)
      requires buf + len <= |val| && Contents() == val[..buf]
      requires Laid(first, chunks, initial, max, used) && Needs(len, SizesOf(first), initial, max, used, needed)
      modifies this, chunks
      ensures Valid() && sent == old(sent) && used == old(used) + 1 && old(chunks) <= chunks
      ensures forall i :: |old(chunks)| <= i < |chunks| ==> fresh(chunks[i])
      ensures n <= len && Contents() == val[..buf + n] && Spared(was) && Laid(first, chunks, initial, max, used)
      ensures if more then (n > 0 || used <= |first|) && Needs(len - n, SizesOf(first), initial, max, used, needed)
              else n == len && used == needed
    {
      ghost var before := chunks;
      NextRound(len, SizesOf(first), initial, max, used, needed);
      n, more := StoreNext(val, buf, len, initial, max, was);
      LaidGrows(first, before, chunks, initial, max, used);
    }

    /**
     * bind_long_set: the length is kept in 32 bits. What it asks is that its loop ends, which is exactly that the
     * chunks present and those that would be linked have room for that length, see EndsIffRoom.
     */
    method LongSet(val: seq<Byte>, initial: nat, max: nat)
      requires Valid() && Setting(initial) && Setting(max)
      requires Ends(|val| % UB4_RANGE, SizesOf(chunks), initial, max, 0)
      modifies this, chunks
      ensures Valid() && sent == old(sent) && Laid(old(chunks), chunks, initial, max, used)
      ensures forall i :: |old(chunks)| <= i < |chunks| ==> fresh(chunks[i])
      ensures Contents() == val[..|val| % 0x1_0000_0000]
      ensures used == ChunksFor(|val| % UB4_RANGE, SizesOf(old(chunks)), initial, max, 0)
      ensures Spared(old(AllBytes()))
    {
      ghost var first, was := chunks, AllBytes();
      Reset();
      forall i | 0 <= i < |was| ensures SparedAt(was, i) {
      }
      SetAll(val, |val| % UB4_RANGE, initial, max, was, first);
    }

    /** The loop of bind_long_set */
    method SetAll(val: seq<Byte>, total: nat, initial: nat, max: nat,
                  ghost was: seq<seq<Byte>>, ghost first: seq<Chunk>)
      requires Valid() && Setting(initial) && Setting(max) && total <= |val| && used == 0 && pieces == []
      requires Ends(total, SizesOf(chunks), initial, max, 0) && first == chunks && Spared(was)
      modifies this, chunks
      ensures Valid() && sent == old(sent) && Laid(first, chunks, initial, max, used)
      ensures forall i :: |first| <= i < |chunks| ==> fresh(chunks[i])
      ensures Contents() == val[..total] && used == ChunksFor(total, SizesOf(first), initial, max, 0) && Spared(was)
    {
      ghost var needed := ChunksFor(total, SizesOf(first), initial, max, 0);
      var buf, len, more := 0, total, true;
      while more
        invariant Valid() && sent == old(sent) && first <= chunks
        invariant forall i :: |first| <= i < |chunks| ==> fresh(chunks[i])
        invariant Spared(was) && Laid(first, chunks, initial, max, used)
        invariant 0 <= buf && 0 <= len && buf + len == total && Contents() == val[..buf]
        invariant if more then Needs(len, SizesOf(first), initial, max, used, needed) else len == 0 && used == needed
        decreases more, len, |first| - used
      {
        var n;
        n, more := SetChunk(val, buf, len, initial, max, was, first, needed);
        len := len - n;
        buf := buf + n;
      }
    }

    /** bind_long_get: walks from the head to the chunk the tail points to. */
    method LongGet() returns (str: seq<Byte>)
      requires Valid()
      ensures str == Contents()
    {
      LinkTarget(used);
      var end := Target(tail);
      var chunk := head;
      ghost var i := 0;
      str := [];

      while chunk != end
        invariant 0 <= i <= used && chunk == At(i) && str == Concat(pieces[..i])
        decreases used - i
      {
        assert Placed(i);
        OneMore(pieces, i);
        str := str + chunk.Bytes();
        chunk := chunk.next;
        i := i + 1;
      }
      LinkTarget(i);
      assert pieces[..used] == pieces;
    }

    /** The next chunk with all its room, for OCI to write into. */
    method Offer(initial: nat, max: nat) returns (chunk: Chunk)
      requires Valid() && Setting(initial) && Setting(max)
      modifies this, chunks
      ensures Valid() && sent == old(sent) && Grew(old(chunks), chunks, initial, max)
      ensures forall i :: |old(chunks)| <= i < |chunks| ==> fresh(chunks[i])
      ensures used == old(used) + 1 && chunk == chunks[used - 1] && chunk.usedLen == chunk.allocLen
      ensures pieces[..used - 1] == old(pieces)
    {
      chunk := TakeChunk(initial, max);
      OfferAll(chunk);
    }

    /** The whole room of the last used chunk counts as used until OCI says how much it wrote. */
    method OfferAll(chunk: Chunk)
      requires Valid() && used > 0 && chunk == chunks[used - 1]
      modifies chunk`usedLen, this`pieces
      ensures Valid() && chunk.usedLen == chunk.allocLen && pieces[..used - 1] == old(pieces)[..used - 1]
    {
      assert Placed(used - 1);
      chunk.usedLen := chunk.allocLen;
      pieces := pieces[..used - 1] + [chunk.Bytes()];
      forall i | 0 <= i < |chunks| ensures Placed(i) {
        assert old(Placed(i));
      }
    }

    /** define_callback: the first piece starts over. */
    method DefineCallback(piece: Piece, initial: nat, max: nat) returns (chunk: Chunk)
      requires Valid() && Setting(initial) && Setting(max)
      modifies this, chunks
      ensures Valid() && sent == old(sent) && Grew(old(chunks), chunks, initial, max)
      ensures forall i :: |old(chunks)| <= i < |chunks| ==> fresh(chunks[i])
      ensures used == (if piece == FirstPiece then 1 else old(used) + 1)
      ensures chunk == chunks[used - 1] && chunk.usedLen == chunk.allocLen
      ensures pieces[..used - 1] == if piece == FirstPiece then [] else old(pieces)
    {
      if piece == FirstPiece {
        Reset();
      }
      chunk := Offer(initial, max);
    }

    /** out_bind_callback: OCI asks for one piece first and is told to deliver several. */
    method OutCallback(piece: Piece, initial: nat, max: nat) returns (chunk: Chunk, piece': Piece)
      requires Valid() && Setting(initial) && Setting(max)
      modifies this, chunks
      ensures Valid() && sent == old(sent) && Grew(old(chunks), chunks, initial, max)
      ensures forall i :: |old(chunks)| <= i < |chunks| ==> fresh(chunks[i])
      ensures used == (if piece == OnePiece then 1 else old(used) + 1)
      ensures chunk == chunks[used - 1] && chunk.usedLen == chunk.allocLen
      ensures pieces[..used - 1] == if piece == OnePiece then [] else old(pieces)
      ensures piece' == if piece == OnePiece then FirstPiece else piece
    {
      piece' := piece;
      if piece == OnePiece {
        piece' := FirstPiece;
        Reset();
      }
      chunk := Offer(initial, max);
    }

    /** One call of the define or the out callback. */
    method Ask(out: bool, first: bool, initial: nat, max: nat) returns (chunk: Chunk)
      requires Valid() && Setting(initial) && Setting(max)
      modifies this, chunks
      ensures Valid() && sent == old(sent) && Grew(old(chunks), chunks, initial, max)
      ensures forall i :: |old(chunks)| <= i < |chunks| ==> fresh(chunks[i])
      ensures used > 0 && chunk == chunks[used - 1]
      ensures Concat(pieces[..used - 1]) == if first then [] else old(Contents())
    {
      if out {
        var answer;
        chunk, answer := OutCallback(if first then OnePiece else NextPiece, initial, max);
      } else {
        chunk := DefineCallback(if first then FirstPiece else NextPiece, initial, max);
      }
    }

    /** OCI delivers as much as it likes of what is left, but something unless nothing is left. */
    method ReceivePiece(out: bool, value: seq<Byte>, done: nat, initial: nat, max: nat) returns (n: nat)
      requires Valid() && Roomy(chunks) && UsableSettings(initial, max)
      requires done <= |value| && (done > 0 ==> done < |value| && Contents() == value[..done])
      modifies this, chunks
      ensures Valid() && Roomy(chunks) && sent == old(sent) && old(chunks) <= chunks
      ensures forall i :: |old(chunks)| <= i < |chunks| ==> fresh(chunks[i])
      ensures done + n <= |value| && (n > 0 || |value| == 0) && Contents() == value[..done + n]
    {
      ghost var was := chunks;
      var chunk := Ask(out, done == 0, initial, max);
      RoomyGrows(was, chunks, initial, max);
      assert UsableSize(chunk.allocLen);
      var most := if chunk.allocLen <= |value| - done then chunk.allocLen else |value| - done;
      n := Choose(most);
      StoreSlice(value, done, n);
    }

    static method Choose(most: nat) returns (n: nat)
      ensures n <= most && (n > 0 || most == 0)
    {
      assert most <= most;
      n :| n <= most && (n > 0 || most == 0);
    }

    /** A completed define or out transfer: OCI delivers the value in pieces that fit the chunks it is given. */
    method Receive(out: bool, value: seq<Byte>, initial: nat, max: nat)
      requires Valid() && Roomy(chunks) && UsableSettings(initial, max)
      modifies this, chunks
      ensures Valid() && Roomy(chunks) && sent == old(sent) && old(chunks) <= chunks
      ensures forall i :: |old(chunks)| <= i < |chunks| ==> fresh(chunks[i])
      ensures Contents() == value
    {
      var done := ReceivePiece(out, value, 0, initial, max);
      while done < |value|
        invariant Valid() && Roomy(chunks) && sent == old(sent) && old(chunks) <= chunks
        invariant forall i :: |old(chunks)| <= i < |chunks| ==> fresh(chunks[i])
        invariant done <= |value| && (done > 0 || |value| == 0) && Contents() == value[..done]
      {
        var n := ReceivePiece(out, value, done, initial, max);
        done := done + n;
      }
      assert value[..|value|] == value;
    }

    /**
     * in_bind_callback: the bytes offered and what kind of piece they are. It faults, that is, it follows a NULL
     * pointer, exactly if the position is at the end of the list.
     */
    method InCallback() returns (fault: bool, bytes: seq<Byte>, piece: Piece)
      requires Valid()
      modifies this`inpos, this`sent
      ensures Valid()
      ensures fault <==> used > 0 && old(sent) == |chunks|
      ensures fault ==> sent == old(sent)
      ensures !fault ==> (piece, sent) == NextAnswer(used, old(sent))
      ensures AllBytes() == old(AllBytes())
      ensures !fault ==> bytes == if used == 0 then [] else AllBytes()[old(sent)]
    {
      fault, bytes, piece := false, [], OnePiece;
      if tail != HeadLink {
        LinkTarget(sent);
        LinkTarget(used - 1);
        LinkTarget(0);
        var chunk := Target(inpos);
        if chunk == null {
          fault := true;
          return;
        }
        bytes := chunk.Bytes();
        if tail == NextLink(head) {
          piece := OnePiece;
        } else if inpos == HeadLink {
          piece := FirstPiece;
          inpos, sent := NextLink(chunk), sent + 1;
        } else if NextLink(chunk) != tail {
          piece := NextPiece;
          inpos, sent := NextLink(chunk), sent + 1;
        } else {
          piece := LastPiece;
          inpos, sent := HeadLink, 0;
        }
      }
    }

    /** OCI asks until it is answered ONE or LAST, or until the callback faults. */
    method Drive() returns (value: Option<seq<Byte>>, kinds: seq<Piece>)
      requires Valid()
      modifies this`inpos, this`sent
      ensures Valid() && AllBytes() == old(AllBytes()) && value == Delivered(used, old(sent), AllBytes())
      ensures kinds == Kinds(used, old(sent), |chunks|) && sent == StopsAt(used, old(sent), |chunks|)
      decreases |chunks| - sent
    {
      var fault, bytes, piece := InCallback();
      if fault { return None, []; }
      if piece == OnePiece || piece == LastPiece { return Some(bytes), [piece]; }
      value, kinds := Drive();
      value, kinds := Joined(bytes, value), [piece] + kinds;
    }

    /** An in-bind transfer from wherever the last one stopped. From the head, it delivers the value. */
    method Send() returns (value: Option<seq<Byte>>, kinds: seq<Piece>)
      requires Valid()
      modifies this`inpos, this`sent
      ensures Valid() && value == Delivered(used, old(sent), AllBytes())
      ensures kinds == Kinds(used, old(sent), |chunks|) && sent == StopsAt(used, old(sent), |chunks|)
      ensures used == 0 || old(sent) == 0 ==> value == Some(Contents()) && sent == old(sent)
    {
      UsedBytes();
      if used == 0 || sent == 0 {
        FromHead(used, sent, AllBytes());
      }
      value, kinds := Drive();
    }

    /** bind_long_free: every chunk, used or spare, is freed once. */
    method Free() returns (freed: seq<Chunk>)
      requires Valid()
      ensures freed == chunks
    {
      var chunk := head;
      freed := [];
      while chunk != null
        invariant |freed| <= |chunks| && freed == chunks[..|freed|] && chunk == At(|freed|)
        decreases |chunks| - |freed|
      {
        assert Placed(|freed|);
        var next := chunk.next;
        freed := freed + [chunk];
        chunk := next;
      }
    }
  }

  /** The answer of in_bind_callback and the next position, from the number of used chunks and the position. */
  function NextAnswer(used: nat, sent: nat): (Piece, nat) {
    if used <= 1 then (OnePiece, sent)
    else if sent == 0 then (FirstPiece, 1)
    else if sent + 1 != used then (NextPiece, sent + 1)
    else (LastPiece, 0)
  }

  /** The answers of a transfer that starts at a position in a list of n chunks, until it ends or runs off the list. */
  function Kinds(used: nat, sent: nat, n: nat): seq<Piece>
    decreases if sent <= n then n - sent else 0
  {
    if used > 0 && sent >= n then []
    else
      var (piece, next) := NextAnswer(used, sent);
      if piece == OnePiece || piece == LastPiece then [piece] else [piece] + Kinds(used, next, n)
  }

  /** The position after a transfer. */
  function StopsAt(used: nat, sent: nat, n: nat): nat {
    if used <= 1 then sent else if sent < used then 0 else n
  }

  /** From the head: ONE alone, or FIRST, any number of NEXT, LAST. */
  lemma KindsShape(used: nat, n: nat)
    requires used <= n
    ensures var k := Kinds(used, 0, n);
            if used <= 1 then k == [OnePiece]
            else |k| == used && k[0] == FirstPiece && k[used - 1] == LastPiece
                 && forall i :: 1 <= i < used - 1 ==> k[i] == NextPiece
  {
    if used > 1 {
      LaterKinds(used, 1, n);
    }
  }

  lemma {:induction false} LaterKinds(used: nat, sent: nat, n: nat)
    requires 1 <= sent < used <= n
    ensures var k := Kinds(used, sent, n);
            |k| == used - sent && k[|k| - 1] == LastPiece && forall i :: 0 <= i < |k| - 1 ==> k[i] == NextPiece
    decreases used - sent
  {
    if sent + 1 < used {
      LaterKinds(used, sent + 1, n);
    }
  }

  function Joined(got: seq<Byte>, rest: Option<seq<Byte>>): Option<seq<Byte>> {
    match rest case None => None case Some(bytes) => Some(got + bytes)
  }

  /** What a transfer sends that starts at a position, given the bytes of all chunks; none if it runs off the list. */
  function Delivered(used: nat, sent: nat, all: seq<seq<Byte>>): Option<seq<Byte>>
    decreases if sent <= |all| then |all| - sent else 0
  {
    if used == 0 then Some([])
    else if sent >= |all| then None
    else
      var (piece, next) := NextAnswer(used, sent);
      if piece == OnePiece || piece == LastPiece then Some(all[sent])
      else Joined(all[sent], Delivered(used, next, all))
  }

  lemma FromHead(used: nat, sent: nat, all: seq<seq<Byte>>)
    requires used <= |all| && sent <= |all| && (used == 0 || sent == 0)
    ensures Delivered(used, sent, all) == Some(Concat(all[..used]))
  {
    DeliveredIs(used, sent, all);
    assert all[0..used] == all[..used];
    if used == 1 {
      ConcatOne(all[0]);
      assert all[..1] == [all[0]];
    }
  }

  /** One chunk in use: the chunk at the position, be it a spare one. Several: those from the position to the tail. */
  lemma {:induction false} DeliveredIs(used: nat, sent: nat, all: seq<seq<Byte>>)
    requires used <= |all| && sent <= |all|
    ensures Delivered(used, sent, all)
         == if used == 0 then Some([])
            else if used == 1 then (if sent < |all| then Some(all[sent]) else None)
            else if sent < used then Some(Concat(all[sent..used]))
            else None
    decreases |all| - sent
  {
    if used > 1 && sent < |all| {
      if sent + 1 == used {
        ConcatOne(all[sent]);
        assert all[sent..used] == [all[sent]];
      } else {
        DeliveredIs(used, sent + 1, all);
        if sent < used {
          assert all[sent..used] == [all[sent]] + all[sent + 1..used];
          ConcatFirst(all[sent], all[sent + 1..used]);
        }
      }
    }
  }

  lemma ConcatOne(a: seq<Byte>)
    ensures Concat([a]) == a
  {
    assert [a][..0] == [] && Concat([]) + a == a;
  }

  lemma {:induction false} ConcatFirst(a: seq<Byte>, rest: seq<seq<Byte>>)
    ensures Concat([a] + rest) == a + Concat(rest)
  {
    var s := [a] + rest;
    if rest == [] {
      assert s[..|s| - 1] == [];
    } else {
      var n := |rest| - 1;
      assert s[..|s| - 1] == [a] + rest[..n];
      ConcatFirst(a, rest[..n]);
      Assoc(a, Concat(rest[..n]), rest[n]);
    }
  }

  /** A transfer comes to an end, without running off the list, exactly from these positions. */
  lemma TransferEnds(used: nat, sent: nat, all: seq<seq<Byte>>)
    requires used <= |all| && sent <= |all|
    ensures Delivered(used, sent, all).Some? <==> used == 0 || sent < used || (used == 1 && sent < |all|)
  {
    DeliveredIs(used, sent, all);
  }

  /** It delivers the value, whatever the chunks hold, if and only if nothing is in use or it starts at the head. */
  lemma DeliversIff(used: nat, sent: nat, n: nat)
    requires used <= n && sent <= n
    ensures (forall all: seq<seq<Byte>> :: |all| == n ==> Delivered(used, sent, all) == Some(Concat(all[..used])))
            <==> used == 0 || sent == 0
  {
    if used == 0 || sent == 0 {
      forall all: seq<seq<Byte>> | |all| == n ensures Delivered(used, sent, all) == Some(Concat(all[..used])) {
        FromHead(used, sent, all);
      }
    } else {
      var all := NotDelivered(used, sent, n);
    }
  }

  /** The first chunk holds a byte that is not sent. */
  lemma NotDelivered(used: nat, sent: nat, n: nat) returns (all: seq<seq<Byte>>)
    requires 0 < used <= n && 0 < sent <= n
    ensures |all| == n && Delivered(used, sent, all) != Some(Concat(all[..used]))
  {
    all := [[1]] + seq(n - 1, _ => []);
    FirstOnly(all, used);
    DeliveredIs(used, sent, all);
    if 1 < used && sent < used {
      EmptyPieces(all[sent..used]);
    }
  }

  lemma FirstOnly(all: seq<seq<Byte>>, used: nat)
    requires 0 < used <= |all| && forall i :: 1 <= i < |all| ==> all[i] == []
    ensures Concat(all[..used]) == all[0]
  {
    assert all[..used] == [all[0]] + all[1..used];
    EmptyPieces(all[1..used]);
    ConcatFirst(all[0], all[1..used]);
  }

  lemma {:induction false} EmptyPieces(pieces: seq<seq<Byte>>)
    requires forall i :: 0 <= i < |pieces| ==> pieces[i] == []
    ensures Concat(pieces) == []
  {
    if pieces != [] {
      EmptyPieces(pieces[..|pieces| - 1]);
    }
  }

  // ---- when the loop of bind_long_set ends ----

  /** The size of chunk i: of one that is present, or of one that would be linked. */
  function SizeAt(sizes: seq<nat>, initial: nat, max: nat, i: nat): nat {
    if i < |sizes| then sizes[i] else if i == 0 then initial else GrownSize(SizeAt(sizes, initial, max, i - 1), max)
  }

  /** The room of the first n chunks. */
  function Room(sizes: seq<nat>, initial: nat, max: nat, n: nat): nat {
    if n == 0 then 0 else Room(sizes, initial, max, n - 1) + SizeAt(sizes, initial, max, n - 1)
  }

  /** The loop ends that stores len bytes from chunk i on. It does not once an empty chunk has been linked. */
  predicate Ends(len: nat, sizes: seq<nat>, initial: nat, max: nat, i: nat)
    decreases len, if i < |sizes| then |sizes| - i else 0
  {
    var size := SizeAt(sizes, initial, max, i);
    len <= size || ((i < |sizes| || size > 0) && Ends(len - size, sizes, initial, max, i + 1))
  }

  /** How many chunks are in use then. */
  function ChunksFor(len: nat, sizes: seq<nat>, initial: nat, max: nat, i: nat): (n: nat)
    requires Ends(len, sizes, initial, max, i)
    ensures n > i
    decreases len, if i < |sizes| then |sizes| - i else 0
  {
    var size := SizeAt(sizes, initial, max, i);
    if len <= size then i + 1 else ChunksFor(len - size, sizes, initial, max, i + 1)
  }

  ghost predicate Needs(len: nat, sizes: seq<nat>, initial: nat, max: nat, i: nat, needed: nat) {
    Ends(len, sizes, initial, max, i) && ChunksFor(len, sizes, initial, max, i) == needed
  }

  lemma NextRound(len: nat, sizes: seq<nat>, initial: nat, max: nat, i: nat, needed: nat)
    requires Needs(len, sizes, initial, max, i, needed)
    ensures var size := SizeAt(sizes, initial, max, i);
            if len <= size then needed == i + 1
            else (i < |sizes| || size > 0) && Needs(len - size, sizes, initial, max, i + 1, needed)
  {}

  lemma {:induction false} RoomIfEnds(len: nat, sizes: seq<nat>, initial: nat, max: nat, i: nat) returns (n: nat)
    requires Ends(len, sizes, initial, max, i)
    ensures n >= i && Room(sizes, initial, max, i) + len <= Room(sizes, initial, max, n)
    decreases len, if i < |sizes| then |sizes| - i else 0
  {
    var size := SizeAt(sizes, initial, max, i);
    if len <= size {
      n := i + 1;
    } else {
      n := RoomIfEnds(len - size, sizes, initial, max, i + 1);
    }
  }

  lemma {:induction false} EmptyForGood(sizes: seq<nat>, initial: nat, max: nat, i: nat, n: nat)
    requires |sizes| <= i <= n && SizeAt(sizes, initial, max, i) == 0
    ensures Room(sizes, initial, max, n) == Room(sizes, initial, max, i)
    ensures SizeAt(sizes, initial, max, n) == 0
    decreases n
  {
    if i < n {
      EmptyForGood(sizes, initial, max, i, n - 1);
    }
  }

  lemma {:induction false} EndsIfRoom(len: nat, sizes: seq<nat>, initial: nat, max: nat, i: nat, n: nat)
    requires i <= n && Room(sizes, initial, max, i) + len <= Room(sizes, initial, max, n)
    ensures Ends(len, sizes, initial, max, i)
    decreases n - i
  {
    var size := SizeAt(sizes, initial, max, i);
    if len > size {
      if i >= |sizes| && size == 0 {
        EmptyForGood(sizes, initial, max, i, n);
      }
      EndsIfRoom(len - size, sizes, initial, max, i + 1, n);
    }
  }

  /** The loop ends if and only if some number of chunks has room for all bytes. */
  lemma EndsIffRoom(len: nat, sizes: seq<nat>, initial: nat, max: nat)
    ensures Ends(len, sizes, initial, max, 0) <==> exists n :: len <= Room(sizes, initial, max, n)
  {
    if Ends(len, sizes, initial, max, 0) {
      var n := RoomIfEnds(len, sizes, initial, max, 0);
    } else if n :| len <= Room(sizes, initial, max, n) {
      EndsIfRoom(len, sizes, initial, max, 0, n);
    }
  }

  /** A size that can be doubled without collapsing to nothing. */
  predicate UsableSize(n: int) {
    0 < n < UB4_RANGE && n != UB4_RANGE / 2
  }

  /** Chunk size settings under which every chunk has room. */
  predicate UsableSettings(initial: nat, max: nat) {
    UsableSize(initial) && 0 < max < UB4_RANGE / 2
  }

  ghost predicate Roomy(chunks: seq<Chunk>) {
    forall i :: 0 <= i < |chunks| ==> UsableSize(chunks[i].allocLen)
  }

  /** Half of the 32-bit range is the one size whose successor is empty; an empty chunk is followed by empty chunks. */
  lemma SizeCollapse(n: nat, max: nat)
    requires 0 < n < UB4_RANGE && 0 < max
    ensures GrownSize(n, max) == 0 <==> n == UB4_RANGE / 2
    ensures GrownSize(0, max) == 0
    ensures max < UB4_RANGE / 2 && UsableSize(n) ==> UsableSize(GrownSize(n, max))
  {}

  lemma {:induction false} UsableSizes(sizes: seq<nat>, initial: nat, max: nat, i: nat)
    requires UsableSettings(initial, max) && forall j :: 0 <= j < |sizes| ==> UsableSize(sizes[j])
    ensures UsableSize(SizeAt(sizes, initial, max, i))
  {
    if i >= |sizes| && i > 0 {
      UsableSizes(sizes, initial, max, i - 1);
      SizeCollapse(SizeAt(sizes, initial, max, i - 1), max);
    }
  }

  /** With usable settings it ends for every length. */
  lemma {:induction false} UsableSettingsEnd(len: nat, sizes: seq<nat>, initial: nat, max: nat, i: nat)
    requires UsableSettings(initial, max) && forall j :: 0 <= j < |sizes| ==> UsableSize(sizes[j])
    ensures Ends(len, sizes, initial, max, i)
    decreases len
  {
    UsableSizes(sizes, initial, max, i);
    var size := SizeAt(sizes, initial, max, i);
    if len > size {
      UsableSettingsEnd(len - size, sizes, initial, max, i + 1);
    }
  }

  function Doublings(n: nat, i: nat): nat {
    if i == 0 then n else 2 * Doublings(n, i - 1)
  }

  function AtMost(n: nat, max: nat): nat {
    if n <= max then n else max
  }

  /** With usable settings every new chunk is twice as large as the one before, up to the cap. */
  lemma {:induction false} SizesDouble(initial: nat, max: nat, i: nat)
    requires UsableSettings(initial, max)
    ensures SizeAt([], initial, max, 0) == initial
    ensures var second := if initial < UB4_RANGE / 2 then 2 * initial else 2 * initial - UB4_RANGE;
            SizeAt([], initial, max, i + 1) == AtMost(Doublings(second, i), max)
    decreases i
  {
    var second := if initial < UB4_RANGE / 2 then 2 * initial else 2 * initial - UB4_RANGE;
    if i > 0 {
      SizesDouble(initial, max, i - 1);
      TwiceAtMost(Doublings(second, i - 1), max);
    } else {
      assert initial * 2 % UB4_RANGE == second;
    }
  }

  lemma TwiceAtMost(n: nat, max: nat)
    requires 0 < max < UB4_RANGE / 2
    ensures GrownSize(AtMost(n, max), max) == AtMost(2 * n, max)
  {
    NoWrap(AtMost(n, max));
  }

  /** A size that doubles up to half of the 32-bit range. */
  predicate PowerOfTwo(n: int)
    decreases UB4_RANGE - n
  {
    n == UB4_RANGE / 2 || (0 < n < UB4_RANGE / 2 && PowerOfTwo(2 * n))
  }

  lemma Doubled(n: nat, max: nat)
    requires PowerOfTwo(n) && UB4_RANGE / 2 <= max
    ensures if n == UB4_RANGE / 2 then GrownSize(n, max) == 0 else GrownSize(n, max) == 2 * n && PowerOfTwo(2 * n)
  {
    if n < UB4_RANGE / 2 {
      assert PowerOfTwo(2 * n);
      NoWrap(n);
    }
  }

  lemma NoWrap(n: nat)
    requires n < UB4_RANGE / 2
    ensures n * 2 % UB4_RANGE == n * 2
  {}

  /**
   * Chunks that double from a power of two up to half of the range, because the cap does not stop them, have all but
   * that power of two of the 32-bit range, and then nothing.
   */
  lemma {:induction false} DoublingEnds(len: nat, sizes: seq<nat>, initial: nat, max: nat, i: nat)
    requires |sizes| <= i && UB4_RANGE / 2 <= max < UB4_RANGE && PowerOfTwo(SizeAt(sizes, initial, max, i))
    ensures Ends(len, sizes, initial, max, i) <==> len <= UB4_RANGE - SizeAt(sizes, initial, max, i)
    decreases UB4_RANGE - SizeAt(sizes, initial, max, i)
  {
    var size := SizeAt(sizes, initial, max, i);
    Doubled(size, max);
    if size < UB4_RANGE / 2 && len > size {
      DoublingEnds(len - size, sizes, initial, max, i + 1);
    }
  }

  /** An initial size of half the range: one more byte than that and the loop never ends, whatever the cap. */
  lemma HalfRangeNeverEnds(len: nat, max: nat)
    requires Setting(max)
    ensures Ends(len, [], UB4_RANGE / 2, max, 0) <==> len <= UB4_RANGE / 2
  {
    assert SizeAt([], UB4_RANGE / 2, max, 1) == 0;
  }

  /** The list was extended with chunks of the sizes expected, and only as far as they are in use. */
  ghost predicate Laid(was: seq<Chunk>, now: seq<Chunk>, initial: nat, max: nat, used: nat) {
    && was <= now && |now| == (if used <= |was| then |was| else used)
    && forall i :: 0 <= i < |now| ==> now[i].allocLen == SizeAt(SizesOf(was), initial, max, i)
  }

  lemma LaidGrows(first: seq<Chunk>, was: seq<Chunk>, now: seq<Chunk>, initial: nat, max: nat, used: nat)
    requires used > 0 && Laid(first, was, initial, max, used - 1) && Grew(was, now, initial, max)
    requires |now| == |was| + if used - 1 < |was| then 0 else 1
    ensures Laid(first, now, initial, max, used)
  {
    forall i | 0 <= i < |now| ensures now[i].allocLen == SizeAt(SizesOf(first), initial, max, i) {
      assert i < |was| ==> now[i] == was[i];
    }
  }

  lemma RoomyGrows(was: seq<Chunk>, now: seq<Chunk>, initial: nat, max: nat)
    requires Roomy(was) && Grew(was, now, initial, max) && UsableSettings(initial, max)
    ensures Roomy(now)
  {
    if was != [] {
      SizeCollapse(was[|was| - 1].allocLen, max);
    }
    forall i | 0 <= i < |now| ensures UsableSize(now[i].allocLen) {
      assert i < |was| ==> now[i] == was[i];
    }
  }

  // ---- histories ----

  datatype Event = Set(value: seq<Byte>) | Define(value: seq<Byte>) | Out(value: seq<Byte>) | In

  /** The value after a history: what the last set stored, or what the last transfer delivered. */
  function Final(events: seq<Event>, initially: seq<Byte>): seq<Byte> {
    if events == [] then initially
    else match events[|events| - 1]
      case Set(v) => v[..|v| % UB4_RANGE]
      case Define(v) => v
      case Out(v) => v
      case In => Final(events[..|events| - 1], initially)
  }

  /** Any history of sets and completed transfers, the chunk settings changing at will between them. */
  method Replay(cb: ChunkBuf, events: seq<Event>) returns (got: seq<Byte>)
    requires cb.Valid() && cb.sent == 0 && Roomy(cb.chunks)
    modifies cb, cb.chunks
    ensures cb.Valid() && cb.sent == 0 && old(cb.chunks) <= cb.chunks
    ensures got == cb.Contents() == Final(events, old(cb.Contents()))
  {
    for i := 0 to |events|
      invariant cb.Valid() && cb.sent == 0 && old(cb.chunks) <= cb.chunks && Roomy(cb.chunks)
      invariant forall i :: |old(cb.chunks)| <= i < |cb.chunks| ==> fresh(cb.chunks[i])
      invariant cb.Contents() == Final(events[..i], old(cb.Contents()))
    {
      assert events[..i + 1][..i] == events[..i];
      assert UsableSettings(32768, 8388608);
      var initial, max :| UsableSettings(initial, max);
      Happen(cb, events[i], initial, max);
    }
    assert events[..|events|] == events;
    got := cb.LongGet();
  }

  method Happen(cb: ChunkBuf, event: Event, initial: nat, max: nat)
    requires cb.Valid() && cb.sent == 0 && Roomy(cb.chunks) && UsableSettings(initial, max)
    modifies cb, cb.chunks
    ensures cb.Valid() && cb.sent == 0 && Roomy(cb.chunks) && old(cb.chunks) <= cb.chunks
    ensures forall i :: |old(cb.chunks)| <= i < |cb.chunks| ==> fresh(cb.chunks[i])
    ensures cb.Contents() == match event
                             case Set(v) => v[..|v| % UB4_RANGE]
                             case Define(v) => v
                             case Out(v) => v
                             case In => old(cb.Contents())
  {
    match event
    case Set(v) => SetUsable(cb, v, initial, max);
    case Define(v) => cb.Receive(false, v, initial, max);
    case Out(v) => cb.Receive(true, v, initial, max);
    case In => var value, kinds := cb.Send();
               assert value == Some(old(cb.Contents()));
  }

  /** A set with usable settings, which needs no more. */
  method SetUsable(cb: ChunkBuf, val: seq<Byte>, initial: nat, max: nat)
    requires cb.Valid() && Roomy(cb.chunks) && UsableSettings(initial, max)
    modifies cb, cb.chunks
    ensures cb.Valid() && Roomy(cb.chunks) && cb.sent == old(cb.sent) && old(cb.chunks) <= cb.chunks
    ensures forall i :: |old(cb.chunks)| <= i < |cb.chunks| ==> fresh(cb.chunks[i])
    ensures cb.Contents() == val[..|val| % UB4_RANGE]
  {
    ghost var sizes := SizesOf(cb.chunks);
    UsableSettingsEnd(|val| % UB4_RANGE, sizes, initial, max, 0);
    cb.LongSet(val, initial, max);
    forall i | 0 <= i < |cb.chunks| ensures UsableSize(cb.chunks[i].allocLen) {
      UsableSizes(sizes, initial, max, i);
    }
  }

  // ---- transfers that were abandoned ----

  lemma TwoPieces(pieces: seq<seq<Byte>>)
    requires |pieces| == 2
    ensures Concat(pieces) == pieces[0] + pieces[1]
  {
    ConcatOne(pieces[0]);
    assert pieces[..1] == [pieces[0]];
  }

  /** Chunks of one byte, as many as the list has or as the value has bytes, whichever is more. */
  lemma ByteChunks(sizes: seq<nat>, len: nat)
    requires 1 <= len <= 3 && |sizes| <= 3 && forall i :: 0 <= i < |sizes| ==> sizes[i] == 1
    ensures forall i :: 0 <= i <= 3 ==> SizeAt(sizes, 1, 1, i) == 1
    ensures Ends(len, sizes, 1, 1, 0) && ChunksFor(len, sizes, 1, 1, 0) == len
  {
    assert SizeAt(sizes, 1, 1, 0) == 1;
    assert SizeAt(sizes, 1, 1, 1) == 1;
    assert SizeAt(sizes, 1, 1, 2) == 1;
    assert SizeAt(sizes, 1, 1, 3) == 1;
    if len == 3 {
      assert Ends(1, sizes, 1, 1, 2) && ChunksFor(1, sizes, 1, 1, 2) == 3;
    }
    if len >= 2 {
      assert Ends(len - 1, sizes, 1, 1, 1) && ChunksFor(len - 1, sizes, 1, 1, 1) == len;
    }
  }

  ghost predicate ByteSized(chunks: seq<Chunk>) {
    |chunks| <= 3 && forall i :: 0 <= i < |chunks| ==> chunks[i].allocLen == 1
  }

  lemma BytesLaid(was: seq<Chunk>, now: seq<Chunk>, used: nat)
    requires ByteSized(was) && 1 <= used <= 3 && Laid(was, now, 1, 1, used)
    ensures ByteSized(now)
  {
    ByteChunks(SizesOf(was), used);
  }

  /** A set with chunks of one byte. */
  method SetBytes(cb: ChunkBuf, val: seq<Byte>)
    requires cb.Valid() && 1 <= |val| <= 3 && ByteSized(cb.chunks)
    modifies cb, cb.chunks
    ensures cb.Valid() && ByteSized(cb.chunks) && cb.sent == old(cb.sent)
    ensures cb.used == |val| && cb.Contents() == val && old(cb.chunks) <= cb.chunks
    ensures |cb.chunks| == if |val| <= |old(cb.chunks)| then |old(cb.chunks)| else |val|
    ensures forall i :: |old(cb.chunks)| <= i < |cb.chunks| ==> fresh(cb.chunks[i])
    ensures cb.Spared(old(cb.AllBytes()))
  {
    ghost var was := cb.chunks;
    ByteChunks(SizesOf(was), |val|);
    cb.LongSet(val, 1, 1);
    BytesLaid(was, cb.chunks, |val|);
    assert |val| % UB4_RANGE == |val| && val[..|val|] == val;
  }

  /** A transfer of a value in chunks of one byte, abandoned after some calls. */
  method Abandon(val: seq<Byte>, calls: nat) returns (cb: ChunkBuf)
    requires calls < |val| <= 3
    ensures cb.Valid() && fresh(cb) && ByteSized(cb.chunks) && forall i :: 0 <= i < |cb.chunks| ==> fresh(cb.chunks[i])
    ensures cb.used == |cb.chunks| == |val| && cb.sent == calls && cb.Contents() == val
  {
    cb := new ChunkBuf();
    SetBytes(cb, val);
    var i := 0;
    while i < calls
      invariant 0 <= i <= calls && cb.sent == i && cb.Valid() && cb.used == |val|
      modifies cb`inpos, cb`sent
    {
      var fault, bytes, piece := cb.InCallback();
      i := i + 1;
    }
  }

  lemma SecondByte(a: seq<Byte>, b: seq<Byte>)
    requires a + b == [1, 2] && |a| <= 1 && |b| <= 1
    ensures b == [2]
  {
    assert (a + b)[1] == b[0];
  }

  /** After a transfer that was abandoned, a shorter value is set, and the next transfer sends a byte of the old one. */
  method SendsStale() returns (held: seq<Byte>, value: Option<seq<Byte>>)
    ensures held == [3] && value == Some([2])
  {
    var cb := Abandon([1, 2], 1);
    TwoPieces(cb.pieces);
    assert cb.Placed(0) && cb.Placed(1);
    SecondByte(cb.pieces[0], cb.pieces[1]);
    ghost var was := cb.AllBytes();
    assert was[1] == [2];
    SetBytes(cb, [3]);
    assert cb.SparedAt(was, 1);
    held := cb.LongGet();
    DeliveredIs(1, 1, cb.AllBytes());
    var kinds;
    value, kinds := cb.Send();
  }

  /** Or it runs off the list, if the transfer was abandoned behind the end of the new value. */
  method RunsOff() returns (value: Option<seq<Byte>>)
    ensures value == None
  {
    var cb := Abandon([1, 2, 3], 2);
    SetBytes(cb, [4, 5]);
    DeliveredIs(2, 2, cb.AllBytes());
    var kinds;
    value, kinds := cb.Send();
  }
}
