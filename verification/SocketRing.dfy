/** The ring of sockets whose reads are in progress, around a sentinel. */
module SocketRing {
  import opened Rings

  class Entry {
    var next: Entry
    var prev: Entry
    var sock: int

    constructor ()
      ensures next == this && prev == this
    {
      next, prev, sock := this, this, -1;
    }
  }

  class Ring {
    const sentinel: Entry
    ghost var ring: seq<Entry>   // the sentinel, then the entries, the latest first

    /** Position i of the ring: its neighbours are the next and the previous position, and it occurs once. */
    ghost predicate Linked(i: nat)
      reads this, ring
      requires i < |ring|
    {
      && ring[i].next == ring[After(|ring|, i)] && ring[i].prev == ring[Before(|ring|, i)]
      && (forall j {:trigger ring[j]} :: 0 <= j < |ring| && j != i ==> ring[j] != ring[i])
    }

    ghost predicate Valid()
      reads this, ring
    {
      ring != [] && ring[0] == sentinel && forall i {:trigger Linked(i)} :: 0 <= i < |ring| ==> Linked(i)
    }

    constructor ()
      ensures Valid() && ring == [sentinel] && fresh(sentinel)
    {
      var s := new Entry();
      sentinel, ring := s, [s];
    }

    /** socket_entry_set */
    method Set(entry: Entry, sock: int)
      requires Valid() && entry !in ring
      modifies this`ring, ring, entry
      ensures Valid() && ring == [sentinel, entry] + old(ring)[1..]
      ensures entry.sock == sock && forall e :: e in old(ring) ==> e.sock == old(e.sock)
    {
      assert Linked(0) && Linked(After(|ring|, 0));
      entry.next := sentinel.next;
      entry.prev := sentinel;
      sentinel.next.prev := entry;
      sentinel.next := entry;
      entry.sock := sock;
      ring := [sentinel, entry] + ring[1..];
      forall i | 0 <= i < |ring| ensures Linked(i) {
        if i != 1 {
          assert old(Linked(if i == 0 then 0 else i - 1));
        }
      }
    }

    /** The pointer surgery of socket_entry_clear: the neighbours of an entry are joined. */
    method Join(entry: Entry)
      requires entry in ring && entry.next in ring && entry.prev in ring
      modifies ring
      ensures forall e :: e in ring ==>
                && e.next == (if e == old(entry.prev) then old(entry.next) else old(e.next))
                && e.prev == (if e == old(entry.next) then old(entry.prev) else old(e.prev))
                && e.sock == old(e.sock)
    {
      entry.next.prev := entry.prev;
      entry.prev.next := entry.next;
    }

    /** socket_entry_clear */
    method Clear(entry: Entry, ghost at: nat)
      requires Valid() && 0 < at < |ring| && ring[at] == entry
      modifies this`ring, ring
      ensures Valid() && ring == Without(old(ring), at)
      ensures forall e :: e in old(ring) ==> e.sock == old(e.sock)
    {
      assert Linked(at) && Linked(After(|ring|, at)) && Linked(Before(|ring|, at));
      Join(entry);
      ring := Without(ring, at);
      forall i | 0 <= i < |ring| ensures Linked(i) {
        var j := if i < at then i else i + 1;
        assert old(Linked(j));
        RingWithout(old(ring), at, j);
        Elsewhere(old(ring), at, j);
      }
    }

    /** oci8_shutdown_sockets */
    method Shutdown() returns (closed: seq<int>)
      requires Valid()
      ensures |closed| == |ring| - 1 && forall i :: 1 <= i < |ring| ==> closed[i - 1] == ring[i].sock
    {
      closed := [];
      assert Linked(0);
      var entry := sentinel.next;
      while entry != sentinel
        invariant |closed| <= |ring| - 1 && entry == ring[if |closed| + 1 < |ring| then |closed| + 1 else 0]
        invariant forall i :: 1 <= i <= |closed| ==> closed[i - 1] == ring[i].sock
        decreases |ring| - |closed|
      {
        assert Linked(0) && Linked(|closed| + 1);
        closed := closed + [entry.sock];
        entry := entry.next;
      }
      assert Linked(0);
    }
  }

  // ---- threads entering and leaving hooked reads ----

  type Thread = nat

  datatype Step = Enter(thread: Thread, sock: int) | Leave(thread: Thread) | SetCancel(on: bool)

  /** Whether reads are registered, and the reads in progress with what each one saw of that flag when it began. */
  datatype Reads = Reads(cancel: bool, inside: map<Thread, bool>, registered: seq<(Thread, int)>)

  function Drop(r: seq<(Thread, int)>, t: Thread): seq<(Thread, int)> {
    if r == [] then [] else if r[0].0 == t then r[1..] else [r[0]] + Drop(r[1..], t)
  }

  predicate Possible(s: Reads, step: Step) {
    match step
    case Enter(t, _) => t !in s.inside
    case Leave(t) => t in s.inside
    case SetCancel(_) => true
  }

  function Stepped(s: Reads, step: Step): Reads
    requires Possible(s, step)
  {
    match step
    case Enter(t, sock) =>
      Reads(s.cancel, s.inside[t := s.cancel], if s.cancel then [(t, sock)] + s.registered else s.registered)
    case Leave(t) =>
      Reads(s.cancel, s.inside - {t}, if s.inside[t] then Drop(s.registered, t) else s.registered)
    case SetCancel(on) => s.(cancel := on)
  }

  predicate PossibleRun(s: Reads, steps: seq<Step>)
    decreases |steps|
  {
    steps == [] || (Possible(s, steps[0]) && PossibleRun(Stepped(s, steps[0]), steps[1..]))
  }

  function Run(s: Reads, steps: seq<Step>): Reads
    requires PossibleRun(s, steps)
    decreases |steps|
  {
    if steps == [] then s else Run(Stepped(s, steps[0]), steps[1..])
  }

  const START := Reads(false, map[], [])

  predicate Registered(r: seq<(Thread, int)>, t: Thread) {
    r != [] && (r[0].0 == t || Registered(r[1..], t))
  }

  predicate Distinct(r: seq<(Thread, int)>) {
    r == [] || (!Registered(r[1..], r[0].0) && Distinct(r[1..]))
  }

  lemma {:induction false} RegisteredAt(r: seq<(Thread, int)>, k: nat)
    requires k < |r|
    ensures Registered(r, r[k].0)
  {
    if k > 0 {
      RegisteredAt(r[1..], k - 1);
    }
  }

  /** The registered reads are those in progress that saw the flag set, each once. */
  ghost predicate Exact(s: Reads) {
    && Distinct(s.registered)
    && forall t :: Registered(s.registered, t) <==> t in s.inside && s.inside[t]
  }

  lemma {:induction false} DropLeavesOthers(r: seq<(Thread, int)>, t: Thread, u: Thread)
    requires Distinct(r)
    ensures Distinct(Drop(r, t)) && (Registered(Drop(r, t), u) <==> Registered(r, u) && u != t)
  {
    if r != [] && r[0].0 != t {
      DropLeavesOthers(r[1..], t, u);
      DropLeavesOthers(r[1..], t, r[0].0);
      assert Drop(r, t)[1..] == Drop(r[1..], t);
    }
  }

  /** Where the entry of a registered read is. */
  lemma {:induction false} Position(r: seq<(Thread, int)>, t: Thread) returns (at: nat)
    requires Registered(r, t)
    ensures at < |r| && r[at].0 == t && Drop(r, t) == Without(r, at)
  {
    at := 0;
    if r[0].0 != t {
      var k := Position(r[1..], t);
      at := k + 1;
      assert Without(r, at) == [r[0]] + Without(r[1..], k);
    }
  }

  lemma StepKeepsExact(s: Reads, step: Step)
    requires Exact(s) && Possible(s, step)
    ensures Exact(Stepped(s, step))
  {
    match step
    case Enter(t, sock) =>
      if s.cancel {
        assert ([(t, sock)] + s.registered)[1..] == s.registered;
        assert !Registered(s.registered, t);
      }
    case Leave(t) =>
      if s.inside[t] {
        forall u ensures Distinct(Drop(s.registered, t))
                         && (Registered(Drop(s.registered, t), u) <==> Registered(s.registered, u) && u != t) {
          DropLeavesOthers(s.registered, t, u);
        }
      } else {
        assert !Registered(s.registered, t);
      }
    case SetCancel(on) =>
  }

  /** In every interleaving the registered reads are exactly those in progress that began with the flag set. */
  lemma {:induction false} RunKeepsExact(s: Reads, steps: seq<Step>)
    requires Exact(s) && PossibleRun(s, steps)
    ensures Exact(Run(s, steps))
    decreases |steps|
  {
    if steps != [] {
      StepKeepsExact(s, steps[0]);
      RunKeepsExact(Stepped(s, steps[0]), steps[1..]);
    }
  }

  /** The ring holds the entry of every registered read, in the order of registration. */
  ghost predicate Agrees(r: Ring, entries: map<Thread, Entry>, s: Reads)
    reads r, r.ring
  {
    && r.Valid() && Exact(s) && |r.ring| == |s.registered| + 1
    && forall k {:trigger s.registered[k]} :: 0 <= k < |s.registered| ==>
         && s.registered[k].0 in entries && entries[s.registered[k].0] == r.ring[k + 1]
         && r.ring[k + 1].sock == s.registered[k].1
  }

  /** A hooked read begins while the flag is set. */
  method Register(r: Ring, entries: map<Thread, Entry>, s: Reads, t: Thread, sock: int)
    returns (entries': map<Thread, Entry>)
    requires Agrees(r, entries, s) && t !in s.inside && s.cancel
    modifies r`ring, r.ring
    ensures Agrees(r, entries', Stepped(s, Enter(t, sock)))
    ensures forall i :: 0 <= i < |r.ring| ==> r.ring[i] in old(r.ring) || fresh(r.ring[i])
  {
    StepKeepsExact(s, Enter(t, sock));
    var entry := new Entry();
    ghost var before := r.ring;
    r.Set(entry, sock);
    entries' := entries[t := entry];
    ghost var u := Stepped(s, Enter(t, sock));
    forall k | 0 <= k < |u.registered|
      ensures u.registered[k].0 in entries' && entries'[u.registered[k].0] == r.ring[k + 1]
              && r.ring[k + 1].sock == u.registered[k].1
    {
      if k > 0 {
        assert u.registered[k] == s.registered[k - 1] && r.ring[k + 1] == before[k] && before[k] in before;
        RegisteredAt(s.registered, k - 1);
      }
    }
  }

  /** A registered read ends. */
  method Unregister(r: Ring, entries: map<Thread, Entry>, s: Reads, t: Thread)
    requires Agrees(r, entries, s) && t in s.inside && s.inside[t]
    modifies r`ring, r.ring
    ensures Agrees(r, entries, Stepped(s, Leave(t)))
    ensures forall i :: 0 <= i < |r.ring| ==> r.ring[i] in old(r.ring)
  {
    ghost var at := Position(s.registered, t);
    StepKeepsExact(s, Leave(t));
    ghost var before := r.ring;
    r.Clear(entries[t], at + 1);
    ghost var u := Stepped(s, Leave(t));
    assert u.registered == Without(s.registered, at);
    forall k | 0 <= k < |u.registered|
      ensures u.registered[k].0 in entries && entries[u.registered[k].0] == r.ring[k + 1]
              && r.ring[k + 1].sock == u.registered[k].1
    {
      WithoutAt(s.registered, at, k);
      WithoutAt(before, at + 1, k + 1);
      assert before[if k < at then k + 1 else k + 2] in before;
    }
  }

  /** One hooked read begins or ends, or the flag changes; a read looks at the flag only when it begins. */
  method Perform(r: Ring, entries: map<Thread, Entry>, s: Reads, step: Step) returns (entries': map<Thread, Entry>)
    requires Agrees(r, entries, s) && Possible(s, step)
    modifies r`ring, r.ring
    ensures Agrees(r, entries', Stepped(s, step))
    ensures forall i :: 0 <= i < |r.ring| ==> r.ring[i] in old(r.ring) || fresh(r.ring[i])
  {
    entries' := entries;
    StepKeepsExact(s, step);
    match step
    case Enter(t, sock) =>
      if s.cancel {
        entries' := Register(r, entries, s, t, sock);
      }
    case Leave(t) =>
      if s.inside[t] {
        Unregister(r, entries, s, t);
      }
    case SetCancel(on) =>
  }

  /** After any interleaving, shutting down visits exactly the registered sockets, each entry once. */
  method Interleave(steps: seq<Step>) returns (closed: seq<int>)
    requires PossibleRun(START, steps)
    ensures var s := Run(START, steps);
            Exact(s) && |closed| == |s.registered| && forall k :: 0 <= k < |closed| ==> closed[k] == s.registered[k].1
  {
    var r := new Ring();
    var entries, s, left := map[], START, steps;
    while left != []
      invariant PossibleRun(s, left) && Run(s, left) == Run(START, steps)
      invariant Agrees(r, entries, s) && fresh(r)
      invariant forall i :: 0 <= i < |r.ring| ==> fresh(r.ring[i])
      decreases |left|
    {
      entries := Perform(r, entries, s, left[0]);
      s, left := Stepped(s, left[0]), left[1..];
    }
    closed := r.Shutdown();
    assert forall k :: 0 <= k < |closed| ==> closed[k] == r.ring[k + 1].sock && s.registered[k].1 == r.ring[k + 1].sock;
  }
}
