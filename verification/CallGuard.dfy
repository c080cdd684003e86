/**
 * One connection shared by Ruby threads: the guard on its OCI calls and the queue of temporary LOB locators
 * that those calls free on their way in. A step is what a thread does between two points where another thread
 * can run: while it holds the interpreter lock only the collector may come in between, and while it is inside
 * an OCI call without the lock everybody may.
 */
module CallGuard {
  import opened Basics

  type Thread = nat
  type Locator = nat

  /** Where a thread is in oci8_call_without_gvl. */
  datatype Place =
    | Outside
    | LoopHead                     // about to look at the queue, with the lock
    | Popped(lob: Locator)         // about to call protected_call for a locator, with the lock
    | Freeing(lob: Locator)        // in OCILobFreeTemporary, without the lock
    | Freed(lob: Locator)          // free_temp_lob is over, the lock not yet retaken
    | FreeingLocked(lob: Locator)  // in OCILobFreeTemporary, with the lock
    | Ready                        // the drain is over, with the lock
    | Calling                      // in the OCI call, without the lock
    | Called                       // the OCI call is over, the lock not yet retaken
    | CallingLocked                // in the OCI call, with the lock

  /** The LOB locators of a connection. */
  datatype Lobs = Lobs(
    live: seq<Locator>,    // held by LOB handles, the children of the connection
    queue: seq<Locator>,   // temp_lobs
    log: seq<Locator>,     // descriptors freed, the oldest first
    returned: seq<Locator>,    // for which OCILobFreeTemporary was called and came back
    created: set<Locator>,
    temporary: set<Locator>    // those of which OCILobIsTemporary says so when their handle is freed
  ) {
    function Push(lob: Locator): Lobs {
      this.(queue := [lob] + queue)
    }

    function Pop(): Lobs
      requires queue != []
    {
      this.(queue := queue[1..])
    }

    function Free(lob: Locator): Lobs {
      this.(log := log + [lob])
    }

    function Return(lob: Locator): Lobs {
      this.(returned := returned + [lob])
    }

    /** The free callback of a LOB, and what oci8_base_free does after it. */
    function Release(i: nat): (r: Lobs)
      requires i < |live|
      ensures |r.live| == |live| - 1 && r.created == created && r.temporary == temporary && r.returned == returned
    {
      var rest := this.(live := live[..i] + live[i + 1..]);
      if live[i] in temporary then rest.Push(live[i]) else rest.Free(live[i])
    }

    /** Every LOB is a child of its connection, and oci8_base_free frees children first. */
    function ReleaseAll(): (r: Lobs)
      ensures r.live == [] && r.created == created && r.temporary == temporary && r.returned == returned
      decreases |live|
    {
      if live == [] then this else Release(0).ReleaseAll()
    }

    /** The loop of oci8_svcctx_free. */
    function Clear(): Lobs {
      this.(queue := [], log := log + queue)
    }
  }

  datatype State = State(
    places: seq<Place>,
    lock: Option<Thread>,       // who holds the interpreter lock inside oci8_call_without_gvl
    executing: Option<Thread>,
    nonBlocking: bool,
    suppress: bool,
    lobs: Lobs,
    closed: bool,
    destroyed: bool
  )

  datatype Action =
    | Spawn
    | SetNonBlocking(on: bool)
    | SetSuppress(on: bool)
    | Create(lob: Locator, temporary: bool)
    | Release(i: nat)
    | Logoff
    | Destroy
    | Advance(t: Thread, trouble: bool)   // trouble: an interrupt arrives or the call fails, so protected_call raises

  const INITIAL := State([], None, None, true, false, Lobs([], [], [], [], {}, {}), false, false)

  /** Where a thread that holds the lock can trigger the collector. */
  predicate Allocates(place: Place) {
    place.Popped? || place.FreeingLocked? || place.Ready? || place.CallingLocked?
  }

  /** A thread has to wait for the lock, to enter or to come back from a call it made without it. */
  predicate Waits(s: State, t: Thread)
    requires t < |s.places|
  {
    match s.places[t]
    case Outside => s.lock.Some? || s.destroyed
    case Freed(_) => s.lock.Some?
    case Called => s.lock.Some?
    case _ => false
  }

  /** What one step of a thread changes: its own place, and three fields of the connection. */
  datatype Effect = Effect(place: Place, lock: Option<Thread>, executing: Option<Thread>, lobs: Lobs)

  function Move(s: State, t: Thread, trouble: bool): Effect
    requires t < |s.places|
  {
    var e, me, q := s.executing, Some(t), s.lobs;
    match s.places[t]
    case Outside =>
      if e.Some? then Effect(Outside, s.lock, e, q) // raises
      else Effect(if s.suppress then Ready else LoopHead, me, e, q)
    case LoopHead =>
      if q.queue == [] then Effect(Ready, me, e, q)
      else Effect(if s.nonBlocking then Popped(q.queue[0]) else FreeingLocked(q.queue[0]), me, e, q.Pop())
    case Popped(lob) =>
      if e.Some? then Effect(Outside, None, e, q.Push(lob))
      else if trouble then Effect(Outside, None, me, q.Push(lob))
      else Effect(Freeing(lob), None, me, q)
    case Freeing(lob) => Effect(Freed(lob), s.lock, None, q.Return(lob))
    case Freed(lob) => if trouble then Effect(Outside, None, e, q.Push(lob)) else Effect(LoopHead, me, e, q.Free(lob))
    case FreeingLocked(lob) => Effect(LoopHead, me, e, q.Return(lob).Free(lob))
    case Ready =>
      if !s.nonBlocking then Effect(CallingLocked, me, e, q)
      else if e.Some? || trouble then Effect(Outside, None, None, q)
      else Effect(Calling, None, me, q)
    case Calling => Effect(Called, s.lock, e, q)
    case Called => Effect(Outside, None, None, q)
    case CallingLocked => Effect(Outside, None, e, q)
  }

  function Advanced(s: State, t: Thread, trouble: bool): State
    requires t < |s.places|
  {
    var m := Move(s, t, trouble);
    s.(places := s.places[t := m.place], lock := m.lock, executing := m.executing, lobs := m.lobs)
  }

  /** When an action can be taken. */
  ghost predicate Enabled(s: State, a: Action) {
    match a
    case Spawn => true
    case SetNonBlocking(_) => s.lock == None
    case SetSuppress(_) => s.lock == None
    // oci8_get_svcctx raises on a closed connection
    case Create(lob, _) => s.lock == None && !s.closed && lob !in s.lobs.created
    // by Ruby code or by the collector, which can come whenever Ruby allocates
    case Release(i) =>
      i < |s.lobs.live| && (s.lock == None || (s.lock.value < |s.places| && Allocates(s.places[s.lock.value])))
    case Logoff => s.lock == None && !s.closed
    // only an unreachable connection is swept, and a thread inside a call reaches it
    case Destroy => s.lock == None && !s.destroyed && forall t :: 0 <= t < |s.places| ==> s.places[t].Outside?
    case Advance(t, _) => t < |s.places| && !Waits(s, t)
  }

  function Next(s: State, a: Action): State
    requires Enabled(s, a)
  {
    match a
    case Spawn => s.(places := s.places + [Outside])
    case SetNonBlocking(on) => s.(nonBlocking := on)
    case SetSuppress(on) => s.(suppress := on)
    case Create(lob, temporary) =>
      s.(lobs := s.lobs.(live := s.lobs.live + [lob], created := s.lobs.created + {lob},
                         temporary := s.lobs.temporary + if temporary then {lob} else {}))
    case Release(i) => s.(lobs := s.lobs.Release(i))
    case Logoff => s.(lobs := s.lobs.ReleaseAll(), closed := true)
    case Destroy => s.(lobs := s.lobs.ReleaseAll().Clear(), closed := true, destroyed := true)
    case Advance(t, trouble) => Advanced(s, t, trouble)
  }

  ghost predicate Run(s: State, run: seq<Action>, end: State)
    decreases |run|
  {
    if run == [] then s == end else Enabled(s, run[0]) && Run(Next(s, run[0]), run[1..], end)
  }

  // Conservation of locators

  function InHand(place: Place, lob: Locator): nat {
    if (place.Popped? || place.Freeing? || place.Freed? || place.FreeingLocked?) && place.lob == lob then 1 else 0
  }

  function InHands(places: seq<Place>, lob: Locator): nat {
    if places == [] then 0 else InHand(places[0], lob) + InHands(places[1..], lob)
  }

  lemma {:induction false} MovingInHands(places: seq<Place>, t: nat, place: Place, lob: Locator)
    requires t < |places|
    ensures InHands(places[t := place], lob) + InHand(places[t], lob) == InHands(places, lob) + InHand(place, lob)
  {
    var moved := places[t := place];
    if t == 0 {
      assert moved[1..] == places[1..];
    } else {
      assert moved[1..] == places[1..][t - 1 := place];
      MovingInHands(places[1..], t - 1, place, lob);
    }
  }

  lemma {:induction false} EmptyHandsOutside(places: seq<Place>, lob: Locator)
    requires forall t :: 0 <= t < |places| ==> places[t].Outside?
    ensures InHands(places, lob) == 0
  {
    if places != [] {
      EmptyHandsOutside(places[1..], lob);
    }
  }

  lemma {:induction false} SpawnInHands(places: seq<Place>, lob: Locator)
    ensures InHands(places + [Outside], lob) == InHands(places, lob)
  {
    if places != [] {
      assert (places + [Outside])[1..] == places[1..] + [Outside];
      SpawnInHands(places[1..], lob);
    }
  }

  function Count(lobs: seq<Locator>, lob: Locator): nat {
    if lobs == [] then 0 else (if lobs[0] == lob then 1 else 0) + Count(lobs[1..], lob)
  }

  lemma {:induction false} CountSum(xs: seq<Locator>, ys: seq<Locator>, lob: Locator)
    ensures Count(xs + ys, lob) == Count(xs, lob) + Count(ys, lob)
  {
    if xs == [] {
      assert xs + ys == ys;
    } else {
      assert (xs + ys)[1..] == xs[1..] + ys;
      CountSum(xs[1..], ys, lob);
    }
  }

  /** How often the LOBs of a connection that no thread has in hand include a locator. */
  function Kept(lobs: Lobs, lob: Locator): nat {
    Count(lobs.live, lob) + Count(lobs.queue, lob) + Count(lobs.log, lob)
  }

  lemma PushKeeps(lobs: Lobs, x: Locator, lob: Locator)
    ensures Kept(lobs.Push(x), lob) == Kept(lobs, lob) + if x == lob then 1 else 0
  {
    CountSum([x], lobs.queue, lob);
  }

  lemma FreeKeeps(lobs: Lobs, x: Locator, lob: Locator)
    ensures Kept(lobs.Free(x), lob) == Kept(lobs, lob) + if x == lob then 1 else 0
  {
    CountSum(lobs.log, [x], lob);
  }

  lemma ReleaseKeeps(lobs: Lobs, i: nat, lob: Locator)
    requires i < |lobs.live|
    ensures Kept(lobs.Release(i), lob) == Kept(lobs, lob)
  {
    var x := lobs.live[i];
    assert lobs.live == (lobs.live[..i] + [x]) + lobs.live[i + 1..];
    CountSum(lobs.live[..i] + [x], lobs.live[i + 1..], lob);
    CountSum(lobs.live[..i], [x], lob);
    CountSum(lobs.live[..i], lobs.live[i + 1..], lob);
    var rest := lobs.(live := lobs.live[..i] + lobs.live[i + 1..]);
    PushKeeps(rest, x, lob);
    FreeKeeps(rest, x, lob);
  }

  lemma {:induction false} ReleaseAllKeeps(lobs: Lobs, lob: Locator)
    ensures Kept(lobs.ReleaseAll(), lob) == Kept(lobs, lob)
    decreases |lobs.live|
  {
    if lobs.live != [] {
      ReleaseKeeps(lobs, 0, lob);
      ReleaseAllKeeps(lobs.Release(0), lob);
    }
  }

  /** In how many places a locator is. */
  function Holdings(s: State, lob: Locator): nat {
    Kept(s.lobs, lob) + InHands(s.places, lob)
  }

  ghost predicate Conserved(s: State, lob: Locator) {
    && Holdings(s, lob) == (if lob in s.lobs.created then 1 else 0)
    && (s.destroyed ==> s.closed && s.lobs.live == [] && s.lobs.queue == []
                        && forall t :: 0 <= t < |s.places| ==> s.places[t].Outside?)
  }

  /** A thread moves a locator between its hand, the queue and the freed ones. */
  lemma HandToHand(s: State, t: Thread, trouble: bool, lob: Locator)
    requires t < |s.places|
    ensures var m := Move(s, t, trouble);
      && m.lobs.created == s.lobs.created
      && Kept(m.lobs, lob) + InHand(m.place, lob) == Kept(s.lobs, lob) + InHand(s.places[t], lob)
  {
    match s.places[t]
    case Popped(x) => PushKeeps(s.lobs, x, lob);
    case Freed(x) =>
      PushKeeps(s.lobs, x, lob);
      FreeKeeps(s.lobs, x, lob);
    case FreeingLocked(x) => FreeKeeps(s.lobs.Return(x), x, lob);
    case _ =>
  }

  lemma ThreadConserves(s: State, t: Thread, trouble: bool, lob: Locator)
    requires Conserved(s, lob) && Enabled(s, Advance(t, trouble))
    ensures Conserved(Advanced(s, t, trouble), lob)
  {
    HandToHand(s, t, trouble, lob);
    MovingInHands(s.places, t, Move(s, t, trouble).place, lob);
  }

  /** Each step keeps every locator in one place, in whatever order threads, frees and raises interleave. */
  lemma StepConserves(s: State, a: Action, lob: Locator)
    requires Conserved(s, lob) && Enabled(s, a)
    ensures Conserved(Next(s, a), lob)
  {
    match a
    case Spawn => SpawnInHands(s.places, lob);
    case SetNonBlocking(on) =>
    case SetSuppress(on) =>
    case Create(added, _) => CountSum(s.lobs.live, [added], lob);
    case Release(i) => ReleaseKeeps(s.lobs, i, lob);
    case Logoff => ReleaseAllKeeps(s.lobs, lob);
    case Destroy =>
      ReleaseAllKeeps(s.lobs, lob);
      CountSum(s.lobs.ReleaseAll().log, s.lobs.ReleaseAll().queue, lob);
    case Advance(t, trouble) => ThreadConserves(s, t, trouble, lob);
  }

  lemma {:induction false} RunConserves(s: State, run: seq<Action>, end: State, lob: Locator)
    requires Conserved(s, lob) && Run(s, run, end)
    ensures Conserved(end, lob)
    decreases |run|
  {
    if run != [] {
      StepConserves(s, run[0], lob);
      RunConserves(Next(s, run[0]), run[1..], end, lob);
    }
  }

  /**
   * Over every run: a descriptor is freed at most once and never while a handle, the queue or a draining thread
   * still holds it; and when the free callback of the connection has run, every locator ever created has been
   * freed exactly once and none is queued.
   */
  lemma LocatorsAreFreedOnce(run: seq<Action>, s: State, lob: Locator)
    requires Run(INITIAL, run, s)
    ensures Holdings(s, lob) == (if lob in s.lobs.created then 1 else 0)
    ensures s.destroyed ==>
              s.lobs.queue == [] && Count(s.lobs.log, lob) == if lob in s.lobs.created then 1 else 0
  {
    RunConserves(INITIAL, run, s, lob);
    if s.destroyed {
      EmptyHandsOutside(s.places, lob);
    }
  }

  // Temporary locators go through the queue, and only they

  ghost predicate InNoHand(places: seq<Place>, lob: Locator) {
    forall t :: 0 <= t < |places| ==> InHand(places[t], lob) == 0
  }

  /** What is true of one locator: in the queue and in hands are temporary ones, and those are freed by OCI first. */
  ghost predicate Proper(s: State, lob: Locator) {
    && (lob in s.lobs.queue || lob in s.lobs.returned || !InNoHand(s.places, lob) ==> lob in s.lobs.temporary)
    && (lob in s.lobs.temporary ==> lob in s.lobs.created)
    && (lob in s.lobs.temporary && !s.destroyed && lob in s.lobs.log ==> lob in s.lobs.returned)
    && (forall t {:trigger s.places[t]} :: 0 <= t < |s.places| && s.places[t] == Freed(lob) ==> lob in s.lobs.returned)
  }

  lemma {:induction false} CountIn(lobs: seq<Locator>, lob: Locator)
    ensures Count(lobs, lob) > 0 <==> lob in lobs
  {
    if lobs != [] {
      CountIn(lobs[1..], lob);
      assert lobs == [lobs[0]] + lobs[1..];
    }
  }

  lemma {:induction false} EmptyHands(places: seq<Place>, lob: Locator)
    ensures InHands(places, lob) == 0 <==> InNoHand(places, lob)
  {
    if places != [] {
      EmptyHands(places[1..], lob);
      assert places == [places[0]] + places[1..];
    }
  }

  lemma ReleaseSorts(lobs: Lobs, lob: Locator)
    requires lobs.live != []
    ensures var x, r := lobs.live[0], lobs.Release(0);
      && r.queue == (if x in lobs.temporary then [x] + lobs.queue else lobs.queue)
      && r.log == (if x in lobs.temporary then lobs.log else lobs.log + [x])
      && (lob in lobs.live <==> lob == x || lob in r.live)
  {
    assert lobs.live == [lobs.live[0]] + lobs.live[1..];
    assert lobs.live[..0] + lobs.live[1..] == lobs.live[1..];
  }

  /** Freeing the handles queues the temporary locators among theirs and frees the others. */
  lemma {:induction false} ReleaseAllSorts(lobs: Lobs, lob: Locator)
    ensures var r := lobs.ReleaseAll();
      && (lob in r.queue <==> lob in lobs.queue || (lob in lobs.live && lob in lobs.temporary))
      && (lob in r.log <==> lob in lobs.log || (lob in lobs.live && lob !in lobs.temporary))
    decreases |lobs.live|
  {
    if lobs.live != [] {
      ReleaseSorts(lobs, lob);
      ReleaseAllSorts(lobs.Release(0), lob);
    }
  }

  lemma ThreadKeepsProper(s: State, t: Thread, trouble: bool, lob: Locator)
    requires Proper(s, lob) && Enabled(s, Advance(t, trouble))
    ensures Proper(Advanced(s, t, trouble), lob)
  {
    var n := Advanced(s, t, trouble);
    assert InHand(s.places[t], lob) == 1 ==> lob in s.lobs.temporary;
    assert forall u :: 0 <= u < |s.places| && u != t ==> n.places[u] == s.places[u];
    if s.lobs.queue != [] {
      assert s.lobs.queue[0] in s.lobs.queue;
    }
  }

  lemma StepKeepsProper(s: State, a: Action, lob: Locator)
    requires Proper(s, lob) && Conserved(s, lob) && Enabled(s, a)
    ensures Proper(Next(s, a), lob)
  {
    match a
    case Create(added, _) =>
      CountIn(s.lobs.queue, lob);
      CountIn(s.lobs.log, lob);
      EmptyHands(s.places, lob);
    case Release(i) => assert s.lobs.live[i] in s.lobs.live;
    case Logoff => ReleaseAllSorts(s.lobs, lob);
    case Destroy => EmptyHandsOutside(s.places, lob);
    case Advance(t, trouble) => ThreadKeepsProper(s, t, trouble, lob);
    case _ =>
  }

  lemma {:induction false} RunKeepsProper(s: State, run: seq<Action>, end: State, lob: Locator)
    requires Proper(s, lob) && Conserved(s, lob) && Run(s, run, end)
    ensures Proper(end, lob) && Conserved(end, lob)
    decreases |run|
  {
    if run != [] {
      StepKeepsProper(s, run[0], lob);
      StepConserves(s, run[0], lob);
      RunKeepsProper(Next(s, run[0]), run[1..], end, lob);
    }
  }

  /**
   * Over every run until the connection is destroyed: what is queued, in a thread's hand or was passed to
   * OCILobFreeTemporary is temporary, a descriptor of a temporary LOB is freed only after that call came back for it,
   * and a permanent locator is in its handle or its descriptor is freed.
   */
  lemma OnlyTemporariesAreQueued(run: seq<Action>, s: State, lob: Locator)
    requires Run(INITIAL, run, s)
    ensures lob in s.lobs.queue || lob in s.lobs.returned ==> lob in s.lobs.temporary
    ensures forall t :: 0 <= t < |s.places| && InHand(s.places[t], lob) > 0 ==> lob in s.lobs.temporary
    ensures !s.destroyed && lob in s.lobs.log ==> (lob in s.lobs.temporary <==> lob in s.lobs.returned)
    ensures lob in s.lobs.created && lob !in s.lobs.temporary ==> lob in s.lobs.live || lob in s.lobs.log
  {
    RunKeepsProper(INITIAL, run, s, lob);
    CountIn(s.lobs.live, lob);
    CountIn(s.lobs.queue, lob);
    CountIn(s.lobs.log, lob);
    EmptyHands(s.places, lob);
  }

  /** A destroyed connection was destroyed at some point of the run, and its locators have not changed since. */
  lemma {:induction false} WhenDestroyed(s: State, run: seq<Action>, end: State, lob: Locator)
    returns (k: nat, at: State)
    requires Run(s, run, end) && !s.destroyed && end.destroyed && Conserved(s, lob)
    ensures k < |run| && run[k] == Destroy && Run(s, run[..k], at) && Enabled(at, Destroy)
    ensures end.lobs == Next(at, Destroy).lobs
    decreases |run|
  {
    StepConserves(s, run[0], lob);
    if run[0] == Destroy {
      k, at := 0, s;
      StaysDestroyed(Next(s, Destroy), run[1..], end, lob);
    } else {
      k, at := WhenDestroyed(Next(s, run[0]), run[1..], end, lob);
      k := k + 1;
      assert run[..k][1..] == run[1..][..k - 1];
    }
  }

  lemma {:induction false} StaysDestroyed(s: State, run: seq<Action>, end: State, lob: Locator)
    requires Run(s, run, end) && s.destroyed && Conserved(s, lob)
    ensures end.lobs == s.lobs
    decreases |run|
  {
    if run != [] {
      StepConserves(s, run[0], lob);
      StaysDestroyed(Next(s, run[0]), run[1..], end, lob);
    }
  }

  /**
   * Of a destroyed connection: the descriptor of a temporary LOB for which that call never came back was freed because
   * the locator was still queued, or its handle still there, when the connection was destroyed.
   */
  lemma DroppedWhenDestroyed(run: seq<Action>, s: State, lob: Locator) returns (k: nat, at: State)
    requires Run(INITIAL, run, s) && s.destroyed
    requires lob in s.lobs.log && lob in s.lobs.temporary && lob !in s.lobs.returned
    ensures k < |run| && run[k] == Destroy && Run(INITIAL, run[..k], at)
    ensures lob in at.lobs.queue || lob in at.lobs.live
  {
    k, at := WhenDestroyed(INITIAL, run, s, lob);
    RunKeepsProper(INITIAL, run[..k], at, lob);
    ReleaseAllSorts(at.lobs, lob);
  }

  /** A thread that leaves with a locator in its hand, because of a raise, puts it back in front of the queue. */
  lemma RaiseQueuesAgain(s: State, t: Thread, trouble: bool, lob: Locator)
    requires Enabled(s, Advance(t, trouble)) && InHand(s.places[t], lob) > 0
    ensures var n := Advanced(s, t, trouble);
            n.places[t].Outside? ==> n.lobs.queue == [lob] + s.lobs.queue && n.lobs.log == s.lobs.log
  {
  }

  // Mutual exclusion

  predicate InOciCall(place: Place) {
    place.Freeing? || place.FreeingLocked? || place.Calling? || place.CallingLocked?
  }

  ghost predicate Exclusive(s: State) {
    forall t, u {:trigger s.places[t], s.places[u]} ::
      0 <= t < |s.places| && 0 <= u < |s.places| && InOciCall(s.places[t]) && InOciCall(s.places[u]) ==> t == u
  }

  /** What a caller can check before it enters: nothing is pending that would be freed without the lock. */
  predicate Clean(s: State, a: Action) {
    a.Advance? && a.t < |s.places| && s.places[a.t].Outside? ==> s.lobs.queue == [] || s.suppress || !s.nonBlocking
  }

  ghost predicate CleanRun(s: State, run: seq<Action>, end: State)
    decreases |run|
  {
    if run == [] then s == end
    else Enabled(s, run[0]) && Clean(s, run[0]) && CleanRun(Next(s, run[0]), run[1..], end)
  }

  predicate HoldsLock(place: Place) {
    place.LoopHead? || place.Popped? || place.FreeingLocked? || place.Ready? || place.CallingLocked?
  }

  /** The state of one thread, in terms of the connection, when all entries were clean. */
  predicate Guarded(s: State, t: Thread) {
    var here := if t < |s.places| then s.places[t] else Outside;
    && (s.executing == Some(t) <==> here.Calling? || here.Called?)
    && (s.lock == Some(t) <==> HoldsLock(here))
    && (HoldsLock(here) ==> s.executing == None)
    && !here.Popped? && !here.Freeing? && !here.Freed?
    && (here.LoopHead? && s.nonBlocking ==> s.lobs.queue == [])
    && (here.FreeingLocked? ==> !s.nonBlocking)
  }

  ghost predicate AllGuarded(s: State) {
    forall t: Thread :: Guarded(s, t)
  }

  /** A step of one thread keeps its own state and everybody else's. */
  lemma ThreadKeepsGuarded(s: State, t: Thread, trouble: bool, u: Thread)
    requires Enabled(s, Advance(t, trouble)) && Clean(s, Advance(t, trouble))
    requires Guarded(s, t) && Guarded(s, u)
    ensures Guarded(Advanced(s, t, trouble), u)
  {
  }

  /** So does everything else that can happen meanwhile. */
  lemma OthersKeepGuarded(s: State, a: Action, u: Thread)
    requires !a.Advance? && Enabled(s, a) && Guarded(s, u)
    ensures Guarded(Next(s, a), u)
  {
  }

  lemma StepKeepsGuarded(s: State, a: Action)
    requires AllGuarded(s) && Clean(s, a) && Enabled(s, a)
    ensures AllGuarded(Next(s, a))
  {
    forall u: Thread ensures Guarded(Next(s, a), u) {
      assert Guarded(s, u);
      if a.Advance? {
        assert Guarded(s, a.t);
        ThreadKeepsGuarded(s, a.t, a.trouble, u);
      } else {
        OthersKeepGuarded(s, a, u);
      }
    }
  }

  /**
   * For every run whose entries are clean, whatever the mix of blocking and non-blocking callers: at most one
   * thread is in an OCI call, and executing_thread names a thread only while that thread is in its call.
   */
  lemma {:induction false} CleanRunsAreExclusive(s: State, run: seq<Action>, end: State)
    requires AllGuarded(s) && CleanRun(s, run, end)
    ensures AllGuarded(end) && Exclusive(end)
    decreases |run|
  {
    if run == [] {
      forall t, u | 0 <= t < |s.places| && 0 <= u < |s.places| && InOciCall(s.places[t]) && InOciCall(s.places[u])
        ensures t == u
      {
        assert Guarded(s, t) && Guarded(s, u);
      }
    } else {
      StepKeepsGuarded(s, run[0]);
      CleanRunsAreExclusive(Next(s, run[0]), run[1..], end);
    }
  }

  /** So it is from the first thread on. */
  lemma ExclusiveFromTheStart(run: seq<Action>, end: State)
    requires CleanRun(INITIAL, run, end)
    ensures AllGuarded(end) && Exclusive(end)
  {
    assert AllGuarded(INITIAL);
    CleanRunsAreExclusive(INITIAL, run, end);
  }

  /** The guard is free again after every normal or raising exit of a call that was let in. */
  lemma GuardIsFreeAfterExit(s: State, t: Thread, trouble: bool)
    requires AllGuarded(s) && Enabled(s, Advance(t, trouble)) && !s.places[t].Outside?
    requires Advanced(s, t, trouble).places[t].Outside?
    ensures Advanced(s, t, trouble).executing == None && Advanced(s, t, trouble).lock == None
  {
    assert Guarded(s, t);
  }

  /**
   * In any state, clean or not: after the exit of a call that was let in, the guard is still set exactly if the
   * thread was freeing a locator and found the guard set or was interrupted before the free, or came back from the
   * free while another thread had set it, or was in a blocking call while it was set.
   */
  lemma GuardAfterExit(s: State, t: Thread, trouble: bool)
    requires Enabled(s, Advance(t, trouble)) && !s.places[t].Outside? && Advanced(s, t, trouble).places[t].Outside?
    ensures Advanced(s, t, trouble).executing != None <==>
              || (s.places[t].Popped? && (s.executing != None || trouble))
              || ((s.places[t].Freed? || s.places[t].CallingLocked?) && s.executing != None)
  {
  }

  ghost predicate Idle(s: State) {
    forall t :: 0 <= t < |s.places| ==> s.places[t].Outside?
  }

  /** A guard that is set while nobody is inside stays set: every entry is refused, over every run. */
  lemma {:induction false} RefusedForGood(s: State, run: seq<Action>, end: State)
    requires Idle(s) && s.executing != None && Run(s, run, end)
    ensures Idle(end) && end.executing == s.executing
    decreases |run|
  {
    if run != [] {
      var s1 := Next(s, run[0]);
      if run[0].Advance? {
        assert s1 == s;
      }
      RefusedForGood(s1, run[1..], end);
    }
  }

  lemma RunOn(s: State, a: Action, run: seq<Action>, end: State)
    requires Enabled(s, a) && Run(Next(s, a), run, end)
    ensures Run(s, [a] + run, end)
  {
    assert ([a] + run)[1..] == run;
  }

  /** A thread enters, frees the first locator of the queue, and is not yet back. */
  function AtFreed(s: State, t: Thread): State
    requires t < |s.places| && s.lobs.queue != []
  {
    var lob := s.lobs.queue[0];
    s.(places := s.places[t := Freed(lob)], lobs := s.lobs.Pop().Return(lob))
  }

  lemma GetsToFreed(s: State, t: Thread, run: seq<Action>, end: State)
    requires t < |s.places| && s.places[t].Outside? && s.lock == None && s.executing == None && !s.destroyed
    requires s.nonBlocking && !s.suppress && s.lobs.queue != [] && Run(AtFreed(s, t), run, end)
    ensures exists r :: Run(s, r, end)
  {
    var go := Advance(t, false);
    var s1 := Next(s, go);
    var s2 := Next(s1, go);
    var s3 := Next(s2, go);
    assert Next(s3, go) == AtFreed(s, t);
    RunOn(s3, go, run, end);
    RunOn(s2, go, [go] + run, end);
    RunOn(s1, go, [go] + ([go] + run), end);
    RunOn(s, go, [go] + ([go] + ([go] + run)), end);
  }

  /**
   * An interrupt after the free is enough to queue the locator again: OCILobFreeTemporary comes back for it a second
   * time before its descriptor is freed.
   */
  lemma FreedAgain(s: State, t: Thread)
    requires Idle(s) && s.lock == None && s.executing == None && !s.destroyed && t < |s.places|
    requires s.nonBlocking && !s.suppress && s.lobs.queue != []
    ensures exists run, end :: Run(s, run, end)
              && end.lobs.returned == s.lobs.returned + [s.lobs.queue[0]] + [s.lobs.queue[0]]
              && end.lobs.log == s.lobs.log
  {
    var back := Next(AtFreed(s, t), Advance(t, true));
    assert back.lobs.queue == s.lobs.queue && back.places[t] == Outside;
    var end := AtFreed(back, t);
    assert Run(end, [], end);
    GetsToFreed(back, t, [], end);
    var run :| Run(back, run, end);
    RunOn(AtFreed(s, t), Advance(t, true), run, end);
    GetsToFreed(s, t, [Advance(t, true)] + run, end);
  }

  /** An interrupt between setting the guard and freeing a locator is all it takes. */
  lemma InterruptLeavesGuardSet(s: State, t: Thread)
    requires Idle(s) && s.lock == None && s.executing == None && !s.destroyed && t < |s.places|
    requires s.nonBlocking && !s.suppress && s.lobs.queue != []
    ensures exists run, end :: Run(s, run, end) && Idle(end) && end.executing == Some(t)
  {
    var go := Advance(t, false);
    var s1 := Next(s, go);
    var s2 := Next(s1, go);
    var s3 := Next(s2, Advance(t, true));
    assert Run(s3, [], s3);
    assert Run(s2, [Advance(t, true)], s3) by { assert [Advance(t, true)][1..] == []; }
    assert Run(s1, [go, Advance(t, true)], s3) by { assert [go, Advance(t, true)][1..] == [Advance(t, true)]; }
    var run := [go, go, Advance(t, true)];
    assert run[1..] == [go, Advance(t, true)];
    assert Run(s, run, s3);
  }

  // What pending locators do to the guard

  lemma Prepend(s: State, a: Action, run: seq<Action>, end: State)
    requires Enabled(s, a) && Clean(s, a) && CleanRun(Next(s, a), run, end)
    ensures CleanRun(s, [a] + run, end)
  {
    assert ([a] + run)[1..] == run;
  }

  /** A thread that enters with nothing to drain, and with a free guard, gets into its call. */
  lemma GetsIn(s: State, t: Thread, run: seq<Action>, end: State)
    requires t < |s.places| && s.places[t].Outside? && s.lock == None && !s.destroyed && s.nonBlocking
    requires s.executing == None && s.lobs.queue == [] && !s.suppress
    requires CleanRun(s.(places := s.places[t := Calling], executing := Some(t)), run, end)
    ensures exists r :: CleanRun(s, r, end)
  {
    var go := Advance(t, false);
    var s1 := Next(s, go);
    var s2 := Next(s1, go);
    assert Next(s2, go) == s.(places := s.places[t := Calling], executing := Some(t));
    Prepend(s2, go, run, end);
    Prepend(s1, go, [go] + run, end);
    Prepend(s, go, [go] + ([go] + run), end);
  }

  /** A thread that has freed the last locator finds the guard set, and opens it. */
  function Refused(s: State, t: Thread): State
    requires t < |s.places| && s.places[t].Freed?
  {
    s.(places := s.places[t := Outside], executing := None, lobs := s.lobs.Free(s.places[t].lob))
  }

  lemma IsRefused(s: State, t: Thread, run: seq<Action>, end: State)
    requires t < |s.places| && s.places[t].Freed? && s.lock == None && s.executing.Some? && s.lobs.queue == []
    requires s.nonBlocking && CleanRun(Refused(s, t), run, end)
    ensures exists r :: CleanRun(s, r, end)
  {
    var go := Advance(t, false);
    var s1 := Next(s, go);
    var s2 := Next(s1, go);
    assert Next(s2, go) == Refused(s, t);
    Prepend(s2, go, run, end);
    Prepend(s1, go, [go] + run, end);
    Prepend(s, go, [go] + ([go] + run), end);
  }

  /**
   * The locator just freed was the last: the guard is already open although the thread is not done. Another
   * thread gets in, the first one is refused and opens the guard once more, and gets in itself.
   */
  lemma OpenGuardLetsTwoIn(s: State, t: Thread, u: Thread)
    requires t != u && t < |s.places| && u < |s.places| && s.places[t].Freed? && s.places[u].Outside?
    requires s.lock == None && s.executing == None && s.lobs.queue == []
    requires s.nonBlocking && !s.suppress && !s.destroyed
    ensures exists r, end :: CleanRun(s, r, end) && !Exclusive(end)
  {
    var s1 := s.(places := s.places[u := Calling], executing := Some(u));
    var s4 := Refused(s1, t);
    var end := s4.(places := s4.places[t := Calling], executing := Some(t));
    assert InOciCall(end.places[t]) && InOciCall(end.places[u]);
    assert CleanRun(end, [], end);
    GetsIn(s4, t, [], end);
    var r :| CleanRun(s4, r, end);
    IsRefused(s1, t, r, end);
    var q :| CleanRun(s1, q, end);
    GetsIn(s, u, q, end);
  }

  lemma {:induction false} DrainOpensGuard(s: State, t: Thread, u: Thread)
    requires t != u && t < |s.places| && u < |s.places| && s.places[t].LoopHead? && s.places[u].Outside?
    requires s.lock == Some(t) && s.executing == None && s.lobs.queue != []
    requires s.nonBlocking && !s.suppress && !s.destroyed
    ensures exists r, end :: CleanRun(s, r, end) && !Exclusive(end)
    decreases |s.lobs.queue|
  {
    var go := Advance(t, false);
    var s1 := Next(s, go);
    var s2 := Next(s1, go);
    var s3 := Next(s2, go);
    ghost var run, end;
    if s3.lobs.queue == [] {
      OpenGuardLetsTwoIn(s3, t, u);
      run, end :| CleanRun(s3, run, end) && !Exclusive(end);
    } else {
      DrainOpensGuard(Next(s3, go), t, u);
      run, end :| CleanRun(Next(s3, go), run, end) && !Exclusive(end);
      Prepend(s3, go, run, end);
      run := [go] + run;
    }
    Prepend(s2, go, run, end);
    Prepend(s1, go, [go] + run, end);
    Prepend(s, go, [go] + ([go] + run), end);
  }

  /**
   * Exactly when an entry is safe: if it is clean, exclusion holds over every continuation whose own entries are
   * clean; if it is not, some such continuation breaks it as soon as there is a second thread.
   */
  lemma EntryIsSafeIffClean(s: State, t: Thread, u: Thread)
    requires AllGuarded(s) && s.lock == None && s.executing == None && !s.destroyed
    requires t != u && t < |s.places| && u < |s.places| && s.places[t].Outside? && s.places[u].Outside?
    ensures (forall run, end :: CleanRun(Next(s, Advance(t, false)), run, end) ==> Exclusive(end))
            <==> Clean(s, Advance(t, false))
  {
    var s1 := Next(s, Advance(t, false));
    if Clean(s, Advance(t, false)) {
      StepKeepsGuarded(s, Advance(t, false));
      forall run, end | CleanRun(s1, run, end) ensures Exclusive(end) {
        CleanRunsAreExclusive(s1, run, end);
      }
    } else {
      DrainOpensGuard(s1, t, u);
    }
  }
}
