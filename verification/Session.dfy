/** A connection from its handles to its logoff, and the OCI calls it makes on the way. */
module Session {
  import opened Basics

  datatype Kind = Service | User | Server

  /** An OCI call of the connection; ok is what OCI answers. */
  datatype Event =
    | Alloc(kind: Kind)
    | Attach(ok: bool)
    | SetServer(ok: bool)
    | Begin(ok: bool)
    | SetUser(ok: bool)
    | Version(ok: bool)
    | AskTransaction(pending: bool)
    | Rollback
    | End
    | Detach
    | Free(kind: Kind)
    | NullCall(kind: Kind)   // a call on a handle that was never allocated: OCI refuses it, and nothing happens

  // What OCI expects of the calls, watched from outside

  datatype Life = Absent | Live | Gone

  datatype Lives = Lives(service: Life, user: Life, server: Life) {
    function Of(kind: Kind): Life {
      match kind case Service => service case User => user case Server => server
    }

    function With(kind: Kind, life: Life): Lives {
      match kind
      case Service => this.(service := life)
      case User => this.(user := life)
      case Server => this.(server := life)
    }
  }

  datatype Watch = Watch(
    lives: Lives,
    attached: bool, begun: bool,         // as OCI has it
    serverSet: bool, userSet: bool,      // the service handle knows its server and its session
    attaches: nat, begins: nat,          // those that succeeded
    asked: nat, settled: nat,            // OCI was asked for a transaction, and said there was none
    rollbacks: nat, ends: nat, detaches: nat, nulls: nat
  )

  /**
   * The calls OCI allows: handles live from Alloc to Free, a session or a server is set in the service handle, or left,
   * only if entered, and a version is asked for in a session.
   */
  predicate Allowed(w: Watch, e: Event) {
    match e
    case Alloc(kind) => w.lives.Of(kind).Absent?
    case Attach(_) => w.lives.server.Live?
    case SetServer(_) => w.lives.service.Live? && w.lives.server.Live? && w.attached
    case Begin(_) => w.lives.service.Live? && w.lives.user.Live?
    case SetUser(_) => w.lives.service.Live? && w.lives.user.Live? && w.begun
    case Version(_) => w.lives.service.Live? && w.begun && w.userSet
    case AskTransaction(_) => w.lives.user.Live?
    case Rollback => w.lives.service.Live? && w.ends == 0 && w.detaches == 0
    case End => w.lives.service.Live? && w.lives.user.Live? && w.begun && w.detaches == 0
    case Detach => w.lives.server.Live? && w.attached
    case Free(kind) => w.lives.Of(kind).Live?
    case NullCall(_) => false
  }

  function LivesAfter(l: Lives, e: Event): Lives {
    match e
    case Alloc(kind) => l.With(kind, Live)
    case Free(kind) => l.With(kind, Gone)
    case _ => l
  }

  function Watched(w: Watch, e: Event): Watch {
    Watch(
      LivesAfter(w.lives, e),
      if e == Attach(true) then true else if e == Detach then false else w.attached,
      if e == Begin(true) then true else if e == End then false else w.begun,
      w.serverSet || e == SetServer(true),
      w.userSet || e == SetUser(true),
      w.attaches + (if e == Attach(true) then 1 else 0),
      w.begins + (if e == Begin(true) then 1 else 0),
      w.asked + (if e.AskTransaction? then 1 else 0),
      w.settled + (if e == AskTransaction(false) then 1 else 0),
      w.rollbacks + (if e == Rollback then 1 else 0),
      w.ends + (if e == End then 1 else 0),
      w.detaches + (if e == Detach then 1 else 0),
      w.nulls + (if e.NullCall? then 1 else 0))
  }

  const UNUSED := Watch(Lives(Absent, Absent, Absent), false, false, false, false, 0, 0, 0, 0, 0, 0, 0, 0)

  /** The calls made so far. */
  datatype Log = Start | Call(past: Log, event: Event)

  function Calls(log: Log): seq<Event> {
    match log case Start => [] case Call(past, event) => Calls(past) + [event]
  }

  function After(log: Log): Watch {
    match log case Start => UNUSED case Call(past, event) => Watched(After(past), event)
  }

  predicate Legal(log: Log) {
    match log case Start => true case Call(past, event) => Legal(past) && Allowed(After(past), event)
  }

  /** Legal apart from calls on the null handle. */
  predicate Safe(log: Log) {
    match log
    case Start => true
    case Call(past, event) => Safe(past) && (event.NullCall? || Allowed(After(past), event))
  }

  /** A safe log is legal if and only if no call is on the null handle. */
  lemma {:induction false} LegalIff(log: Log)
    ensures Legal(log) <==> Safe(log) && After(log).nulls == 0
  {
    if log.Call? {
      LegalIff(log.past);
    }
  }

  function Count(log: Log, e: Event): nat {
    match log case Start => 0 case Call(past, event) => Count(past, e) + if event == e then 1 else 0
  }

  /** In a safe log each handle is allocated at most once, and freed at most as often. */
  lemma {:induction false} FreedOnce(log: Log, kind: Kind)
    requires Safe(log)
    ensures Count(log, Alloc(kind)) == (if After(log).lives.Of(kind).Absent? then 0 else 1)
    ensures Count(log, Free(kind)) == (if After(log).lives.Of(kind).Gone? then 1 else 0)
  {
    if log.Call? {
      FreedOnce(log.past, kind);
    }
  }

  predicate Uses(e: Event, kind: Kind) {
    match kind
    case Service => e.SetServer? || e.Begin? || e.SetUser? || e.Version? || e.Rollback? || e.End? || e == Free(Service)
    case User => e.Begin? || e.SetUser? || e.AskTransaction? || e.End? || e == Free(User)
    case Server => e.Attach? || e.SetServer? || e.Detach? || e == Free(Server)
  }

  lemma {:induction false} GoneAfterFree(log: Log, kind: Kind)
    requires Safe(log) && Free(kind) in Calls(log)
    ensures After(log).lives.Of(kind).Gone?
  {
    if log.event != Free(kind) {
      GoneAfterFree(log.past, kind);
    }
  }

  /** In a safe log no handle is used once it is freed. */
  lemma {:induction false} NotUsedAfterFree(log: Log, i: nat, j: nat)
    requires Safe(log) && i < j < |Calls(log)| && Calls(log)[i].Free?
    ensures !Uses(Calls(log)[j], Calls(log)[i].kind)
  {
    if j < |Calls(log)| - 1 {
      NotUsedAfterFree(log.past, i, j);
    } else {
      GoneAfterFree(log.past, Calls(log)[i].kind);
    }
  }

  lemma {:induction false} DetachIsCounted(log: Log)
    requires Detach in Calls(log)
    ensures After(log).detaches > 0
  {
    if log.event != Detach {
      DetachIsCounted(log.past);
    }
  }

  /** In a safe log a session ends before the server is detached. */
  lemma EndBeforeDetach(past: Log)
    requires Safe(Call(past, End))
    ensures Detach !in Calls(past)
  {
    if Detach in Calls(past) {
      DetachIsCounted(past);
    }
  }

  // The connection

  /** Nothing has been ended, detached or freed. */
  predicate Untouched(w: Watch) {
    w.ends == 0 && w.detaches == 0 && !w.lives.service.Gone? && !w.lives.user.Gone? && !w.lives.server.Gone?
  }

  /** The session was ended and the server detached exactly if they had been set up, and every handle was freed. */
  predicate Finished(w: Watch) {
    && w.ends == (if w.userSet then 1 else 0) && w.detaches == (if w.serverSet then 1 else 0)
    && !w.lives.service.Live? && !w.lives.user.Live? && !w.lives.server.Live?
  }

  lemma {:induction false} WatchCounts(log: Log)
    ensures var w := After(log);
      && w.attaches == Count(log, Attach(true)) && w.begins == Count(log, Begin(true))
      && w.asked == Count(log, AskTransaction(true)) + Count(log, AskTransaction(false))
      && w.settled == Count(log, AskTransaction(false)) && w.rollbacks == Count(log, Rollback)
      && w.ends == Count(log, End) && w.detaches == Count(log, Detach)
      && (w.userSet <==> Count(log, SetUser(true)) > 0) && (w.serverSet <==> Count(log, SetServer(true)) > 0)
  {
    if log.Call? {
      WatchCounts(log.past);
    }
  }

  /** No server was attached after a detach, and no session begun after an end. */
  predicate NoneAfter(w: Watch) {
    (w.attached <==> w.attaches > 0 && w.detaches == 0) && (w.begun <==> w.begins > 0 && w.ends == 0)
  }

  /** What a finished log leaves behind: what succeeded and was never set in the service handle. */
  lemma LeftBehind(log: Log)
    requires Finished(After(log)) && NoneAfter(After(log))
    ensures After(log).attached <==> Count(log, Attach(true)) > 0 && Count(log, SetServer(true)) == 0
    ensures After(log).begun <==> Count(log, Begin(true)) > 0 && Count(log, SetUser(true)) == 0
  {
    WatchCounts(log);
  }

  /**
   * Of a finished log: a new client has asked once for a transaction if there was a session handle; what was open is
   * rolled back, once, unless OCI said that nothing was.
   */
  predicate RolledBack(w: Watch, newClient: bool) {
    && w.asked == (if newClient && !w.lives.user.Absent? then 1 else 0)
    && w.rollbacks == (if !w.lives.service.Absent? && w.settled == 0 then 1 else 0)
  }

  /** OCI has not been asked for a transaction, nor to roll one back. */
  predicate Unasked(w: Watch) {
    w.asked == 0 && w.settled == 0 && w.rollbacks == 0
  }

  /** The rollback comes before the session ends and before the server is detached. */
  lemma {:induction false} RollbackComesFirst(log: Log, i: nat, j: nat)
    requires Safe(log) && i < j < |Calls(log)| && (Calls(log)[i] == End || Calls(log)[i] == Detach)
    ensures Calls(log)[j] != Rollback
  {
    if j < |Calls(log)| - 1 {
      RollbackComesFirst(log.past, i, j);
    } else {
      LeavesAreCounted(log.past, i);
    }
  }

  lemma {:induction false} LeavesAreCounted(log: Log, i: nat)
    requires i < |Calls(log)|
    ensures Calls(log)[i] == End ==> After(log).ends > 0
    ensures Calls(log)[i] == Detach ==> After(log).detaches > 0
  {
    if i < |Calls(log)| - 1 {
      LeavesAreCounted(log.past, i);
    }
  }

  /** A finished log, in terms of its calls. */
  lemma FinishedMeans(log: Log)
    requires Safe(log)
    ensures Finished(After(log)) <==>
              && Count(log, End) == (if Count(log, SetUser(true)) > 0 then 1 else 0)
              && Count(log, Detach) == (if Count(log, SetServer(true)) > 0 then 1 else 0)
              && Count(log, Free(Service)) == Count(log, Alloc(Service))
              && Count(log, Free(User)) == Count(log, Alloc(User))
              && Count(log, Free(Server)) == Count(log, Alloc(Server))
  {
    WatchCounts(log);
    FreedIff(log, Service);
    FreedIff(log, User);
    FreedIff(log, Server);
  }

  lemma FreedIff(log: Log, kind: Kind)
    requires Safe(log)
    ensures Count(log, Free(kind)) == Count(log, Alloc(kind)) <==> !After(log).lives.Of(kind).Live?
  {
    FreedOnce(log, kind);
  }

  /** What complex_logoff_prepare hands to complex_logoff_execute; a flag is false for a NULL handle. */
  datatype LogoffArgs = LogoffArgs(service: bool, user: bool, server: bool, attached: bool, begun: bool)

  /** The arguments that fit the calls made so far. */
  predicate Fits(w: Watch, a: LogoffArgs) {
    && Untouched(w)
    && w.lives.service == (if a.service then Live else Absent)
    && w.lives.user == (if a.user then Live else Absent)
    && w.lives.server == (if a.server then Live else Absent)
    && (a.server ==> a.user) && (a.user ==> a.service)
    && (a.attached ==> w.attached && a.server) && (a.begun ==> w.begun && a.user)
    && (a.attached <==> w.serverSet) && (a.begun <==> w.userSet)
  }

  /** The calls of complex_logoff_execute on handles that were never allocated. */
  function Missing(w: Watch, newClient: bool): nat {
    (if newClient && w.lives.user.Absent? then 1 else 0) + if w.lives.service.Absent? then 1 else 0
  }

  /** The calls of oci8_server_attach, as far as they get. */
  function AttachCalls(log: Log, attachOk: bool, setOk: bool): Log {
    if attachOk then Call(Call(log, Attach(true)), SetServer(setOk)) else Call(log, Attach(false))
  }

  /** The calls of oci8_session_begin, as far as they get. */
  function BeginCalls(log: Log, beginOk: bool, setOk: bool, versionOk: bool): Log {
    if !beginOk then Call(log, Begin(false))
    else if !setOk then Call(Call(log, Begin(true)), SetUser(false))
    else Call(Call(Call(log, Begin(true)), SetUser(true)), Version(versionOk))
  }

  /** What a logoff cannot change any more. */
  predicate SameUntilThen(w: Watch, v: Watch) {
    && w.attaches == v.attaches && w.begins == v.begins && w.serverSet == v.serverSet && w.userSet == v.userSet
    && (w.lives.service.Absent? <==> v.lives.service.Absent?) && (w.lives.user.Absent? <==> v.lives.user.Absent?)
    && (w.lives.server.Absent? <==> v.lives.server.Absent?)
  }

  class Connection {
    const newClient: bool      // oracle_client_version is 12.1 or later
    var closed: bool
    var typed: bool            // base.type: OCI_HTYPE_SVCCTX, or 0
    var strategy: bool         // logoff_strategy: complex_logoff, or NULL
    var service: bool          // base.hp.svc, usrhp and srvhp, or NULL
    var user: bool
    var server: bool
    var attached: bool         // the bits of state
    var begun: bool
    var userTyped: bool        // the Ruby objects that share usrhp and srvhp
    var serverTyped: bool
    ghost var log: Log
    ghost var watch: Watch     // After(log)
    ghost var prepared: nat    // runs of complex_logoff_prepare
    ghost var executed: nat    // runs of complex_logoff_execute
    ghost var tries: nat       // attaches and begins on a handle that was never allocated
    ghost var lost: bool       // prepared, but never started: the call wrapper raised or no native thread started

    ghost function Args(): LogoffArgs
      reads this
    {
      LogoffArgs(service, user, server, attached, begun)
    }

    ghost predicate Logged()
      reads this`log, this`watch
    {
      Safe(log) && watch == After(log) && NoneAfter(watch)
    }

    ghost predicate Valid()
      reads this
    {
      && Logged()
      && executed <= prepared <= 1 && (lost <==> executed < prepared)
      && (closed ==> !typed && !strategy)
      && (prepared == 0 ==> Fits(watch, Args()) && typed == service)
      && (prepared == 0 && !strategy ==> log == Start)
      && (prepared == 1 ==> closed && !user && !server && !attached && !begun)
      && (if executed == 0 then Untouched(watch) && Unasked(watch)
          else Finished(watch) && RolledBack(watch, newClient))
      && watch.nulls == tries + if executed == 0 then 0 else Missing(watch, newClient)
    }

    constructor (newClient: bool)
      ensures Valid() && log == Start && !closed && !strategy && this.newClient == newClient && tries == 0
    {
      this.newClient, tries := newClient, 0;
      closed, typed, strategy, userTyped, serverTyped := false, false, false, false, false;
      service, user, server, attached, begun := false, false, false, false, false;
      log, watch, prepared, executed, lost := Start, UNUSED, 0, 0, false;
    }

    ghost method Note(e: Event)
      requires Logged() && (e.NullCall? || Allowed(watch, e))
      requires (e.Attach? ==> watch.detaches == 0) && (e.Begin? ==> watch.ends == 0)
      modifies this`log, this`watch
      ensures Logged() && log == Call(old(log), e) && watch == Watched(old(watch), e)
    {
      log, watch := Call(log, e), Watched(watch, e);
    }

    /** oci8_allocate_handles; the arguments say which allocations succeed. */
    method AllocateHandles(okService: bool, okUser: bool, okServer: bool) returns (raised: bool)
      requires Valid()
      modifies this`strategy, this`service, this`typed, this`user, this`userTyped, this`server, this`serverTyped
      modifies this`attached, this`begun, this`log, this`watch
      ensures Valid()
      ensures raised <==> old(closed || strategy) || !okService || !okUser || !okServer
      ensures old(closed || strategy) ==> log == old(log)
      ensures !old(closed || strategy) ==>
                && strategy && Args() == LogoffArgs(okService, okService && okUser, okService && okUser && okServer,
                                                    false, false)
    {
      if closed || strategy { return true; }
      strategy, attached, begun := true, false, false;
      if okService {
        Note(Alloc(Service));
        service, typed := true, true;
        raised := AllocateRest(okUser, okServer);
      } else {
        raised := true;
      }
    }

    method AllocateRest(okUser: bool, okServer: bool) returns (raised: bool)
      requires Valid() && strategy && Args() == LogoffArgs(true, false, false, false, false)
      modifies this`user, this`userTyped, this`server, this`serverTyped, this`log, this`watch
      ensures Valid() && Args() == LogoffArgs(true, okUser, okUser && okServer, false, false)
      ensures raised <==> !okUser || !okServer
    {
      raised := true;
      if okUser {
        Note(Alloc(User));
        user, userTyped := true, true;
        raised := AllocateServer(okServer);
      }
    }

    method AllocateServer(ok: bool) returns (raised: bool)
      requires Valid() && strategy && Args() == LogoffArgs(true, true, false, false, false)
      modifies this`server, this`serverTyped, this`log, this`watch
      ensures Valid() && Args() == LogoffArgs(true, true, ok, false, false) && raised == !ok
    {
      if ok {
        Note(Alloc(Server));
        server, serverTyped := true, true;
      }
      raised := !ok;
    }

    /** A call on a handle that is NULL, which OCI refuses. */
    method TryNull(kind: Kind)
      requires Valid() && strategy
      modifies this`log, this`watch, this`tries
      ensures Valid() && tries == old(tries) + 1 && log == Call(old(log), NullCall(kind))
    {
      Note(NullCall(kind));
      tries := tries + 1;
    }

    /** The OCI calls of oci8_server_attach */
    method AttachServer(attachOk: bool, setOk: bool) returns (raised: bool)
      requires Valid() && strategy && server && !attached
      modifies this`log, this`watch, this`attached
      ensures Valid() && (raised <==> !attachOk || !setOk)
      ensures attached == !raised && log == AttachCalls(old(log), attachOk, setOk)
    {
      Note(Attach(attachOk));
      if !attachOk { return true; }
      Note(SetServer(setOk));
      if !setOk { return true; }
      attached := true;
      return false;
    }

    /** The OCI calls of oci8_session_begin */
    method BeginSession(beginOk: bool, setOk: bool, versionOk: bool) returns (raised: bool)
      requires Valid() && strategy && user && !begun
      modifies this`log, this`watch, this`begun
      ensures Valid() && (raised <==> !beginOk || !setOk || !versionOk)
      ensures begun == (beginOk && setOk) && log == BeginCalls(old(log), beginOk, setOk, versionOk)
    {
      Note(Begin(beginOk));
      if !beginOk { return true; }
      Note(SetUser(setOk));
      if !setOk { return true; }
      begun := true;
      Note(Version(versionOk));
      return !versionOk;
    }

    /** oci8_server_attach; entered is false if the call wrapper raises before it calls OCI. */
    method ServerAttach(entered: bool, attachOk: bool, setOk: bool) returns (raised: bool)
      requires Valid()
      modifies this`attached, this`log, this`watch, this`tries
      ensures Valid()
      ensures raised <==> old(closed || !strategy || attached) || !entered || !server || !attachOk || !setOk
      ensures attached == (old(attached) || !raised)
      ensures old(closed || !strategy || attached) || !entered ==> log == old(log) && tries == old(tries)
      ensures !old(closed || !strategy || attached) && entered ==>
                if server then log == AttachCalls(old(log), attachOk, setOk) && tries == old(tries)
                else log == Call(old(log), NullCall(Server)) && tries == old(tries) + 1
    {
      if closed || !strategy || attached || !entered { return true; }
      if server {
        raised := AttachServer(attachOk, setOk);
      } else {
        TryNull(Server);
        raised := true;
      }
    }

    /** oci8_session_begin */
    method SessionBegin(entered: bool, beginOk: bool, setOk: bool, versionOk: bool) returns (raised: bool)
      requires Valid()
      modifies this`begun, this`log, this`watch, this`tries
      ensures Valid()
      ensures raised <==> old(closed || !strategy || begun) || !entered || !user || !beginOk || !setOk || !versionOk
      ensures old(closed || !strategy || begun) || !entered ==>
                begun == old(begun) && log == old(log) && tries == old(tries)
      ensures !old(closed || !strategy || begun) && entered ==>
                if user then
                  begun == (beginOk && setOk) && log == BeginCalls(old(log), beginOk, setOk, versionOk)
                  && tries == old(tries)
                else !begun && log == Call(old(log), NullCall(User)) && tries == old(tries) + 1
    {
      if closed || !strategy || begun || !entered { return true; }
      if user {
        raised := BeginSession(beginOk, setOk, versionOk);
      } else {
        TryNull(User);
        raised := true;
      }
    }

    /** complex_logoff_prepare, and what both callers do next */
    method Prepare() returns (a: LogoffArgs)
      requires Valid() && strategy
      modifies this
      ensures a == old(Args()) && Logged() && Fits(watch, a) && Unasked(watch)
      ensures log == old(log) && watch == old(watch)
      ensures executed == old(executed) && lost == old(lost) && tries == old(tries)
      ensures old(prepared) == 0 && prepared == 1 && closed && !typed && !strategy
      ensures !user && !server && !attached && !begun
    {
      a := LogoffArgs(service, user, server, attached, begun);
      user, server, attached, begun := false, false, false, false;
      typed, closed, strategy := false, true, false;
      prepared := prepared + 1;
    }

    /** The part of complex_logoff_execute about the transaction; txn is what OCI answers. */
    method EndTransaction(a: LogoffArgs, txn: bool)
      requires Logged() && Fits(watch, a) && Unasked(watch)
      modifies this`log, this`watch
      ensures Logged() && Fits(watch, a) && watch.lives == old(watch.lives) && SameUntilThen(old(watch), watch)
      ensures RolledBack(watch, newClient)
      ensures watch.nulls == old(watch.nulls) + Missing(watch, newClient)
      ensures watch.settled == old(watch.settled) + if newClient && a.user && !txn then 1 else 0
    {
      var pending := FindPending(a, txn);
      if pending {
        Note(if a.service then Rollback else NullCall(Service));
      }
    }

    /** A new client asks whether a transaction is open; if that fails, or with an old client, it counts as open. */
    method FindPending(a: LogoffArgs, txn: bool) returns (pending: bool)
      requires Logged() && Fits(watch, a) && Unasked(watch)
      modifies this`log, this`watch
      ensures Logged() && Fits(watch, a) && watch.lives == old(watch.lives) && SameUntilThen(old(watch), watch)
      ensures watch.asked == (if newClient && a.user then 1 else 0) && watch.rollbacks == 0
      ensures watch.settled == (if pending then 0 else 1) && (pending <==> !newClient || !a.user || txn)
      ensures watch.nulls == old(watch.nulls) + if newClient && !a.user then 1 else 0
    {
      pending := true;
      if newClient {
        if a.user {
          Note(AskTransaction(txn));
          pending := txn;
        } else {
          Note(NullCall(User));
        }
      }
    }

    /** Then it leaves the session and the server. */
    method Leave(a: LogoffArgs)
      requires Logged() && Fits(watch, a)
      modifies this`log, this`watch
      ensures Logged() && watch.lives == old(watch.lives) && watch.nulls == old(watch.nulls)
      ensures SameUntilThen(old(watch), watch)
      ensures RolledBack(old(watch), newClient) ==> RolledBack(watch, newClient)
      ensures watch.settled == old(watch.settled)
      ensures watch.ends == (if watch.userSet then 1 else 0) && watch.detaches == (if watch.serverSet then 1 else 0)
    {
      if a.begun { Note(End); }
      if a.attached { Note(Detach); }
    }

    /** complex_logoff_execute */
    method Execute(a: LogoffArgs, txn: bool)
      requires Logged() && Fits(watch, a) && Unasked(watch)
      modifies this`log, this`watch, this`executed
      ensures Logged() && Finished(watch) && executed == old(executed) + 1 && SameUntilThen(old(watch), watch)
      ensures RolledBack(watch, newClient) && watch.settled == if newClient && a.user && !txn then 1 else 0
      ensures watch.nulls == old(watch.nulls) + Missing(watch, newClient)
    {
      EndTransaction(a, txn);
      Leave(a);
      FreeHandles(a);
      executed := executed + 1;
    }

    /** Then it frees the handles that were allocated. */
    method FreeHandles(a: LogoffArgs)
      requires Logged()
      requires watch.lives == Lives(if a.service then Live else Absent, if a.user then Live else Absent,
                                    if a.server then Live else Absent)
      modifies this`log, this`watch
      ensures Logged() && watch == old(watch).(lives := watch.lives)
      ensures watch.lives == Lives(if a.service then Gone else Absent, if a.user then Gone else Absent,
                                   if a.server then Gone else Absent)
    {
      if a.user { Note(Free(User)); }
      if a.server { Note(Free(Server)); }
      if a.service { Note(Free(Service)); }
    }

    /** The logoff as both of its callers run it; started is false if the execution never gets to run. */
    method TearDown(started: bool, txn: bool)
      requires Valid() && strategy
      modifies this
      ensures Valid() && closed && !typed && executed == (if started then 1 else 0) && tries == old(tries)
      ensures started ==> watch.settled == if newClient && old(user) && !txn then 1 else 0
      ensures SameUntilThen(old(watch), watch)
    {
      var a := Prepare();
      if started {
        Execute(a, txn);
      } else {
        lost := true;
      }
    }

    /** The end of oci8_base_free: a handle is freed as its type says. */
    ghost method FreeTyped(isTyped: bool, kind: Kind)
      requires Logged() && (isTyped ==> watch.lives.Of(kind).Live?)
      modifies this`log, this`watch
      ensures Logged() && log == if isTyped then Call(old(log), Free(kind)) else old(log)
      ensures watch == if isTyped then Watched(old(watch), Free(kind)) else old(watch)
    {
      if isTyped { Note(Free(kind)); }
    }

    /** oci8_base_free on the session and the server object, whose callback is oci8_handle_dont_free */
    method FreeChildren()
      requires Logged()
      modifies this`userTyped, this`serverTyped, this`log, this`watch
      ensures log == old(log) && watch == old(watch) && !userTyped && !serverTyped
    {
      userTyped := false;
      FreeTyped(userTyped, User);
      serverTyped := false;
      FreeTyped(serverTyped, Server);
    }

    /**
     * oci8_svcctx_logoff, once its children are freed: entered is false if the call wrapper raises before it runs
     * the execution, and broken is true if it raises afterwards.
     */
    method Logoff(entered: bool, broken: bool, txn: bool) returns (raised: bool)
      requires Valid()
      modifies this
      ensures Valid()
      ensures old(closed) ==> raised && log == old(log)
      ensures !old(closed) && old(strategy) ==>
                && closed && executed == (if entered then 1 else 0) && (raised <==> !entered || broken)
                && (entered ==> watch.settled == if newClient && old(user) && !txn then 1 else 0)
      ensures tries == old(tries) && SameUntilThen(old(watch), watch)
      ensures !old(closed) && !old(strategy) ==> !raised && log == old(log) && executed == old(executed)
    {
      if closed { return true; }
      FreeChildren();
      raised := false;
      if strategy {
        TearDown(entered, txn);
        raised := !entered || broken;
      }
    }

    /**
     * oci8_base_free on the connection, by the collector or by hand, with the free callback oci8_svcctx_free;
     * started is false if no native thread could be started.
     */
    method BaseFree(started: bool, txn: bool) returns (raised: bool)
      requires Valid()
      modifies this
      ensures Valid() && closed
      ensures old(strategy) ==>
                && executed == (if started then 1 else 0) && (raised <==> !started)
                && (started ==> watch.settled == if newClient && old(user) && !txn then 1 else 0)
      ensures !old(strategy) ==> !raised && log == old(log) && executed == old(executed)
      ensures tries == old(tries) && SameUntilThen(old(watch), watch)
    {
      FreeChildren();
      raised := false;
      if strategy {
        TearDown(started, txn);
        raised := !started;
      }
      if !raised {
        Close();
      }
    }

    /** The end of oci8_svcctx_free, and what oci8_base_free does after it. */
    method Close()
      requires Valid() && !strategy
      modifies this`typed, this`closed, this`service, this`log, this`watch
      ensures Valid() && closed && log == old(log)
    {
      typed, closed := false, true;
      FreeTyped(typed, Service);
      service := false;
    }
  }

  datatype Operation =
    | Allocate(okService: bool, okUser: bool, okServer: bool)
    | AttachTo(entered: bool, attachOk: bool, setOk: bool)
    | BeginAs(entered: bool, beginOk: bool, setOk: bool, versionOk: bool)
    | Leave(entered: bool, broken: bool, txn: bool)
    | Collect(started: bool, txn: bool)

  /**
   * Every run: whatever the operations, their order and what fails on the way, the calls are safe, the execution runs
   * at most once, exactly once if the connection was ever allocated and closed and the execution was not lost. Then
   * every handle is freed, and what was set in the service handle is ended and detached; but a server or a session
   * stays behind exactly if it was entered and setting it never succeeded. What is open is rolled back, once, unless
   * OCI, asked by a new client, says that nothing is. The calls are legal exactly if no attach or begin came without
   * its handle and the execution, if it ran, had a service handle and, with a new client, a session handle.
   */
  method Lifetime(newClient: bool, operations: seq<Operation>) returns (c: Connection)
    ensures c.Valid() && Safe(c.log) && c.executed <= 1
    ensures Legal(c.log) <==>
              && c.tries == 0
              && (c.executed == 1 ==>
                    Count(c.log, Alloc(Service)) == 1 && (newClient ==> Count(c.log, Alloc(User)) == 1))
    ensures c.closed && c.log != Start ==> c.executed == (if c.lost then 0 else 1)
    ensures c.executed == 1 ==>
              && Finished(After(c.log))
              && (After(c.log).attached <==> Count(c.log, Attach(true)) > 0 && Count(c.log, SetServer(true)) == 0)
              && (After(c.log).begun <==> Count(c.log, Begin(true)) > 0 && Count(c.log, SetUser(true)) == 0)
    ensures c.executed == 1 ==>
              && Count(c.log, Rollback)
                 == (if Count(c.log, Alloc(Service)) == 1 && Count(c.log, AskTransaction(false)) == 0 then 1 else 0)
              && Count(c.log, AskTransaction(true)) + Count(c.log, AskTransaction(false))
                 == (if newClient && Count(c.log, Alloc(User)) == 1 then 1 else 0)
    ensures c.executed == 0 ==> Untouched(After(c.log)) && Count(c.log, Rollback) == 0
  {
    c := new Connection(newClient);
    for i := 0 to |operations|
      invariant c.Valid() && fresh(c)
    {
      var raised;
      match operations[i]
      case Allocate(okService, okUser, okServer) => raised := c.AllocateHandles(okService, okUser, okServer);
      case AttachTo(entered, attachOk, setOk) => raised := c.ServerAttach(entered, attachOk, setOk);
      case BeginAs(entered, beginOk, setOk, versionOk) => raised := c.SessionBegin(entered, beginOk, setOk, versionOk);
      case Leave(entered, broken, txn) => raised := c.Logoff(entered, broken, txn);
      case Collect(started, txn) => raised := c.BaseFree(started, txn);
    }
    LegalIff(c.log);
    FreedOnce(c.log, Service);
    FreedOnce(c.log, User);
    WatchCounts(c.log);
    if c.executed == 1 {
      LeftBehind(c.log);
    }
  }

  /** A server is attached and a session begun, but setting them fails. */
  method EnterUnset() returns (c: Connection)
    ensures fresh(c) && c.Valid() && !c.closed && c.strategy && c.tries == 0
    ensures c.Args() == LogoffArgs(true, true, true, false, false)
    ensures c.watch.attaches > 0 && c.watch.begins > 0 && !c.watch.serverSet && !c.watch.userSet
  {
    c := new Connection(true);
    var raised := c.AllocateHandles(true, true, true);
    raised := c.ServerAttach(true, true, false);
    ghost var w := c.watch;
    raised := c.SessionBegin(true, true, false, true);
    assert c.watch == Watched(Watched(w, Begin(true)), SetUser(false));
  }

  /** Then the server is attached and the session begun after the logoff too. */
  method StaysBehind() returns (c: Connection)
    ensures c.Valid() && c.closed && c.executed == 1 && Legal(c.log) && Finished(After(c.log))
    ensures After(c.log).attached && After(c.log).begun
  {
    c := EnterUnset();
    var raised := c.Logoff(true, false, false);
    LegalIff(c.log);
  }

  /** The first allocation fails: the logoff asks for a transaction of NULL and rolls NULL back. */
  method LogoffOnNull() returns (c: Connection)
    ensures c.Valid() && c.closed && c.executed == 1 && !Legal(c.log) && After(c.log).nulls == 2
  {
    c := new Connection(true);
    var raised := c.AllocateHandles(false, true, true);
    raised := c.Logoff(true, false, true);
    LegalIff(c.log);
  }
}
