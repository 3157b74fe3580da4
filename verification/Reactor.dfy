/**
 The event loop of yta_event_loop.c over the contexts of all connections: which are allocated, which are registered
 with the two epoll sets, and what each batch of events does to them. Which events come, and what reading, writing and
 the callbacks answer, are inputs.
 */
module Reactor {

  /** A context. `calloc` is taken to give one that was never used before. */
  type Id = nat

  /** The context of the listening socket. */
  const LISTEN: Id := 0

  datatype LoopStatus = LoopContinue | LoopAgain | LoopError

  /** What became of an accepted connection: the accept callback kept or refused it, and armed a timer or not. */
  datatype Accepted = Kept(timer: bool) | Refused(timer: bool)

  datatype SocketEvent = SocketEvent(id: Id, err: bool, readable: bool, writable: bool,
                                     read: LoopStatus, write: LoopStatus, accepts: seq<Accepted>)

  datatype TimerEvent = TimerEvent(id: Id, err: bool, fired: bool, exit: bool)

  /** What the single event taken from the master epoll set says. */
  datatype Tick = Sockets(batch: seq<SocketEvent>) | Timers(expired: seq<TimerEvent>) | Terminate

  /**
   `struct loop_core`, then the allocated contexts, the two epoll sets, the contexts registered so far, how often each
   was cleaned up and its close callback run, and how often a context was used that is not allocated.
   */
  datatype State = State(clients: int, terminated: bool, live: set<Id>, sockets: set<Id>, timers: set<Id>,
                         next: Id, registered: set<Id>, cleaned: multiset<Id>, faults: nat)

  /** `create_reactor`. */
  const INITIAL := State(0, false, {LISTEN}, {LISTEN}, {}, 1, {}, multiset{}, 0)

  function Use(s: State, id: Id): State {
    if id in s.live then s else s.(faults := s.faults + 1)
  }

  /** `cleanup_context`. Closing the descriptors takes them out of the epoll sets. */
  function Cleanup(s: State, id: Id): State {
    s.(live := s.live - {id}, sockets := s.sockets - {id}, timers := s.timers - {id},
       cleaned := s.cleaned + multiset{id}, clients := s.clients - 1)
  }

  /** One connection in `accept_loop`. A refused one is freed and closed, but not a timer armed for it. */
  function AcceptOne(s: State, a: Accepted): State {
    var t := s.(next := s.next + 1, timers := if a.timer then s.timers + {s.next} else s.timers);
    if a.Refused? then t else
    t.(live := s.live + {s.next}, sockets := s.sockets + {s.next}, registered := s.registered + {s.next},
       clients := s.clients + 1)
  }

  function AcceptLoop(s: State, accepts: seq<Accepted>): State
    decreases |accepts|
  {
    if accepts == [] then s else AcceptLoop(AcceptOne(s, accepts[0]), accepts[1..])
  }

  predicate ErrorOnly(e: SocketEvent) {
    e.err && !e.readable && !e.writable
  }

  /** The status after the read and the write an event asks for. */
  function Serviced(e: SocketEvent): LoopStatus {
    var status := if e.readable then e.read else LoopContinue;
    if e.writable && status.LoopContinue? then e.write else status
  }

  /** One event of `serve_sockets`. */
  function OnSocket(s: State, e: SocketEvent): State {
    var t := Use(s, e.id);
    if ErrorOnly(e) then Cleanup(t, e.id)
    else if !t.terminated && e.id == LISTEN then AcceptLoop(t, e.accepts)
    else if Serviced(e).LoopError? then Cleanup(t, e.id)
    else t
  }

  function ServeSockets(s: State, es: seq<SocketEvent>): State
    decreases |es|
  {
    if es == [] then s else ServeSockets(OnSocket(s, es[0]), es[1..])
  }

  /** One event of `serve_timers`. */
  function OnTimer(s: State, e: TimerEvent): State {
    var t := Use(s, e.id);
    if !e.fired || e.exit then Cleanup(t, e.id) else t
  }

  function ServeTimers(s: State, es: seq<TimerEvent>): State
    decreases |es|
  {
    if es == [] then s else ServeTimers(OnTimer(s, es[0]), es[1..])
  }

  function OnTick(s: State, t: Tick): State {
    match t
    case Sockets(es) => ServeSockets(s, es)
    case Timers(es) => ServeTimers(s, es)
    case Terminate =>
      var u := Use(s, LISTEN);
      u.(sockets := u.sockets - {LISTEN}, live := u.live - {LISTEN}, terminated := true)
  }

  /** The condition of the loop in `serve`. */
  predicate Running(s: State) {
    !s.terminated || s.clients != 0
  }

  function Serve(s: State, ticks: seq<Tick>): State
    decreases |ticks|
  {
    if ticks == [] || !Running(s) then s else Serve(OnTick(s, ticks[0]), ticks[1..])
  }

  // ---------- What the kernel and the callbacks may do ----------

  /** A batch of `epoll_wait`: registered contexts, each once, and nothing that is only an error on the listener. */
  ghost predicate SocketBatch(s: State, es: seq<SocketEvent>) {
    && (forall i | 0 <= i < |es| :: es[i].id in s.sockets)
    && (forall i, j | 0 <= i < j < |es| :: es[i].id != es[j].id)
    && (forall i | 0 <= i < |es| :: (es[i].id == LISTEN ==> !ErrorOnly(es[i])) && NoOrphan(es[i].accepts))
  }

  /** The accept callback does not arm a timer and then refuse. */
  predicate NoOrphan(accepts: seq<Accepted>) {
    forall k | 0 <= k < |accepts| :: accepts[k].Refused? ==> !accepts[k].timer
  }

  ghost predicate TimerBatch(s: State, es: seq<TimerEvent>) {
    && (forall i | 0 <= i < |es| :: es[i].id in s.timers && (es[i].fired || es[i].err))
    && (forall i, j | 0 <= i < j < |es| :: es[i].id != es[j].id)
  }

  /** The signal comes once: it is never read from the descriptor, so it stays pending. */
  ghost predicate Possible(s: State, t: Tick) {
    match t
    case Sockets(es) => SocketBatch(s, es)
    case Timers(es) => TimerBatch(s, es)
    case Terminate => !s.terminated
  }

  ghost predicate PossibleRun(s: State, ticks: seq<Tick>)
    decreases |ticks|
  {
    ticks == [] || !Running(s) || (Possible(s, ticks[0]) && PossibleRun(OnTick(s, ticks[0]), ticks[1..]))
  }

  // ---------- The invariant ----------

  /** Every allocated context is registered and, but for the listener's, counted. */
  ghost predicate Counted(s: State) {
    && s.sockets == s.live && s.timers <= s.live - {LISTEN}
    && (LISTEN in s.live <==> !s.terminated)
    && s.clients == |s.live - {LISTEN}|
  }

  /** Every context registered so far either is allocated or was cleaned up, and that once. */
  ghost predicate Accounted(s: State) {
    && (forall id :: id in s.registered <==> (id in s.live && id != LISTEN) || id in s.cleaned)
    && (forall id | id in s.cleaned :: s.cleaned[id] == 1 && id !in s.live)
    && s.next > LISTEN && LISTEN !in s.registered && (forall id | id in s.registered :: id < s.next)
  }

  ghost predicate Inv(s: State) {
    Counted(s) && Accounted(s) && s.faults == 0
  }

  lemma CleanupInv(s: State, id: Id)
    requires Inv(s) && id in s.live && id != LISTEN
    ensures Inv(Cleanup(s, id))
  {
    assert Counted(Cleanup(s, id)) by {
      hide Accounted;
      assert s.live - {id} - {LISTEN} == (s.live - {LISTEN}) - {id};
    }
    assert Accounted(Cleanup(s, id)) by {
      hide Counted;
    }
  }

  lemma AcceptInv(s: State, a: Accepted)
    requires Inv(s) && (a.Refused? ==> !a.timer)
    ensures Inv(AcceptOne(s, a)) && s.live <= AcceptOne(s, a).live && AcceptOne(s, a).terminated == s.terminated
  {
    hide Accounted, Counted;
    if a.Kept? {
      NextIsNew(s);
      KeptCounted(s, a);
      KeptAccounted(s, a);
    } else {
      RefusedInv(s, a);
    }
  }

  lemma KeptCounted(s: State, a: Accepted)
    requires Counted(s) && s.next !in s.live && s.next != LISTEN && a.Kept?
    ensures Counted(AcceptOne(s, a))
  {
    assert (s.live + {s.next}) - {LISTEN} == (s.live - {LISTEN}) + {s.next};
  }

  lemma KeptAccounted(s: State, a: Accepted)
    requires Accounted(s) && a.Kept?
    ensures Accounted(AcceptOne(s, a))
  {
    NextIsNew(s);
  }

  lemma RefusedInv(s: State, a: Accepted)
    requires Inv(s) && a.Refused? && !a.timer
    ensures Inv(AcceptOne(s, a))
  {
  }

  lemma NextIsNew(s: State)
    requires Accounted(s)
    ensures s.next !in s.live && s.next !in s.cleaned && s.next != LISTEN
  {
    assert s.next !in s.registered;
  }

  lemma {:induction false} AcceptLoopInv(s: State, accepts: seq<Accepted>)
    requires Inv(s) && NoOrphan(accepts)
    ensures var t := AcceptLoop(s, accepts);
            Inv(t) && s.live <= t.live && t.terminated == s.terminated
    decreases |accepts|
  {
    hide Inv;
    if accepts != [] {
      AcceptInv(s, accepts[0]);
      AcceptLoopInv(AcceptOne(s, accepts[0]), accepts[1..]);
    }
  }

  /** One event keeps the invariant, and every other registered context. */
  lemma OnSocketInv(s: State, e: SocketEvent)
    requires Inv(s) && e.id in s.sockets && (e.id == LISTEN ==> !ErrorOnly(e)) && NoOrphan(e.accepts)
    ensures var t := OnSocket(s, e);
            && Inv(t) && s.sockets - {e.id} <= t.sockets && t.terminated == s.terminated
            && (s.terminated ==> t.clients <= s.clients)
  {
    var t := OnSocket(s, e);
    if ErrorOnly(e) || (!(!s.terminated && e.id == LISTEN) && Serviced(e).LoopError?) {
      CleanupInv(s, e.id);
    } else if !s.terminated && e.id == LISTEN {
      AcceptLoopInv(s, e.accepts);
    }
  }

  lemma {:induction false} ServeSocketsInv(s: State, es: seq<SocketEvent>)
    requires Inv(s) && SocketBatch(s, es)
    ensures var t := ServeSockets(s, es);
            Inv(t) && t.terminated == s.terminated && (s.terminated ==> t.clients <= s.clients)
    decreases |es|
  {
    hide Inv, OnSocket;
    if es != [] {
      OnSocketInv(s, es[0]);
      ServeSocketsInv(OnSocket(s, es[0]), es[1..]);
    }
  }

  lemma OnTimerInv(s: State, e: TimerEvent)
    requires Inv(s) && e.id in s.timers
    ensures var t := OnTimer(s, e);
            && Inv(t) && s.timers - {e.id} <= t.timers && t.terminated == s.terminated && t.clients <= s.clients
  {
    CleanupInv(s, e.id);
  }

  lemma {:induction false} ServeTimersInv(s: State, es: seq<TimerEvent>)
    requires Inv(s) && TimerBatch(s, es)
    ensures var t := ServeTimers(s, es); Inv(t) && t.terminated == s.terminated && t.clients <= s.clients
    decreases |es|
  {
    hide Inv, OnTimer;
    if es != [] {
      OnTimerInv(s, es[0]);
      ServeTimersInv(OnTimer(s, es[0]), es[1..]);
    }
  }

  /** A tick keeps the invariant; once terminated the loop stays so and the number of clients never grows. */
  lemma TickInv(s: State, t: Tick)
    requires Inv(s) && Possible(s, t)
    ensures Inv(OnTick(s, t))
    ensures s.terminated ==> OnTick(s, t).terminated && OnTick(s, t).clients <= s.clients
  {
    match t
    case Sockets(es) => ServeSocketsInv(s, es);
    case Timers(es) => ServeTimersInv(s, es);
    case Terminate =>
      assert s.live - {LISTEN} - {LISTEN} == s.live - {LISTEN};
  }

  /**
   In every state of every run the count of clients is the number of live connections, every context used was
   allocated, and none was cleaned up twice.
   */
  lemma {:induction false} ServeInv(s: State, ticks: seq<Tick>)
    requires Inv(s) && PossibleRun(s, ticks)
    ensures Inv(Serve(s, ticks))
    decreases |ticks|
  {
    hide Inv, OnTick, Possible;
    if ticks != [] && Running(s) {
      TickInv(s, ticks[0]);
      ServeInv(OnTick(s, ticks[0]), ticks[1..]);
    }
  }

  lemma InitialInv()
    ensures Inv(INITIAL)
  {
    assert {LISTEN} - {LISTEN} == {};
  }

  /** The loop ends only when no context is left, and each connection was cleaned up exactly once. */
  lemma EndOfRun(ticks: seq<Tick>)
    requires PossibleRun(INITIAL, ticks) && !Running(Serve(INITIAL, ticks))
    ensures var s := Serve(INITIAL, ticks);
            && s.live == {} && s.sockets == {} && s.timers == {} && s.faults == 0
            && forall id :: s.cleaned[id] == if id in s.registered then 1 else 0
  {
    hide Serve, PossibleRun;
    InitialInv();
    ServeInv(INITIAL, ticks);
    var s := Serve(INITIAL, ticks);
    assert s.live - {LISTEN} == {} && s.live == {};
  }

  // ---------- Who comes and who goes ----------

  /** Exactly the connections the callback kept are allocated, registered and counted, with the timers it armed. */
  lemma {:induction false} AcceptedIds(s: State, accepts: seq<Accepted>)
    ensures var t := AcceptLoop(s, accepts);
            && t.next == s.next + |accepts| && t.clients == s.clients + Keeps(accepts)
            && (forall id :: id in t.live <==> id in s.live || IsKept(s, accepts, id))
            && (forall id :: id in t.sockets <==> id in s.sockets || IsKept(s, accepts, id))
            && (forall id :: id in t.registered <==> id in s.registered || IsKept(s, accepts, id))
            && (forall id :: id in t.timers <==> id in s.timers || HasTimer(s, accepts, id))
    decreases |accepts|
  {
    if accepts != [] {
      var u := AcceptOne(s, accepts[0]);
      AcceptedIds(u, accepts[1..]);
      forall id: Id
        ensures IsKept(s, accepts, id) <==> (id == s.next && accepts[0].Kept?) || IsKept(u, accepts[1..], id)
        ensures HasTimer(s, accepts, id) <==> (id == s.next && accepts[0].timer) || HasTimer(u, accepts[1..], id)
      {
        if id > s.next && id - s.next < |accepts| {
          assert accepts[1..][id - u.next] == accepts[id - s.next];
        }
      }
    }
  }

  predicate IsKept(s: State, accepts: seq<Accepted>, id: Id) {
    s.next <= id < s.next + |accepts| && accepts[id - s.next].Kept?
  }

  predicate HasTimer(s: State, accepts: seq<Accepted>, id: Id) {
    s.next <= id < s.next + |accepts| && accepts[id - s.next].timer
  }

  function Keeps(accepts: seq<Accepted>): nat {
    if accepts == [] then 0 else (if accepts[0].Kept? then 1 else 0) + Keeps(accepts[1..])
  }

  /** Reading ended in an error, or writing did after reading, if there was any, had gone on. */
  predicate Failed(e: SocketEvent) {
    || (e.readable && e.read == LoopError)
    || (e.writable && e.write == LoopError && (!e.readable || e.read == LoopContinue))
  }

  /** What ends a connection at a socket event. */
  predicate EndsSocket(e: SocketEvent) {
    (e.err && !e.readable && !e.writable) || Failed(e)
  }

  /** What ends it at a timer event: an error, or a callback that says so. */
  predicate EndsTimer(e: TimerEvent) {
    !e.fired || e.exit
  }

  lemma OnSocketExact(s: State, e: SocketEvent)
    requires Inv(s) && e.id in s.sockets && (e.id == LISTEN ==> !ErrorOnly(e)) && NoOrphan(e.accepts)
    ensures var t := OnSocket(s, e);
            if e.id != LISTEN then t == if EndsSocket(e) then Cleanup(s, e.id) else s
            else t == AcceptLoop(s, e.accepts)
  {
    hide Accounted;
  }

  /** Cleaning up takes a context away, with its socket and timer, and leaves all others as they are. */
  lemma CleanupExact(s: State, id: Id)
    ensures var t := Cleanup(s, id);
            && id !in t.live && id !in t.sockets && id !in t.timers && t.cleaned[id] == s.cleaned[id] + 1
            && t.clients == s.clients - 1
            && forall x | x != id :: (x in t.live <==> x in s.live) && (x in t.sockets <==> x in s.sockets)
                                     && (x in t.timers <==> x in s.timers) && t.cleaned[x] == s.cleaned[x]
  {
  }

  lemma KnownBelow(s: State)
    requires Inv(s)
    ensures forall id | id in s.live || id in s.timers :: id < s.next
  {
  }

  /**
   A batch of socket events takes away exactly the connections at whose event something ended, each cleaned up once, and
   nothing else; those that stay keep their timers.
   */
  lemma {:induction false} SocketsRemove(s: State, es: seq<SocketEvent>)
    requires Inv(s) && SocketBatch(s, es)
    ensures var t := ServeSockets(s, es);
            && s.next <= t.next && (forall id | id in t.live :: id in s.live || id >= s.next)
            && (forall id | id in s.live && id != LISTEN ::
                  && (id !in t.live <==> exists i | 0 <= i < |es| :: es[i].id == id && EndsSocket(es[i]))
                  && t.cleaned[id] == (if id in t.live then 0 else 1)
                  && (id in t.live && id in s.timers ==> id in t.timers))
            && (LISTEN in s.live ==> LISTEN in t.live)
    decreases |es|
  {
    hide OnSocket, Counted, Accounted, EndsSocket, Cleanup, AcceptLoop;
    LiveNotCleaned(s);
    if es != [] {
      var e := es[0];
      OnSocketInv(s, e);
      OnSocketExact(s, e);
      CleanupExact(s, e.id);
      AcceptedIds(s, e.accepts);
      KnownBelow(s);
      var u := OnSocket(s, e);
      KnownBelow(u);
      ListenerSame(s, e.id);
      SocketsRemove(u, es[1..]);
      var t := ServeSockets(s, es);
      ServeSocketsInv(s, es);
      CleanedOnce(t);
      forall id | id in s.live && id != LISTEN
        ensures id !in t.live <==> exists i | 0 <= i < |es| :: es[i].id == id && EndsSocket(es[i])
        ensures t.cleaned[id] == if id in t.live then 0 else 1
        ensures id in t.live && id in s.timers ==> id in t.timers
      {
        if i :| 0 <= i < |es| && es[i].id == id && EndsSocket(es[i]) {
          assert i > 0 ==> es[1..][i - 1] == es[i];
        }
        if id == e.id && EndsSocket(e) {
          assert id !in u.live && id < u.next;
          assert es[0].id == id && EndsSocket(es[0]);
        } else {
          assert id in u.live;
          if j :| 0 <= j < |es| - 1 && es[1..][j].id == id && EndsSocket(es[1..][j]) {
            assert es[j + 1].id == id && EndsSocket(es[j + 1]);
          }
        }
        assert id in s.registered;
        RegisteredStays(s, es, id);
      }
    }
  }

  lemma ListenerSame(s: State, id: Id)
    ensures Cleanup(s, id).next == s.next && Cleanup(s, id).live == s.live - {id}
  {
  }

  lemma LiveNotCleaned(s: State)
    requires Inv(s)
    ensures forall id | id in s.live :: s.cleaned[id] == 0
    ensures forall id | id in s.live && id != LISTEN :: id in s.registered
  {
  }

  /** Who was registered is allocated or was cleaned up once. */
  lemma CleanedOnce(s: State)
    requires Inv(s)
    ensures forall id | id in s.registered :: s.cleaned[id] == if id in s.live then 0 else 1
  {
  }

  lemma {:induction false} RegisteredStays(s: State, es: seq<SocketEvent>, id: Id)
    requires Inv(s) && SocketBatch(s, es) && id in s.registered
    ensures id in ServeSockets(s, es).registered
    decreases |es|
  {
    hide Counted, Accounted, OnSocket;
    if es != [] {
      OnSocketInv(s, es[0]);
      OnSocketExact(s, es[0]);
      AcceptedIds(s, es[0].accepts);
      RegisteredStays(OnSocket(s, es[0]), es[1..], id);
    }
  }

  /** So it is with a batch of timer events. */
  lemma {:induction false} TimersRemove(s: State, es: seq<TimerEvent>)
    requires Inv(s) && TimerBatch(s, es)
    ensures var t := ServeTimers(s, es);
            && t.next == s.next && t.live <= s.live
            && (forall id | id in s.live && id != LISTEN ::
                  && (id !in t.live <==> exists i | 0 <= i < |es| :: es[i].id == id && EndsTimer(es[i]))
                  && t.cleaned[id] == (if id in t.live then 0 else 1)
                  && (id in t.live && id in s.timers ==> id in t.timers))
            && (LISTEN in s.live ==> LISTEN in t.live)
    decreases |es|
  {
    hide Counted, Accounted, EndsTimer, OnTimer, Cleanup;
    LiveNotCleaned(s);
    if es != [] {
      var e := es[0];
      OnTimerInv(s, e);
      OnTimerExact(s, e);
      CleanupExact(s, e.id);
      var u := OnTimer(s, e);
      ListenerSame(s, e.id);
      TimersRemove(u, es[1..]);
      var t := ServeTimers(s, es);
      ServeTimersInv(s, es);
      CleanedOnce(t);
      forall id | id in s.live && id != LISTEN
        ensures id !in t.live <==> exists i | 0 <= i < |es| :: es[i].id == id && EndsTimer(es[i])
        ensures t.cleaned[id] == if id in t.live then 0 else 1
        ensures id in t.live && id in s.timers ==> id in t.timers
      {
        if i :| 0 <= i < |es| && es[i].id == id && EndsTimer(es[i]) {
          assert i > 0 ==> es[1..][i - 1] == es[i];
        }
        if id == e.id && EndsTimer(e) {
          assert es[0].id == id && EndsTimer(es[0]);
        } else {
          if j :| 0 <= j < |es| - 1 && es[1..][j].id == id && EndsTimer(es[1..][j]) {
            assert es[j + 1].id == id && EndsTimer(es[j + 1]);
          }
        }
        assert id in s.registered;
        TimersRegistered(s, es, id);
      }
    }
  }

  lemma OnTimerExact(s: State, e: TimerEvent)
    requires Inv(s) && e.id in s.timers
    ensures e.id != LISTEN && OnTimer(s, e) == if EndsTimer(e) then Cleanup(s, e.id) else s
  {
  }

  lemma {:induction false} TimersRegistered(s: State, es: seq<TimerEvent>, id: Id)
    requires Inv(s) && TimerBatch(s, es) && id in s.registered
    ensures id in ServeTimers(s, es).registered
    decreases |es|
  {
    hide Counted, Accounted, OnTimer;
    if es != [] {
      OnTimerInv(s, es[0]);
      OnTimerExact(s, es[0]);
      TimersRegistered(OnTimer(s, es[0]), es[1..], id);
    }
  }

  // ---------- Runs come to their end ----------

  /** At tick `t` something ends connection `id`. */
  ghost predicate EndsIn(t: Tick, id: Id) {
    match t
    case Sockets(es) => exists i | 0 <= i < |es| :: es[i].id == id && EndsSocket(es[i])
    case Timers(es) => exists i | 0 <= i < |es| :: es[i].id == id && EndsTimer(es[i])
    case Terminate => false
  }

  /** One tick: a connection is gone exactly if something ended it, and once terminated none comes. */
  lemma TickRemoves(s: State, t: Tick, id: Id)
    requires Inv(s) && Possible(s, t) && id in s.live && id != LISTEN
    ensures id !in OnTick(s, t).live <==> EndsIn(t, id)
    ensures OnTick(s, t).cleaned[id] == if EndsIn(t, id) then 1 else 0
  {
    hide Counted, EndsSocket, EndsTimer;
    LiveNotCleaned(s);
    match t
    case Sockets(es) => SocketsRemove(s, es);
    case Timers(es) => TimersRemove(s, es);
    case Terminate => UseLive(s);
  }

  lemma UseLive(s: State)
    requires Inv(s) && !s.terminated
    ensures Use(s, LISTEN) == s
  {
  }

  /** The signal takes the listener away, and nobody else. */
  lemma TerminateExact(s: State)
    requires Inv(s) && !s.terminated
    ensures var t := OnTick(s, Terminate);
            && t.terminated && LISTEN !in t.live && LISTEN !in t.sockets
            && t.live == s.live - {LISTEN} && t.timers == s.timers && t.clients == s.clients
  {
    UseLive(s);
  }

  lemma NoneComes(s: State, t: Tick)
    requires Inv(s) && Possible(s, t) && s.terminated
    ensures OnTick(s, t).live <= s.live
  {
    match t
    case Sockets(es) => NoneAccepted(s, es);
    case Timers(es) => TimersRemove(s, es);
  }

  lemma {:induction false} NoneAccepted(s: State, es: seq<SocketEvent>)
    requires Inv(s) && SocketBatch(s, es) && s.terminated
    ensures ServeSockets(s, es).live <= s.live
    decreases |es|
  {
    hide Accounted, OnSocket;
    if es != [] {
      OnSocketInv(s, es[0]);
      OnSocketExact(s, es[0]);
      NoneAccepted(OnSocket(s, es[0]), es[1..]);
    }
  }

  /** The loop runs exactly while something is allocated: the listener until the signal, then the connections. */
  lemma RunningExact(s: State)
    requires Inv(s)
    ensures Running(s) <==> s.live != {}
  {
    if s.live != {} && s.terminated {
      var id :| id in s.live;
      assert id in s.live - {LISTEN};
    }
    if s.live == {} {
      assert s.live - {LISTEN} == {};
    }
  }

  ghost predicate Meets(ticks: seq<Tick>, id: Id) {
    exists k | 0 <= k < |ticks| :: EndsIn(ticks[k], id)
  }

  /** A connection stays in every run at which nothing ends it. */
  lemma {:induction false} StaysLive(s: State, ticks: seq<Tick>, id: Id)
    requires Inv(s) && PossibleRun(s, ticks) && id in s.live && id != LISTEN && !Meets(ticks, id)
    ensures id in Serve(s, ticks).live
    decreases |ticks|
  {
    hide Inv, OnTick, Possible, EndsIn;
    if ticks != [] && Running(s) {
      TickInv(s, ticks[0]);
      TickRemoves(s, ticks[0], id);
      assert !EndsIn(ticks[0], id);
      forall k | 0 <= k < |ticks| - 1 ensures !EndsIn(ticks[1..][k], id) {
        assert ticks[1..][k] == ticks[k + 1];
      }
      StaysLive(OnTick(s, ticks[0]), ticks[1..], id);
    }
  }

  /** Once terminated, a run in which something ends every connection is over. */
  lemma {:induction false} AllEnd(s: State, ticks: seq<Tick>)
    requires Inv(s) && s.terminated && PossibleRun(s, ticks) && forall id | id in s.live :: Meets(ticks, id)
    ensures !Running(Serve(s, ticks)) && Serve(s, ticks).live == {}
    decreases |ticks|
  {
    hide OnTick, Possible, EndsIn, Accounted, Counted;
    RunningExact(s);
    if Running(s) {
      var some :| some in s.live;
      assert Meets(ticks, some);
      var u := OnTick(s, ticks[0]);
      TickInv(s, ticks[0]);
      NoneComes(s, ticks[0]);
      forall id | id in u.live ensures Meets(ticks[1..], id) {
        NotListen(s, id);
        TickRemoves(s, ticks[0], id);
        var k :| 0 <= k < |ticks| && EndsIn(ticks[k], id);
        assert ticks[1..][k - 1] == ticks[k];
      }
      AllEnd(u, ticks[1..]);
    }
  }

  lemma NotListen(s: State, id: Id)
    requires Inv(s) && s.terminated && id in s.live
    ensures id != LISTEN
  {
  }

  // ---------- Why the assumptions are there ----------

  /** A refused connection with an armed timer leaves the timer behind: when it fires a freed context is used. */
  lemma OrphanTimer(s: State, e: TimerEvent)
    requires Inv(s) && !s.terminated && e.id == s.next
    ensures var t := AcceptOne(s, Refused(true)); e.id in t.timers && OnTimer(t, e).faults == 1
  {
    NextIsNew(s);
  }

  /** An event that is only an error on the listening socket takes the count below the number of connections. */
  lemma ListenerError(s: State, e: SocketEvent)
    requires Inv(s) && !s.terminated && e.id == LISTEN && ErrorOnly(e)
    ensures var t := OnSocket(s, e); t.clients == |t.live| - 1
  {
    assert OnSocket(s, e).live == s.live - {LISTEN};
  }
}

/**
 The loops themselves, over the reactor's fields.
 */
module ReactorLoop {
  import opened Reactor

  class LoopCore {
    var currentClients: int
    var terminated: bool
    // the heap, the two epoll sets and the history
    ghost var live: set<Id>
    ghost var sockets: set<Id>
    ghost var timers: set<Id>
    ghost var next: Id
    ghost var registered: set<Id>
    ghost var cleaned: multiset<Id>
    ghost var faults: nat

    ghost function View(): State
      reads this
    {
      State(currentClients, terminated, live, sockets, timers, next, registered, cleaned, faults)
    }

    /** `create_reactor`. */
    constructor ()
      ensures View() == INITIAL && Inv(View())
    {
      currentClients, terminated := 0, false;
      live, sockets, timers := {LISTEN}, {LISTEN}, {};
      next, registered, cleaned, faults := 1, {}, multiset{}, 0;
      InitialInv();
    }

    /** `cleanup_context`. */
    method CleanupContext(id: Id)
      modifies this
      ensures View() == Cleanup(old(View()), id)
    {
      // close the socket and the timer, which leave their epoll sets
      sockets := sockets - {id};
      timers := timers - {id};
      // the close callback
      cleaned := cleaned + multiset{id};
      // free
      live := live - {id};
      currentClients := currentClients - 1;
    }

    /** No context that is allocated will be allocated again. */
    ghost predicate Fresh()
      reads this
    {
      forall id | id in live :: id < next
    }

    /** `accept_loop`, until the kernel has no more connections. */
    method AcceptConnections(accepts: seq<Accepted>)
      requires Fresh()
      modifies this
      ensures View() == AcceptLoop(old(View()), accepts)
    {
      var k := 0;
      while k < |accepts|
        invariant k <= |accepts| && Fresh()
        invariant AcceptLoop(View(), accepts[k..]) == AcceptLoop(old(View()), accepts)
      {
        assert accepts[k..][1..] == accepts[k + 1..];
        AcceptConnection(accepts[k]);
        k := k + 1;
      }
    }

    /** One connection. */
    method AcceptConnection(a: Accepted)
      requires Fresh()
      modifies this
      ensures Fresh() && View() == AcceptOne(old(View()), a)
    {
      ghost var before := live;
      // calloc
      ghost var id := next;
      next := next + 1;
      live := live + {id};
      // the accept callback, which may arm a timer
      if a.timer {
        timers := timers + {id};
      }
      if a.Refused? {
        // free, and close the socket
        live := live - {id};
        assert live == before;
        return;
      }
      // register with the socket epoll set
      sockets := sockets + {id};
      registered := registered + {id};
      currentClients := currentClients + 1;
    }

    static lemma InvFresh(s: State)
      requires Inv(s)
      ensures forall id | id in s.live :: id < s.next
    {
    }

    /** `serve_sockets` on one batch. */
    method SocketsReady(es: seq<SocketEvent>)
      requires Inv(View()) && SocketBatch(View(), es)
      modifies this
      ensures Inv(View()) && View() == ServeSockets(old(View()), es)
    {
      hide Inv, OnSocket;
      var k := 0;
      while k < |es|
        invariant k <= |es| && Inv(View()) && SocketBatch(View(), es[k..])
        invariant ServeSockets(View(), es[k..]) == ServeSockets(old(View()), es)
      {
        var e := es[k];
        assert es[k..][0] == e && es[k..][1..] == es[k + 1..];
        OnSocketInv(View(), e);
        SocketReady(e);
        k := k + 1;
      }
    }

    /** One event of a batch. */
    method SocketReady(e: SocketEvent)
      requires Inv(View()) && e.id in sockets
      modifies this
      ensures View() == OnSocket(old(View()), e)
    {
      hide Inv, Cleanup, AcceptLoop;
      BatchUse(View(), e);
      if e.err && !(e.readable || e.writable) {
        CleanupContext(e.id);
      } else if !terminated && e.id == LISTEN {
        InvFresh(View());
        AcceptConnections(e.accepts);
      } else {
        var status := LoopContinue;
        if e.readable {
          status := e.read;
        }
        if e.writable && status == LoopContinue {
          status := e.write;
        }
        if status == LoopError {
          CleanupContext(e.id);
        }
      }
    }

    static lemma BatchUse(s: State, e: SocketEvent)
      requires Inv(s) && e.id in s.sockets
      ensures Use(s, e.id) == s
    {
    }

    static lemma TimerUse(s: State, e: TimerEvent)
      requires Inv(s) && e.id in s.timers
      ensures Use(s, e.id) == s
    {
    }

    /** `serve_timers` on one batch. */
    method TimersExpired(es: seq<TimerEvent>)
      requires Inv(View()) && TimerBatch(View(), es)
      modifies this
      ensures Inv(View()) && View() == ServeTimers(old(View()), es)
    {
      hide Inv, Cleanup;
      var k := 0;
      while k < |es|
        invariant k <= |es| && Inv(View()) && TimerBatch(View(), es[k..])
        invariant ServeTimers(View(), es[k..]) == ServeTimers(old(View()), es)
      {
        var e := es[k];
        assert es[k..][0] == e && es[k..][1..] == es[k + 1..];
        OnTimerInv(View(), e);
        TimerUse(View(), e);
        if e.err && !e.fired {
          CleanupContext(e.id);
        } else if e.exit {
          CleanupContext(e.id);
        }
        k := k + 1;
      }
    }

    /** `serve`, for as many ticks as come. */
    method Serve(ticks: seq<Tick>)
      requires Inv(View()) && PossibleRun(View(), ticks)
      modifies this
      ensures Inv(View()) && View() == Reactor.Serve(old(View()), ticks)
    {
      hide Inv, Possible, OnTick, ServeSockets, ServeTimers, SocketBatch, TimerBatch;
      var k := 0;
      while (!terminated || currentClients != 0) && k < |ticks|
        invariant k <= |ticks| && Inv(View()) && PossibleRun(View(), ticks[k..])
        invariant Reactor.Serve(View(), ticks[k..]) == Reactor.Serve(old(View()), ticks)
      {
        assert ticks[k..][0] == ticks[k] && ticks[k..][1..] == ticks[k + 1..];
        ghost var s := View();
        TickInv(s, ticks[k]);
        PossibleTick(s, ticks[k]);
        match ticks[k] {
          case Sockets(es) => SocketsReady(es);
          case Timers(es) => TimersExpired(es);
          case Terminate =>
            // take the listener out of its epoll set, free its context
            sockets := sockets - {LISTEN};
            terminated := true;
            live := live - {LISTEN};
        }
        assert View() == OnTick(s, ticks[k]);
        k := k + 1;
      }
    }

    static lemma PossibleTick(s: State, t: Tick)
      requires Possible(s, t) && Inv(s)
      ensures t.Sockets? ==> SocketBatch(s, t.batch) && OnTick(s, t) == ServeSockets(s, t.batch)
      ensures t.Timers? ==> TimerBatch(s, t.expired) && OnTick(s, t) == ServeTimers(s, t.expired)
      ensures t.Terminate? ==>
                OnTick(s, t) == s.(sockets := s.sockets - {LISTEN}, live := s.live - {LISTEN}, terminated := true)
    {
    }
  }
}
