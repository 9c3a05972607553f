/** The hand-off of accepted descriptors to N workers and the shutdown of those workers, as a
    transition system: one dispatcher, one stopper, and N worker threads with their queue, their
    wake-up byte pipe and their sessions. Every lock region is made of separate steps. */
module HandOff {
  import opened Wrappers
  import opened Division

  type Fd = int

  /** The bytes `'c'` and `'e'`. */
  datatype Wake = Conn | Exit

  /** Who holds the lock of a worker's queue. */
  datatype Owner = Free | ByDispatcher | ByWorker

  datatype WorkerPc =
    | Loop          // inside the event loop, between callbacks
    | WantLock      // has read 'c'
    | Draining      // holds the queue lock, at the loop test
    | Admitted      // has found the exiting flag false, not yet opened the session
    | Processed     // has processed the front descriptor, not yet popped it
    | Cleaning      // has read 'e'
    | Cleaned       // sessions cleared, loop exit not yet requested
    | LeftLoop      // the event loop has returned
    | Stored        // has stored the exited flag
    | Notifying     // holds the stop mutex
    | Notified      // has notified, still holds the stop mutex
    | Gone

  datatype Worker = Worker(
    pipe: seq<Wake>, queue: seq<Fd>, lock: Owner, pc: WorkerPc,
    exiting: bool, exited: bool, leaving: bool, cleaned: bool,
    sessions: set<nat>, closed: set<nat>, popped: seq<Fd>, adopted: seq<Fd>)

  datatype DispatcherPc = Ready | Chosen(w: nat, fd: Fd) | Holding(w: nat, fd: Fd) | Signalled(w: nat, fd: Fd)

  datatype StopperPc =
    | AtWorker(i: nat)   // about to stop worker i; done when i is the number of workers
    | Flagged(i: nat)    // has stored the exiting flag
    | Written(i: nat)    // has written 'e'
    | Testing(i: nat)    // holds the stop mutex, about to test the exited flag
    | Parking(i: nat)    // found it false, still holds the mutex
    | Asleep(i: nat)     // released the mutex and waits
    | Woken(i: nat)      // was notified or woke by itself, needs the mutex again

  datatype Mutex = Unlocked | ByStopper | HeldBy(w: nat)

  /** One dispatch: the descriptor, the worker chosen, and whether the wake-up write failed. */
  datatype Dispatch = Dispatch(fd: Fd, worker: nat, closed: bool)

  /** `unreachable` are the workers whose 'e' byte could not be written. */
  datatype State = State(
    ws: seq<Worker>, disp: DispatcherPc, stop: StopperPc, mtx: Mutex, log: seq<Dispatch>, index: nat,
    unreachable: set<nat>)

  datatype DispatcherAct = Accept(fd: Fd) | LockQueue | WriteWake | WriteWakeFails | PushFd
  datatype WorkerAct =
    | ReadByte | TakeLock | TestExiting | OpenSession | PopFront | FinishDrain
    | CleanState | RequestExit | CloseSession(id: nat)
    | LeaveLoop | StoreExited | TakeStopMutex | NotifyOne | ReleaseStopMutex
  datatype StopperAct = SetExiting | WriteExit | WriteExitFails | LockStopMutex | TestExited | Park | WakeUp
  datatype Action = ByTheDispatcher(d: DispatcherAct) | ByThread(w: nat, a: WorkerAct) | ByTheStopper(t: StopperAct)

  const NEW_WORKER := Worker([], [], Free, Loop, false, false, false, false, {}, {}, [], [])

  function Init(n: nat): State {
    State(seq(n, _ => NEW_WORKER), Ready, AtWorker(0), Unlocked, [], 0, {})
  }

  /** Round robin: the next index. */
  function NextIndex(index: nat, n: nat): nat
    requires 0 < n
  {
    (index + 1) % n
  }

  predicate Targets(d: DispatcherPc, w: nat) {
    !d.Ready? && d.w == w
  }

  predicate DispatcherEnabled(s: State, d: DispatcherAct) {
    match d
    case Accept(_) => s.disp.Ready? && 0 < |s.ws|
    case LockQueue => s.disp.Chosen? && s.disp.w < |s.ws| && s.ws[s.disp.w].lock.Free?
    case WriteWake => s.disp.Holding? && s.disp.w < |s.ws|
    case WriteWakeFails => s.disp.Holding? && s.disp.w < |s.ws| && |s.log| > 0
    case PushFd => s.disp.Signalled? && s.disp.w < |s.ws|
  }

  function DoDispatcher(s: State, d: DispatcherAct): State
    requires DispatcherEnabled(s, d)
  {
    match d
    case Accept(fd) =>
      var w := NextIndex(s.index, |s.ws|);
      s.(disp := Chosen(w, fd), index := w, log := s.log + [Dispatch(fd, w, false)])
    case LockQueue =>
      var w := s.disp.w;
      s.(disp := Holding(w, s.disp.fd), ws := s.ws[w := s.ws[w].(lock := ByDispatcher)])
    case WriteWake =>
      var w := s.disp.w;
      s.(disp := Signalled(w, s.disp.fd), ws := s.ws[w := s.ws[w].(pipe := s.ws[w].pipe + [Conn])])
    case WriteWakeFails =>
      var w, k := s.disp.w, |s.log| - 1;
      s.(disp := Ready, ws := s.ws[w := s.ws[w].(lock := Free)], log := s.log[k := s.log[k].(closed := true)])
    case PushFd =>
      var w := s.disp.w;
      s.(disp := Ready, ws := s.ws[w := s.ws[w].(queue := s.ws[w].queue + [s.disp.fd], lock := Free)])
  }

  /** What a worker's step needs of its own thread context. */
  predicate Guard(k: Worker, a: WorkerAct) {
    match a
    case ReadByte => k.pc.Loop? && k.pipe != []
    case TakeLock => k.pc.WantLock? && k.lock.Free?
    case TestExiting => k.pc.Draining? && k.queue != []
    case OpenSession => k.pc.Admitted? && k.queue != []
    case PopFront => k.pc.Processed? && k.queue != []
    case FinishDrain => k.pc.Draining? && k.queue == []
    case CleanState => k.pc.Cleaning?
    case RequestExit => k.pc.Cleaned?
    case CloseSession(id) => k.pc.Loop? && id in k.sessions
    case LeaveLoop => k.pc.Loop? && k.leaving
    case StoreExited => k.pc.LeftLoop?
    case TakeStopMutex => k.pc.Stored?
    case NotifyOne => k.pc.Notifying?
    case ReleaseStopMutex => k.pc.Notified?
  }

  predicate WorkerEnabled(s: State, w: nat, a: WorkerAct) {
    w < |s.ws| && Guard(s.ws[w], a) && (a.TakeStopMutex? ==> s.mtx.Unlocked?)
  }

  /** The effect of a worker's step on its own thread context. */
  function Local(k: Worker, a: WorkerAct): Worker
    requires Guard(k, a)
  {
    match a
    case ReadByte => k.(pipe := k.pipe[1..], pc := if k.pipe[0].Exit? then Cleaning else WantLock)
    case TakeLock => k.(lock := ByWorker, pc := Draining)
    case TestExiting => k.(pc := if k.exiting then Processed else Admitted)
    case OpenSession =>
      k.(pc := Processed, sessions := k.sessions + {|k.adopted|}, adopted := k.adopted + [k.queue[0]])
    case PopFront => k.(pc := Draining, queue := k.queue[1..], popped := k.popped + [k.queue[0]])
    case FinishDrain => k.(lock := Free, pc := Loop)
    case CleanState => k.(sessions := {}, cleaned := true, pc := Cleaned)
    case RequestExit => k.(leaving := true, pc := Loop)
    case CloseSession(id) => k.(sessions := k.sessions - {id}, closed := k.closed + {id})
    case LeaveLoop => k.(pc := LeftLoop)
    case StoreExited => k.(exited := true, pc := Stored)
    case TakeStopMutex => k.(pc := Notifying)
    case NotifyOne => k.(pc := Notified)
    case ReleaseStopMutex => k.(pc := Gone)
  }

  function DoWorker(s: State, w: nat, a: WorkerAct): State
    requires WorkerEnabled(s, w, a)
  {
    var s' := s.(ws := s.ws[w := Local(s.ws[w], a)]);
    match a
    case TakeStopMutex => s'.(mtx := HeldBy(w))
    case NotifyOne => s'.(stop := if s.stop.Asleep? then Woken(s.stop.i) else s.stop)
    case ReleaseStopMutex => s'.(mtx := Unlocked)
    case _ => s'
  }

  predicate StopperEnabled(s: State, t: StopperAct) {
    s.stop.i < |s.ws| &&
    match t
    case SetExiting => s.stop.AtWorker?
    case WriteExit => s.stop.Flagged?
    case WriteExitFails => s.stop.Flagged?
    case LockStopMutex => (s.stop.Written? || s.stop.Woken?) && s.mtx.Unlocked?
    case TestExited => s.stop.Testing?
    case Park => s.stop.Parking?
    case WakeUp => s.stop.Asleep?
  }

  function DoStopper(s: State, t: StopperAct): State
    requires StopperEnabled(s, t)
  {
    var i := s.stop.i;
    match t
    case SetExiting => s.(stop := Flagged(i), ws := s.ws[i := s.ws[i].(exiting := true)])
    case WriteExit => s.(stop := Written(i), ws := s.ws[i := s.ws[i].(pipe := s.ws[i].pipe + [Exit])])
    case WriteExitFails => s.(stop := AtWorker(i + 1), unreachable := s.unreachable + {i})
    case LockStopMutex => s.(stop := Testing(i), mtx := ByStopper)
    case TestExited => if s.ws[i].exited then s.(stop := AtWorker(i + 1), mtx := Unlocked) else s.(stop := Parking(i))
    case Park => s.(stop := Asleep(i), mtx := Unlocked)
    case WakeUp => s.(stop := Woken(i))
  }

  predicate Enabled(s: State, a: Action) {
    match a
    case ByTheDispatcher(d) => DispatcherEnabled(s, d)
    case ByThread(w, b) => WorkerEnabled(s, w, b)
    case ByTheStopper(t) => StopperEnabled(s, t)
  }

  function Do(s: State, a: Action): State
    requires Enabled(s, a)
  {
    match a
    case ByTheDispatcher(d) => DoDispatcher(s, d)
    case ByThread(w, b) => DoWorker(s, w, b)
    case ByTheStopper(t) => DoStopper(s, t)
  }

  /** The state after a list of actions; `None` when one of them is not enabled in its turn. */
  function Run(s: State, acts: seq<Action>): Option<State>
    decreases acts
  {
    if acts == [] then Some(s)
    else if Enabled(s, acts[0]) then Run(Do(s, acts[0]), acts[1..])
    else None
  }

  // ---- What holds of one worker's thread context

  predicate InDrain(pc: WorkerPc) { pc.Draining? || pc.Admitted? || pc.Processed? }
  predicate InNotify(pc: WorkerPc) { pc.Notifying? || pc.Notified? }
  predicate HasStored(pc: WorkerPc) { pc.Stored? || InNotify(pc) || pc.Gone? }
  predicate MidWake(pc: WorkerPc) { pc.WantLock? || InDrain(pc) }

  /** The descriptors a worker has processed: those popped, and the front one before its pop. */
  function Handled(k: Worker): seq<Fd> {
    k.popped + (if k.pc.Processed? && k.queue != [] then [k.queue[0]] else [])
  }

  predicate Among(i: nat, n: nat, m: nat) {
    n <= i < n + m
  }

  /** The `m` numbers from `n` on. */
  function Next(n: nat, m: nat): set<nat> {
    set i: nat | i < n + m && Among(i, n, m)
  }

  lemma NextMore(n: nat, m: nat)
    requires 0 < m
    ensures Next(n, m) == {n} + Next(n + 1, m - 1)
  {
    forall i: nat | i < n + m ensures i in Next(n, m) <==> i in {n} + Next(n + 1, m - 1) {
      assert Among(i, n, m) <==> i == n || Among(i, n + 1, m - 1);
    }
  }

  /** The numbers of the first `n` sessions. */
  function Numbered(n: nat): set<nat> {
    Next(0, n)
  }

  lemma OneMoreNumbered(n: nat)
    ensures Numbered(n + 1) == Numbered(n) + {n}
  {
    forall i: nat | i <= n ensures i in Numbered(n + 1) <==> i in Numbered(n) + {n} {
      assert Among(i, 0, n + 1) <==> i == n || Among(i, 0, n);
    }
  }

  predicate ContextOk(k: Worker) {
    && (k.lock.ByWorker? <==> InDrain(k.pc))
    && (k.pc.Admitted? || k.pc.Processed? ==> k.queue != [])
    && (k.pc.Admitted? ==> !k.cleaned)
    && (k.exited <==> HasStored(k.pc))
    && (k.pc.LeftLoop? || HasStored(k.pc) ==> k.leaving)
    && (k.pc.Cleaned? || k.leaving ==> k.cleaned)
    && (Exit in k.pipe || k.pc.Cleaning? || k.cleaned ==> k.exiting)
    && k.sessions == (if k.cleaned then {} else Numbered(|k.adopted|) - k.closed)
    && k.closed <= Numbered(|k.adopted|)
    && k.adopted <= Handled(k)
    && (!k.exiting || k.pc.Admitted? ==> k.adopted == Handled(k))
  }

  lemma ContextAfterWorker(k: Worker, a: WorkerAct)
    requires ContextOk(k) && Guard(k, a)
    ensures ContextOk(Local(k, a))
  {
    OneMoreNumbered(|k.adopted|);
  }

  lemma ContextAfterOthers(k: Worker, x: Wake, fd: Fd, lock: Owner)
    requires ContextOk(k)
    ensures ContextOk(k.(exiting := true))
    ensures x == Conn || k.exiting ==> ContextOk(k.(pipe := k.pipe + [x]))
    ensures !lock.ByWorker? && !k.lock.ByWorker? ==>
              ContextOk(k.(lock := lock)) && ContextOk(k.(queue := k.queue + [fd], lock := lock))
  {}

  predicate ContextInv(s: State) {
    forall w | 0 <= w < |s.ws| :: ContextOk(s.ws[w])
  }

  lemma ContextAfter(s: State, a: Action)
    requires Enabled(s, a) && ContextInv(s) && LockInv(s)
    ensures ContextInv(Do(s, a))
  {
    match a
    case ByTheDispatcher(d) =>
      if !s.disp.Ready? {
        assert LockOk(s, s.disp.w);
        ContextAfterOthers(s.ws[s.disp.w], Conn, s.disp.fd, Free);
        ContextAfterOthers(s.ws[s.disp.w], Conn, s.disp.fd, ByDispatcher);
      }
    case ByThread(w, b) => ContextAfterWorker(s.ws[w], b);
    case ByTheStopper(t) => ContextAfterOthers(s.ws[s.stop.i], Exit, 0, Free);
  }

  // ---- Locks and program counters

  predicate LockOk(s: State, w: nat)
    requires w < |s.ws|
  {
    && (s.ws[w].lock.ByDispatcher? <==> (s.disp.Holding? || s.disp.Signalled?) && s.disp.w == w)
    && (InNotify(s.ws[w].pc) <==> s.mtx == HeldBy(w))
  }

  predicate LockInv(s: State) {
    && (!s.disp.Ready? ==> s.disp.w < |s.ws|)
    && s.stop.i <= |s.ws|
    && (!s.stop.AtWorker? ==> s.stop.i < |s.ws|)
    && (!s.stop.AtWorker? ==> s.ws[s.stop.i].exiting)
    && (s.mtx.ByStopper? <==> s.stop.Testing? || s.stop.Parking?)
    && (s.mtx.HeldBy? ==> s.mtx.w < |s.ws|)
    && forall w | 0 <= w < |s.ws| :: LockOk(s, w)
  }

  lemma LockAfter(s: State, a: Action)
    requires Enabled(s, a) && ContextInv(s) && LockInv(s)
    ensures LockInv(Do(s, a))
  {
    match a
    case ByTheDispatcher(d) => LockAfterDispatcher(s, d);
    case ByThread(w, b) => LockAfterWorker(s, w, b);
    case ByTheStopper(t) => LockAfterStopper(s, t);
  }

  lemma LockAfterDispatcher(s: State, d: DispatcherAct)
    requires DispatcherEnabled(s, d) && ContextInv(s) && LockInv(s)
    ensures LockInv(DoDispatcher(s, d))
  {
    var s' := DoDispatcher(s, d);
    forall w | 0 <= w < |s'.ws| ensures LockOk(s', w) {
      assert LockOk(s, w);
    }
  }

  lemma LockAfterWorker(s: State, w: nat, a: WorkerAct)
    requires WorkerEnabled(s, w, a) && ContextInv(s) && LockInv(s)
    ensures LockInv(DoWorker(s, w, a))
  {
    var s' := DoWorker(s, w, a);
    assert LockOk(s, w) && ContextOk(s.ws[w]);
    assert LockOk(s', w);
    forall v | 0 <= v < |s'.ws| && v != w ensures LockOk(s', v) {
      assert LockOk(s, v) && s'.ws[v] == s.ws[v];
    }
  }

  lemma LockAfterStopper(s: State, t: StopperAct)
    requires StopperEnabled(s, t) && LockInv(s)
    ensures LockInv(DoStopper(s, t))
  {
    var s' := DoStopper(s, t);
    forall w | 0 <= w < |s'.ws| ensures LockOk(s', w) {
      assert LockOk(s, w);
    }
  }

  // ---- Wake-ups

  function Wakes(pipe: seq<Wake>): nat {
    multiset(pipe)[Conn]
  }

  lemma WakesOfTail(pipe: seq<Wake>)
    requires pipe != []
    ensures Wakes(pipe) == Wakes(pipe[1..]) + (if pipe[0].Conn? then 1 else 0)
  {
    assert pipe == [pipe[0]] + pipe[1..];
  }

  /** Wake-ups outstanding against descriptors waiting, for one worker. */
  predicate WakeOk(k: Worker, signalled: bool) {
    Wakes(k.pipe) + (if MidWake(k.pc) then 1 else 0) >= |k.queue| + (if signalled then 1 else 0)
  }

  predicate WakeInv(s: State) {
    forall w | 0 <= w < |s.ws| :: WakeOk(s.ws[w], s.disp.Signalled? && s.disp.w == w)
  }

  lemma WakeAfter(s: State, a: Action)
    requires Enabled(s, a) && ContextInv(s) && LockInv(s) && WakeInv(s)
    ensures WakeInv(Do(s, a))
  {
    match a
    case ByTheDispatcher(d) => WakeAfterDispatcher(s, d);
    case ByThread(w, b) =>
      var s', signalled := DoWorker(s, w, b), s.disp.Signalled? && s.disp.w == w;
      assert LockOk(s, w) && ContextOk(s.ws[w]);
      WakeAfterWorker(s.ws[w], b, signalled);
      assert s'.disp == s.disp && s'.ws == s.ws[w := Local(s.ws[w], b)];
    case ByTheStopper(t) => WakeAfterStopper(s, t);
  }

  lemma WakeAfterDispatcher(s: State, d: DispatcherAct)
    requires DispatcherEnabled(s, d) && LockInv(s) && WakeInv(s)
    ensures WakeInv(DoDispatcher(s, d))
  {
    var s' := DoDispatcher(s, d);
    forall w | 0 <= w < |s'.ws| ensures WakeOk(s'.ws[w], s'.disp.Signalled? && s'.disp.w == w) {
      assert WakeOk(s.ws[w], s.disp.Signalled? && s.disp.w == w);
    }
  }

  lemma WakeAfterStopper(s: State, t: StopperAct)
    requires StopperEnabled(s, t) && WakeInv(s)
    ensures WakeInv(DoStopper(s, t))
  {
    var s' := DoStopper(s, t);
    forall w | 0 <= w < |s'.ws| ensures WakeOk(s'.ws[w], s'.disp.Signalled? && s'.disp.w == w) {
      assert WakeOk(s.ws[w], s.disp.Signalled? && s.disp.w == w);
    }
  }

  /** A worker that finishes draining holds the lock, so the dispatcher is not between write and push. */
  lemma WakeAfterWorker(k: Worker, a: WorkerAct, signalled: bool)
    requires Guard(k, a) && ContextOk(k) && WakeOk(k, signalled)
    requires signalled ==> k.lock.ByDispatcher?
    ensures WakeOk(Local(k, a), signalled)
  {
    if a.ReadByte? {
      WakesOfTail(k.pipe);
    }
  }

  // ---- Order

  /** The descriptors dispatched to a worker and not closed, in order. */
  function Stream(log: seq<Dispatch>, w: nat): seq<Fd> {
    if log == [] then []
    else
      var e := log[|log| - 1];
      Stream(log[..|log| - 1], w) + (if e.worker == w && !e.closed then [e.fd] else [])
  }

  function InFlight(d: DispatcherPc, w: nat): seq<Fd> {
    if Targets(d, w) then [d.fd] else []
  }

  predicate OrderOk(k: Worker, d: DispatcherPc, log: seq<Dispatch>, w: nat) {
    k.popped + k.queue + InFlight(d, w) == Stream(log, w)
  }

  predicate OrderInv(s: State) {
    && (!s.disp.Ready? ==> |s.log| > 0 && s.log[|s.log| - 1] == Dispatch(s.disp.fd, s.disp.w, false))
    && forall w | 0 <= w < |s.ws| :: OrderOk(s.ws[w], s.disp, s.log, w)
  }

  lemma OrderAfter(s: State, a: Action)
    requires Enabled(s, a) && OrderInv(s)
    ensures OrderInv(Do(s, a))
  {
    match a
    case ByTheDispatcher(d) => OrderAfterDispatcher(s, d);
    case ByThread(w, b) => OrderAfterWorker(s, w, b);
    case ByTheStopper(t) => OrderAfterStopper(s, t);
  }

  lemma OrderAfterWorker(s: State, w: nat, a: WorkerAct)
    requires WorkerEnabled(s, w, a) && OrderInv(s)
    ensures OrderInv(DoWorker(s, w, a))
  {
    var s' := DoWorker(s, w, a);
    assert s'.ws[w].popped + s'.ws[w].queue == s.ws[w].popped + s.ws[w].queue;
    forall v | 0 <= v < |s'.ws| ensures OrderOk(s'.ws[v], s'.disp, s'.log, v) {
      assert OrderOk(s.ws[v], s.disp, s.log, v);
    }
  }

  lemma OrderAfterStopper(s: State, t: StopperAct)
    requires StopperEnabled(s, t) && OrderInv(s)
    ensures OrderInv(DoStopper(s, t))
  {
    var s' := DoStopper(s, t);
    forall w | 0 <= w < |s'.ws| ensures OrderOk(s'.ws[w], s'.disp, s'.log, w) {
      assert OrderOk(s.ws[w], s.disp, s.log, w);
    }
  }

  lemma SameFront(a: seq<Fd>, b: seq<Fd>, c: seq<Fd>)
    requires a + c == b + c
    ensures a == b
  {
    assert a == (a + c)[..|a|] && b == (b + c)[..|b|];
  }

  lemma OrderAfterDispatcher(s: State, d: DispatcherAct)
    requires DispatcherEnabled(s, d) && OrderInv(s)
    ensures OrderInv(DoDispatcher(s, d))
  {
    var s' := DoDispatcher(s, d);
    forall w | 0 <= w < |s'.ws| ensures OrderOk(s'.ws[w], s'.disp, s'.log, w) {
      assert OrderOk(s.ws[w], s.disp, s.log, w);
      var k, f := s.ws[w], InFlight(s.disp, w);
      match d
      case Accept(fd) => assert s'.log[..|s.log|] == s.log;
      case WriteWakeFails =>
        assert s'.log[..|s.log| - 1] == s.log[..|s.log| - 1];
        SameFront(k.popped + k.queue, Stream(s.log[..|s.log| - 1], w), f);
      case PushFd => assert k.popped + k.queue + f == k.popped + (k.queue + f);
      case _ =>
    }
  }

  predicate RoundRobinInv(s: State) {
    0 < |s.ws| ==>
      && s.index == |s.log| % |s.ws|
      && forall k | 0 <= k < |s.log| :: s.log[k].worker == (k + 1) % |s.ws|
  }

  lemma RoundRobinAfter(s: State, a: Action)
    requires Enabled(s, a) && RoundRobinInv(s)
    ensures RoundRobinInv(Do(s, a))
  {
    match a
    case ByTheDispatcher(Accept(fd)) => SuccessorMod(|s.log|, |s.ws|);
    case _ =>
  }

  // ---- Stop handshake

  predicate Waits(t: StopperPc) {
    t.Written? || t.Testing? || t.Parking? || t.Asleep? || t.Woken?
  }

  predicate HandshakeInv(s: State) {
    s.stop.i < |s.ws| ==>
      var k := s.ws[s.stop.i];
      && (Waits(s.stop) ==> Exit in k.pipe || k.pc.Cleaning? || k.pc.Cleaned? || k.leaving)
      && ((s.stop.Parking? || s.stop.Asleep?) && k.exited ==> k.pc.Stored? || k.pc.Notifying?)
  }

  /** The workers that the stopper is done with. */
  predicate StoppedInv(s: State) {
    forall i | 0 <= i < s.stop.i && i < |s.ws| :: s.ws[i].exiting && (s.ws[i].exited || i in s.unreachable)
  }

  lemma StoppedAfter(s: State, a: Action)
    requires Enabled(s, a) && LockInv(s) && StoppedInv(s)
    ensures StoppedInv(Do(s, a))
  {}

  lemma HandshakeAfter(s: State, a: Action)
    requires Enabled(s, a) && ContextInv(s) && LockInv(s) && HandshakeInv(s)
    ensures HandshakeInv(Do(s, a))
  {
    match a
    case ByTheDispatcher(d) =>
    case ByThread(w, b) => HandshakeAfterWorker(s, w, b);
    case ByTheStopper(t) => HandshakeAfterStopper(s, t);
  }

  lemma HandshakeAfterWorker(s: State, w: nat, a: WorkerAct)
    requires WorkerEnabled(s, w, a) && ContextInv(s) && LockInv(s) && HandshakeInv(s)
    ensures HandshakeInv(DoWorker(s, w, a))
  {
    assert LockOk(s, w) && ContextOk(s.ws[w]);
  }

  lemma HandshakeAfterStopper(s: State, t: StopperAct)
    requires StopperEnabled(s, t) && HandshakeInv(s)
    ensures HandshakeInv(DoStopper(s, t))
  {}

  // ---- All runs

  predicate Inv(s: State) {
    && ContextInv(s) && LockInv(s) && WakeInv(s) && OrderInv(s) && RoundRobinInv(s) && HandshakeInv(s)
    && StoppedInv(s)
  }

  lemma InvAfter(s: State, a: Action)
    requires Enabled(s, a) && Inv(s)
    ensures Inv(Do(s, a)) && |Do(s, a).ws| == |s.ws|
  {
    ContextAfter(s, a);
    LockAfter(s, a);
    WakeAfter(s, a);
    OrderAfter(s, a);
    RoundRobinAfter(s, a);
    HandshakeAfter(s, a);
    StoppedAfter(s, a);
    SameWorkersAfter(s, a);
    AllOfInv(Do(s, a));
  }

  lemma SameWorkersAfter(s: State, a: Action)
    requires Enabled(s, a)
    ensures |Do(s, a).ws| == |s.ws|
  {}

  lemma AllOfInv(s: State)
    requires ContextInv(s) && LockInv(s) && WakeInv(s) && OrderInv(s) && RoundRobinInv(s) && HandshakeInv(s)
    requires StoppedInv(s)
    ensures Inv(s)
  {}

  /** Whatever the threads do from a state that satisfies the invariant, it stays. */
  lemma {:induction false} InvAlong(s: State, acts: seq<Action>)
    requires Inv(s)
    ensures Run(s, acts).Some? ==> Inv(Run(s, acts).value) && |Run(s, acts).value.ws| == |s.ws|
    decreases acts
  {
    if acts != [] && Enabled(s, acts[0]) {
      InvAfter(s, acts[0]);
      InvAlong(Do(s, acts[0]), acts[1..]);
    }
  }

  ghost predicate Reachable(n: nat, s: State) {
    exists acts :: Run(Init(n), acts) == Some(s)
  }

  lemma InvOfReachable(n: nat, s: State)
    requires Reachable(n, s)
    ensures Inv(s) && |s.ws| == n
  {
    var acts :| Run(Init(n), acts) == Some(s);
    InvAlong(Init(n), acts);
  }

  // ---- Main results

  /** No lost wake-up: a descriptor in a queue always has an unread 'c' byte or a worker on its way to
      it, and one between the dispatcher's write and push does too. */
  lemma NoLostWakeUp(n: nat, s: State, w: nat)
    requires Reachable(n, s) && w < n
    ensures |s.ws| == n
    ensures Wakes(s.ws[w].pipe) + (if MidWake(s.ws[w].pc) then 1 else 0) >=
            |s.ws[w].queue| + (if s.disp.Signalled? && s.disp.w == w then 1 else 0)
    ensures s.ws[w].queue != [] ==> Conn in s.ws[w].pipe || MidWake(s.ws[w].pc)
  {
    InvOfReachable(n, s);
    assert WakeOk(s.ws[w], s.disp.Signalled? && s.disp.w == w);
  }

  /** Reference: of the dispatches numbered from 1, those whose number is `w` modulo N and whose
      wake-up write did not fail. */
  function Share(log: seq<Dispatch>, n: nat, w: nat): seq<Fd>
    requires 0 < n
  {
    if log == [] then []
    else
      Share(log[..|log| - 1], n, w) +
      (if |log| % n == w && !log[|log| - 1].closed then [log[|log| - 1].fd] else [])
  }

  lemma {:induction false} StreamIsShare(log: seq<Dispatch>, n: nat, w: nat)
    requires 0 < n && forall k | 0 <= k < |log| :: log[k].worker == (k + 1) % n
    ensures Stream(log, w) == Share(log, n, w)
  {
    if log != [] {
      StreamIsShare(log[..|log| - 1], n, w);
    }
  }

  /** What worker w has popped, then its queue, then what is on its way to it, is exactly its
      round-robin share of the dispatches, in order. */
  lemma EachWorkerGetsItsShare(n: nat, s: State, w: nat)
    requires Reachable(n, s) && w < n
    ensures |s.ws| == n && s.ws[w].popped + s.ws[w].queue + InFlight(s.disp, w) == Share(s.log, n, w)
  {
    InvOfReachable(n, s);
    assert OrderOk(s.ws[w], s.disp, s.log, w);
    StreamIsShare(s.log, n, w);
  }

  /** The positions in the log of a worker's share. */
  function Numbers(log: seq<Dispatch>, n: nat, w: nat): (ks: seq<nat>)
    requires 0 < n
    ensures forall i | 0 <= i < |ks| :: ks[i] < |log|
  {
    if log == [] then []
    else
      Numbers(log[..|log| - 1], n, w) +
      (if |log| % n == w && !log[|log| - 1].closed then [|log| - 1] else [])
  }

  function FdsAt(log: seq<Dispatch>, ks: seq<nat>): seq<Fd>
    requires forall i | 0 <= i < |ks| :: ks[i] < |log|
  {
    seq(|ks|, i requires 0 <= i < |ks| => log[ks[i]].fd)
  }

  predicate Belongs(log: seq<Dispatch>, n: nat, w: nat, k: nat)
    requires 0 < n
  {
    k < |log| && (k + 1) % n == w && !log[k].closed
  }

  lemma {:induction false} NumbersIncrease(log: seq<Dispatch>, n: nat, w: nat)
    requires 0 < n
    ensures forall i, j | 0 <= i < j < |Numbers(log, n, w)| :: Numbers(log, n, w)[i] < Numbers(log, n, w)[j]
  {
    if log != [] {
      NumbersIncrease(log[..|log| - 1], n, w);
    }
  }

  lemma {:induction false} NumbersBelong(log: seq<Dispatch>, n: nat, w: nat, k: nat)
    requires 0 < n
    ensures k in Numbers(log, n, w) <==> Belongs(log, n, w, k)
  {
    if log != [] {
      NumbersBelong(log[..|log| - 1], n, w, k);
      BelongsBefore(log, n, w, k);
    }
  }

  lemma BelongsBefore(log: seq<Dispatch>, n: nat, w: nat, k: nat)
    requires 0 < n && log != []
    ensures Belongs(log, n, w, k) <==>
            Belongs(log[..|log| - 1], n, w, k) || (k == |log| - 1 && |log| % n == w && !log[k].closed)
  {}

  lemma {:induction false} ShareIsAtNumbers(log: seq<Dispatch>, n: nat, w: nat)
    requires 0 < n
    ensures Share(log, n, w) == FdsAt(log, Numbers(log, n, w))
  {
    if log != [] {
      var m := |log| - 1;
      var ks := Numbers(log[..m], n, w);
      ShareIsAtNumbers(log[..m], n, w);
      assert FdsAt(log, ks) == FdsAt(log[..m], ks);
      assert FdsAt(log, ks + [m]) == FdsAt(log, ks) + [log[m].fd];
    }
  }

  /** A share consists of the dispatches with the worker's remainder, each once and in order. */
  lemma ShareIsNumbered(log: seq<Dispatch>, n: nat, w: nat)
    requires 0 < n
    ensures Share(log, n, w) == FdsAt(log, Numbers(log, n, w))
    ensures forall i, j | 0 <= i < j < |Numbers(log, n, w)| :: Numbers(log, n, w)[i] < Numbers(log, n, w)[j]
    ensures forall k: nat :: k in Numbers(log, n, w) <==> Belongs(log, n, w, k)
  {
    ShareIsAtNumbers(log, n, w);
    NumbersIncrease(log, n, w);
    forall k: nat ensures k in Numbers(log, n, w) <==> Belongs(log, n, w, k) {
      NumbersBelong(log, n, w, k);
    }
  }

  /** Every dispatch that was not closed is in the share of exactly one worker, there exactly once; and what
      a worker has or had is its share in order. So nothing is duplicated, reordered or sent to two
      workers, even when descriptor numbers are used again. */
  lemma NeverSentToTwoWorkers(n: nat, s: State, w: nat, v: nat)
    requires Reachable(n, s) && w < n && v < n
    ensures |s.ws| == n
    ensures s.ws[w].popped + s.ws[w].queue + InFlight(s.disp, w) == FdsAt(s.log, Numbers(s.log, n, w))
    ensures forall i, j | 0 <= i < j < |Numbers(s.log, n, w)| :: Numbers(s.log, n, w)[i] < Numbers(s.log, n, w)[j]
    ensures forall k: nat | k < |s.log| && !s.log[k].closed :: k in Numbers(s.log, n, (k + 1) % n)
    ensures w != v ==> forall k: nat | k in Numbers(s.log, n, w) :: k !in Numbers(s.log, n, v)
  {
    EachWorkerGetsItsShare(n, s, w);
    ShareIsNumbered(s.log, n, w);
    ShareIsNumbered(s.log, n, v);
    forall k: nat | k < |s.log| && !s.log[k].closed ensures k in Numbers(s.log, n, (k + 1) % n) {
      ShareIsNumbered(s.log, n, (k + 1) % n);
      assert Belongs(s.log, n, (k + 1) % n, k);
    }
    forall k: nat | k in Numbers(s.log, n, w) && w != v ensures k !in Numbers(s.log, n, v) {
      assert Belongs(s.log, n, w, k);
    }
  }

  /** Until its exiting flag is stored a worker opens a session for every descriptor it processes, in
      order; after that the opened ones stay a prefix. */
  lemma SessionsOpenedInOrder(n: nat, s: State, w: nat)
    requires Reachable(n, s) && w < n
    ensures |s.ws| == n && s.ws[w].adopted <= Handled(s.ws[w])
    ensures !s.ws[w].exiting ==> s.ws[w].adopted == Handled(s.ws[w])
  {
    InvOfReachable(n, s);
    assert ContextOk(s.ws[w]);
  }

  /** What can still become of the sessions of a worker whose exiting flag is stored: one more, for the
      descriptor at the front of its queue, if it was past its test of the flag. */
  predicate OpenedSince(k: Worker, k': Worker) {
    && k'.exiting
    && (k.pc.Admitted? && k'.pc.Admitted? ==>
          k.queue != [] && k'.queue != [] && k'.queue[0] == k.queue[0] && k'.adopted == k.adopted)
    && (k'.pc.Admitted? ==> k.pc.Admitted?)
    && (k'.adopted == k.adopted || (k.pc.Admitted? && k.queue != [] && k'.adopted == k.adopted + [k.queue[0]]))
    && k'.sessions <= k.sessions + (if k.pc.Admitted? then {|k.adopted|} else {})
  }

  lemma OpenedSinceWorker(k: Worker, k1: Worker, a: WorkerAct)
    requires OpenedSince(k, k1) && Guard(k1, a)
    ensures OpenedSince(k, Local(k1, a))
  {}

  lemma OpenedSinceOthers(k: Worker, k1: Worker, x: Wake, fd: Fd, lock: Owner)
    requires OpenedSince(k, k1)
    ensures OpenedSince(k, k1.(exiting := true)) && OpenedSince(k, k1.(pipe := k1.pipe + [x]))
    ensures OpenedSince(k, k1.(lock := lock)) && OpenedSince(k, k1.(queue := k1.queue + [fd], lock := lock))
  {}

  lemma OpenedSinceStep(k: Worker, s: State, a: Action, w: nat)
    requires w < |s.ws| && Enabled(s, a) && OpenedSince(k, s.ws[w])
    ensures OpenedSince(k, Do(s, a).ws[w])
  {
    match a
    case ByTheDispatcher(d) =>
      if !s.disp.Ready? {
        OpenedSinceOthers(k, s.ws[w], Conn, s.disp.fd, Free);
        OpenedSinceOthers(k, s.ws[w], Conn, s.disp.fd, ByDispatcher);
      }
    case ByThread(v, b) =>
      if v == w {
        OpenedSinceWorker(k, s.ws[w], b);
      }
    case ByTheStopper(t) => OpenedSinceOthers(k, s.ws[w], Exit, 0, Free);
  }

  lemma {:induction false} OpenedSinceRun(k: Worker, s: State, acts: seq<Action>, w: nat)
    requires w < |s.ws| && Run(s, acts).Some? && OpenedSince(k, s.ws[w])
    ensures |Run(s, acts).value.ws| == |s.ws| && OpenedSince(k, Run(s, acts).value.ws[w])
    decreases acts
  {
    if acts != [] {
      OpenedSinceStep(k, s, acts[0], w);
      OpenedSinceRun(k, Do(s, acts[0]), acts[1..], w);
    }
  }

  /** Once the exiting flag is stored any run opens at most one more session, and only if the worker had
      tested the flag before: that of the descriptor it is processing. */
  lemma AtMostOneSessionOnceExiting(n: nat, s: State, acts: seq<Action>, w: nat)
    requires Reachable(n, s) && w < n && |s.ws| == n && s.ws[w].exiting && Run(s, acts).Some?
    ensures |Run(s, acts).value.ws| == n
    ensures var k, k' := s.ws[w], Run(s, acts).value.ws[w];
            && (k'.adopted == k.adopted || (k.pc.Admitted? && k.queue != [] && k'.adopted == k.adopted + [k.queue[0]]))
            && k'.sessions <= k.sessions + (if k.pc.Admitted? then {|k.adopted|} else {})
  {
    InvOfReachable(n, s);
    assert ContextOk(s.ws[w]);
    OpenedSinceRun(s.ws[w], s, acts, w);
  }

  lemma {:induction false} RunMore(s: State, acts: seq<Action>, a: Action)
    requires Run(s, acts).Some? && Enabled(Run(s, acts).value, a)
    ensures Run(s, acts + [a]) == Some(Do(Run(s, acts).value, a))
    decreases acts
  {
    if acts == [] {
      assert Run(Do(s, a), []) == Some(Do(s, a));
      assert ([] + [a])[1..] == [];
    } else {
      RunMore(Do(s, acts[0]), acts[1..], a);
      assert (acts + [a])[1..] == acts[1..] + [a];
    }
  }

  /** A stopper that sleeps may wake up although the worker it waits for has not even read its byte. */
  lemma WokenEarly(n: nat) returns (acts: seq<Action>)
    requires 0 < n
    ensures Run(Init(n), acts).Some?
    ensures var s := Run(Init(n), acts).value;
            s.stop == Woken(0) && |s.ws| == n && s.ws[0].pipe == [Exit] && !s.ws[0].exited
  {
    acts := [];
    RunMore(Init(n), acts, ByTheStopper(SetExiting));
    acts := acts + [ByTheStopper(SetExiting)];
    RunMore(Init(n), acts, ByTheStopper(WriteExit));
    acts := acts + [ByTheStopper(WriteExit)];
    RunMore(Init(n), acts, ByTheStopper(LockStopMutex));
    acts := acts + [ByTheStopper(LockStopMutex)];
    RunMore(Init(n), acts, ByTheStopper(TestExited));
    acts := acts + [ByTheStopper(TestExited)];
    RunMore(Init(n), acts, ByTheStopper(Park));
    acts := acts + [ByTheStopper(Park)];
    RunMore(Init(n), acts, ByTheStopper(WakeUp));
    acts := acts + [ByTheStopper(WakeUp)];
  }

  /** A descriptor whose wake-up byte cannot be written is closed and reaches no queue. */
  lemma ClosedWhenWakeFails(n: nat, fd: Fd) returns (acts: seq<Action>)
    requires 0 < n
    ensures Run(Init(n), acts).Some?
    ensures var s := Run(Init(n), acts).value;
            && s.disp.Ready? && s.log == [Dispatch(fd, 1 % n, true)] && |s.ws| == n
            && forall w | 0 <= w < n :: s.ws[w] == NEW_WORKER
  {
    acts := [];
    RunMore(Init(n), acts, ByTheDispatcher(Accept(fd)));
    acts := acts + [ByTheDispatcher(Accept(fd))];
    RunMore(Init(n), acts, ByTheDispatcher(LockQueue));
    acts := acts + [ByTheDispatcher(LockQueue)];
    RunMore(Init(n), acts, ByTheDispatcher(WriteWakeFails));
    acts := acts + [ByTheDispatcher(WriteWakeFails)];
  }

  /** One descriptor on its way to the worker that gets the first: the worker has tested its flag. */
  lemma FirstDescriptorAdmitted(n: nat) returns (acts: seq<Action>)
    requires 0 < n
    ensures Run(Init(n), acts).Some?
    ensures var s, w := Run(Init(n), acts).value, 1 % n;
            && |s.ws| == n && s.stop == AtWorker(0) && s.mtx.Unlocked?
            && s.ws[w].pc.Admitted? && s.ws[w].queue == [7] && s.ws[w].adopted == [] && !s.ws[w].exiting
  {
    var w := 1 % n;
    acts := [];
    RunMore(Init(n), acts, ByTheDispatcher(Accept(7)));
    acts := acts + [ByTheDispatcher(Accept(7))];
    RunMore(Init(n), acts, ByTheDispatcher(LockQueue));
    acts := acts + [ByTheDispatcher(LockQueue)];
    RunMore(Init(n), acts, ByTheDispatcher(WriteWake));
    acts := acts + [ByTheDispatcher(WriteWake)];
    RunMore(Init(n), acts, ByTheDispatcher(PushFd));
    acts := acts + [ByTheDispatcher(PushFd)];
    RunMore(Init(n), acts, ByThread(w, ReadByte));
    acts := acts + [ByThread(w, ReadByte)];
    RunMore(Init(n), acts, ByThread(w, TakeLock));
    acts := acts + [ByThread(w, TakeLock)];
    RunMore(Init(n), acts, ByThread(w, TestExiting));
    acts := acts + [ByThread(w, TestExiting)];
  }

  lemma {:induction false} RunConcat(s: State, acts: seq<Action>, more: seq<Action>)
    requires Run(s, acts).Some?
    ensures Run(s, acts + more) == Run(Run(s, acts).value, more)
    decreases acts
  {
    if acts == [] {
      assert acts + more == more;
    } else {
      RunConcat(Do(s, acts[0]), acts[1..], more);
      assert (acts + more)[1..] == acts[1..] + more;
    }
  }

  /** Worker 0 cannot be written to, so the stopper goes on to worker 1. */
  lemma FirstWorkerSkipped(s: State) returns (acts: seq<Action>)
    requires 1 < |s.ws| && s.stop == AtWorker(0)
    ensures Run(s, acts) == Some(s.(stop := AtWorker(1), ws := s.ws[0 := s.ws[0].(exiting := true)],
                                   unreachable := s.unreachable + {0}))
  {
    RunMore(s, [], ByTheStopper(SetExiting));
    RunMore(s, [] + [ByTheStopper(SetExiting)], ByTheStopper(WriteExitFails));
    acts := [] + [ByTheStopper(SetExiting)] + [ByTheStopper(WriteExitFails)];
  }

  /** The stopper comes to store the flag of worker 1 or, when there is only one, of worker 0. */
  lemma FlagStored(s: State) returns (acts: seq<Action>)
    requires 0 < |s.ws| && s.stop == AtWorker(0)
    ensures Run(s, acts).Some?
    ensures var s', w := Run(s, acts).value, 1 % |s.ws|;
            |s'.ws| == |s.ws| && s'.ws[w] == s.ws[w].(exiting := true)
  {
    acts := [];
    if 1 < |s.ws| {
      acts := FirstWorkerSkipped(s);
      assert 1 % |s.ws| == 1;
    }
    RunMore(s, acts, ByTheStopper(SetExiting));
    acts := acts + [ByTheStopper(SetExiting)];
  }

  /** With any number of workers some run stores the flag of a worker and then opens a session there. */
  lemma SessionOpenedAfterFlag(n: nat) returns (acts: seq<Action>, s: State)
    requires 0 < n
    ensures Run(Init(n), acts) == Some(s) && |s.ws| == n && s.ws[1 % n].exiting && s.ws[1 % n].adopted == []
    ensures Enabled(s, ByThread(1 % n, OpenSession)) && Do(s, ByThread(1 % n, OpenSession)).ws[1 % n].adopted == [7]
  {
    acts := FirstDescriptorAdmitted(n);
    var more := FlagStored(Run(Init(n), acts).value);
    RunConcat(Init(n), acts, more);
    acts := acts + more;
    s := Run(Init(n), acts).value;
  }

  lemma {:induction false} CleanedStays(s: State, acts: seq<Action>, w: nat)
    requires w < |s.ws| && s.ws[w].cleaned && Run(s, acts).Some?
    ensures |Run(s, acts).value.ws| == |s.ws| && Run(s, acts).value.ws[w].cleaned
    decreases acts
  {
    if acts != [] {
      CleanedStays(Do(s, acts[0]), acts[1..], w);
    }
  }

  /** Once a worker has handled 'e' its session table is empty in every later state, whatever bytes and
      descriptors it still finds. */
  lemma NoSessionAfterExit(n: nat, s: State, acts: seq<Action>, w: nat)
    requires Reachable(n, s) && w < n && |s.ws| == n && s.ws[w].pc.Cleaned?
    requires Run(s, acts).Some?
    ensures |Run(s, acts).value.ws| == n && Run(s, acts).value.ws[w].sessions == {}
  {
    InvOfReachable(n, s);
    assert ContextOk(s.ws[w]);
    InvAlong(s, acts);
    CleanedStays(s, acts, w);
    assert ContextOk(Run(s, acts).value.ws[w]);
  }

  /** No missed notification: while the stopper sleeps on worker i, that worker has not notified yet,
      so once it has exited the notification is still to come. */
  lemma NoMissedNotification(n: nat, s: State)
    requires Reachable(n, s) && s.stop.Asleep?
    ensures s.stop.i < |s.ws| && !s.ws[s.stop.i].pc.Notified? && !s.ws[s.stop.i].pc.Gone?
  {
    InvOfReachable(n, s);
    assert ContextOk(s.ws[s.stop.i]);
  }

  /** Every worker the stopper is done with has left its event loop, unless its byte could not be written; and
      then it has no session. */
  lemma StoppedWorkersHaveExited(n: nat, s: State, w: nat)
    requires Reachable(n, s) && w < n && w < s.stop.i
    ensures |s.ws| == n && s.ws[w].exiting
    ensures w !in s.unreachable ==> s.ws[w].exited && s.ws[w].sessions == {}
  {
    InvOfReachable(n, s);
    assert ContextOk(s.ws[w]);
  }

  // ---- Sessions open and closed

  /** Before the clean-up the open sessions are exactly those opened less those closed. */
  lemma OpenSessions(n: nat, s: State, w: nat)
    requires Reachable(n, s) && w < n
    ensures |s.ws| == n && s.ws[w].closed <= Numbered(|s.ws[w].adopted|)
    ensures s.ws[w].sessions == if s.ws[w].cleaned then {} else Numbered(|s.ws[w].adopted|) - s.ws[w].closed
  {
    InvOfReachable(n, s);
    assert ContextOk(s.ws[w]);
  }

  /** The sessions that a run closes at a worker. */
  function ClosedIn(acts: seq<Action>, w: nat): set<nat> {
    set a | a in acts && a.ByThread? && a.w == w && a.a.CloseSession? :: a.a.id
  }

  lemma {:induction false} ClosedByRun(s: State, acts: seq<Action>, w: nat)
    requires w < |s.ws| && Run(s, acts).Some?
    ensures |Run(s, acts).value.ws| == |s.ws|
    ensures Run(s, acts).value.ws[w].closed == s.ws[w].closed + ClosedIn(acts, w)
    decreases acts
  {
    if acts != [] {
      ClosedByRun(Do(s, acts[0]), acts[1..], w);
      ClosedFirst(acts, w);
    }
  }

  lemma ClosedFirst(acts: seq<Action>, w: nat)
    requires acts != []
    ensures ClosedIn(acts, w) == ClosedIn([acts[0]], w) + ClosedIn(acts[1..], w)
  {
    assert acts == [acts[0]] + acts[1..];
  }

  /** A worker that is not cleaning up loses no session but by closing it: after any run, what is open is what
      was opened less exactly the sessions that the run closed. */
  lemma SessionsCloseOneByOne(n: nat, acts: seq<Action>, w: nat)
    requires w < n && Run(Init(n), acts).Some?
    ensures |Run(Init(n), acts).value.ws| == n
    ensures var k := Run(Init(n), acts).value.ws[w];
            k.sessions == if k.cleaned then {} else Numbered(|k.adopted|) - ClosedIn(acts, w)
  {
    OpenSessions(n, Run(Init(n), acts).value, w);
    ClosedByRun(Init(n), acts, w);
  }

  // ---- The shutdown can always complete

  /** The thread that holds the stop mutex moves on. */
  function MutexStep(s: State): Action
    requires s.mtx.HeldBy? && s.mtx.w < |s.ws|
  {
    ByThread(s.mtx.w, if s.ws[s.mtx.w].pc.Notifying? then NotifyOne else ReleaseStopMutex)
  }

  /** A step of the worker the stopper sleeps on, or of whoever it waits for. */
  function WorkerStep(s: State, i: nat): Action
    requires i < |s.ws|
  {
    var k := s.ws[i];
    match k.pc
    case Loop => ByThread(i, if k.leaving then LeaveLoop else ReadByte)
    case WantLock =>
      if k.lock.Free? then ByThread(i, TakeLock)
      else ByTheDispatcher(if s.disp.Holding? then WriteWake else PushFd)
    case Draining => ByThread(i, if k.queue == [] then FinishDrain else TestExiting)
    case Admitted => ByThread(i, OpenSession)
    case Processed => ByThread(i, PopFront)
    case Cleaning => ByThread(i, CleanState)
    case Cleaned => ByThread(i, RequestExit)
    case LeftLoop => ByThread(i, StoreExited)
    case Stored => if s.mtx.HeldBy? && s.mtx.w < |s.ws| then MutexStep(s) else ByThread(i, TakeStopMutex)
    case Notifying => ByThread(i, NotifyOne)
    case _ => ByThread(i, ReleaseStopMutex)
  }

  function NextStep(s: State): Action
    requires s.stop.i < |s.ws|
  {
    match s.stop
    case AtWorker(_) => ByTheStopper(SetExiting)
    case Flagged(_) => ByTheStopper(WriteExit)
    case Testing(_) => ByTheStopper(TestExited)
    case Parking(_) => ByTheStopper(Park)
    case Asleep(i) => WorkerStep(s, i)
    case _ => if s.mtx.HeldBy? && s.mtx.w < |s.ws| then MutexStep(s) else ByTheStopper(LockStopMutex)
  }

  /** Not a new connection, a failing write, the end of a connection or a spurious wake-up. */
  predicate IsProgress(a: Action) {
    match a
    case ByTheDispatcher(d) => !d.Accept? && !d.WriteWakeFails?
    case ByThread(_, b) => !b.CloseSession?
    case ByTheStopper(t) => !t.WriteExitFails? && !t.WakeUp?
  }

  lemma MutexStepEnabled(s: State)
    requires LockInv(s) && s.mtx.HeldBy?
    ensures s.mtx.w < |s.ws| && Enabled(s, MutexStep(s)) && IsProgress(MutexStep(s))
  {
    assert LockOk(s, s.mtx.w);
  }

  lemma WorkerStepEnabled(s: State)
    requires ContextInv(s) && LockInv(s) && HandshakeInv(s) && s.stop.Asleep?
    ensures Enabled(s, WorkerStep(s, s.stop.i)) && IsProgress(WorkerStep(s, s.stop.i))
  {
    assert LockOk(s, s.stop.i) && ContextOk(s.ws[s.stop.i]);
    if s.mtx.HeldBy? {
      MutexStepEnabled(s);
    }
  }

  /** Deadlock freedom: until the stopper is done some thread can take a step of its own accord. */
  lemma NeverStuck(s: State)
    requires Inv(s) && s.stop.i < |s.ws|
    ensures Enabled(s, NextStep(s)) && IsProgress(NextStep(s))
  {
    if s.mtx.HeldBy? {
      MutexStepEnabled(s);
    }
    if s.stop.Asleep? {
      WorkerStepEnabled(s);
    }
  }

  // ---- Every run is bounded, and a run that stops has shut down

  function PipeCost(pipe: seq<Wake>): nat { 6 * |pipe| }
  function QueueCost(queue: seq<Fd>): nat { 4 * |queue| }

  /** How many steps a worker can still take, by where it is. */
  function PcCost(pc: WorkerPc): nat {
    match pc
    case WantLock => 14 case Draining => 13 case Admitted => 12 case Processed => 10
    case Cleaning => 11 case Cleaned => 10 case Loop => 9
    case LeftLoop => 8 case Stored => 7 case Notifying => 6 case Notified => 1 case Gone => 0
  }

  function WorkerCost(k: Worker): nat {
    PipeCost(k.pipe) + QueueCost(k.queue) + |k.sessions| + PcCost(k.pc)
  }

  function WorkersCost(ws: seq<Worker>): nat {
    if ws == [] then 0 else WorkersCost(ws[..|ws| - 1]) + WorkerCost(ws[|ws| - 1])
  }

  function DispatcherCost(d: DispatcherPc): nat {
    match d case Ready => 0 case Chosen(_, _) => 13 case Holding(_, _) => 12 case Signalled(_, _) => 5
  }

  function StopperCost(t: StopperPc, n: nat): nat {
    if t.i < n then
      12 * (n - t.i) +
      match t
      case AtWorker(_) => 11 case Flagged(_) => 10 case Written(_) => 3 case Woken(_) => 3
      case Testing(_) => 2 case Parking(_) => 1 case Asleep(_) => 0
    else 0
  }

  function Cost(s: State): nat {
    WorkersCost(s.ws) + DispatcherCost(s.disp) + StopperCost(s.stop, |s.ws|)
  }

  lemma {:induction false} WorkersCostUpdate(ws: seq<Worker>, w: nat, k: Worker)
    requires w < |ws|
    ensures WorkersCost(ws[w := k]) + WorkerCost(ws[w]) == WorkersCost(ws) + WorkerCost(k)
  {
    var m := |ws| - 1;
    if w == m {
      assert ws[w := k][..m] == ws[..m];
    } else {
      assert ws[w := k][..m] == ws[..m][w := k];
      WorkersCostUpdate(ws[..m], w, k);
    }
  }

  lemma SessionStepCosts(k: Worker, a: WorkerAct)
    requires Guard(k, a) && (a.OpenSession? || a.CloseSession?)
    ensures WorkerCost(Local(k, a)) + 1 <= WorkerCost(k)
  {
    if a.OpenSession? {
      AddOne(k.sessions, |k.adopted|);
    } else {
      RemoveOne(k.sessions, a.id);
    }
  }

  /** A worker's step lowers its cost, by more than a wake-up of the stopper when it notifies. */
  lemma WorkerStepCosts(k: Worker, a: WorkerAct)
    requires Guard(k, a)
    ensures WorkerCost(Local(k, a)) + (if a.NotifyOne? then 5 else 1) <= WorkerCost(k)
  {
    if a.OpenSession? || a.CloseSession? {
      SessionStepCosts(k, a);
    }
  }

  lemma AddOne(a: set<nat>, x: nat)
    ensures |a + {x}| <= |a| + 1
  {
    if x in a {
      assert a + {x} == a;
    }
  }

  lemma RemoveOne(a: set<nat>, x: nat)
    requires x in a
    ensures |a - {x}| + 1 == |a|
  {}

  /** What a step may add: a new connection the steps that handle it, a spurious wake-up one more test. */
  function Allowance(a: Action): nat {
    if a.ByTheDispatcher? && a.d.Accept? then 14
    else if a.ByTheStopper? && a.t.WakeUp? then 4
    else 0
  }

  lemma DispatcherStepCosts(s: State, d: DispatcherAct)
    requires DispatcherEnabled(s, d)
    ensures Cost(DoDispatcher(s, d)) + 1 <= Cost(s) + Allowance(ByTheDispatcher(d))
  {
    if !d.Accept? {
      WorkersCostUpdate(s.ws, s.disp.w, DoDispatcher(s, d).ws[s.disp.w]);
    }
  }

  lemma StopperStepCosts(s: State, t: StopperAct)
    requires StopperEnabled(s, t)
    ensures Cost(DoStopper(s, t)) + 1 <= Cost(s) + Allowance(ByTheStopper(t))
  {
    var i := s.stop.i;
    var k := DoStopper(s, t).ws[i];
    WorkersCostUpdate(s.ws, i, k);
    assert DoStopper(s, t).ws == s.ws[i := k];
  }

  /** Every step of every thread uses up some of the cost. */
  lemma EveryStepCosts(s: State, a: Action)
    requires Enabled(s, a)
    ensures Cost(Do(s, a)) + 1 <= Cost(s) + Allowance(a)
  {
    match a
    case ByTheDispatcher(d) => DispatcherStepCosts(s, d);
    case ByThread(w, b) =>
      WorkerStepCosts(s.ws[w], b);
      WorkersCostUpdate(s.ws, w, Local(s.ws[w], b));
    case ByTheStopper(t) => StopperStepCosts(s, t);
  }

  function Allowances(acts: seq<Action>): nat
    decreases acts
  {
    if acts == [] then 0 else Allowance(acts[0]) + Allowances(acts[1..])
  }

  /** No run is longer than the cost of its first state, but for what new connections and spurious wake-ups
      allow: however the threads are scheduled, they run out of steps. */
  lemma {:induction false} EveryRunIsBounded(s: State, acts: seq<Action>)
    requires Run(s, acts).Some?
    ensures |acts| <= Cost(s) + Allowances(acts)
    decreases acts
  {
    if acts != [] {
      EveryStepCosts(s, acts[0]);
      EveryRunIsBounded(Do(s, acts[0]), acts[1..]);
    }
  }

  /** A run in which no thread can take a step of its own accord any more has stopped every worker. */
  lemma StuckOnlyWhenStopped(s: State, acts: seq<Action>)
    requires Inv(s) && Run(s, acts).Some?
    requires forall a | IsProgress(a) :: !Enabled(Run(s, acts).value, a)
    ensures Run(s, acts).value.stop == AtWorker(|s.ws|)
  {
    InvAlong(s, acts);
    var s' := Run(s, acts).value;
    if s'.stop.i < |s'.ws| {
      NeverStuck(s');
      assert false;
    }
  }

  lemma RunFirst(s: State, a: Action, rest: seq<Action>)
    requires Enabled(s, a)
    ensures Run(s, [a] + rest) == Run(Do(s, a), rest)
  {
    assert ([a] + rest)[1..] == rest;
  }

  /** From every state the invariant allows, the threads can be scheduled so that the stopper stops
      every worker: the wait for a worker never depends on something that cannot happen any more. */
  lemma {:induction false} ShutdownCanComplete(s: State) returns (acts: seq<Action>)
    requires Inv(s)
    ensures Run(s, acts).Some? && Run(s, acts).value.stop == AtWorker(|s.ws|)
    decreases Cost(s)
  {
    acts := [];
    if s.stop.i < |s.ws| {
      var a := NextStep(s);
      NeverStuck(s);
      EveryStepCosts(s, a);
      InvAfter(s, a);
      acts := ShutdownCanComplete(Do(s, a));
      RunFirst(s, a, acts);
      acts := [a] + acts;
    }
  }
}
