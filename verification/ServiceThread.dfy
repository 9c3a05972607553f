/** One worker thread's context as the code updates it: the wake-up bytes, the queue and the sessions.
    Every method is tied to the steps of the hand-off that it is made of. */
module ServiceThreads {
  import opened Wrappers
  import opened HandOff

  /** A list of steps of one worker on its own context; `None` when a guard fails. */
  function Steps(k: Worker, acts: seq<WorkerAct>): Option<Worker>
    decreases acts
  {
    if acts == [] then Some(k)
    else if Guard(k, acts[0]) then Steps(Local(k, acts[0]), acts[1..])
    else None
  }

  lemma {:induction false} StepsThenStep(k: Worker, acts: seq<WorkerAct>, a: WorkerAct)
    requires Steps(k, acts).Some? && Guard(Steps(k, acts).value, a)
    ensures Steps(k, acts + [a]) == Some(Local(Steps(k, acts).value, a))
    decreases acts
  {
    if acts != [] {
      StepsThenStep(Local(k, acts[0]), acts[1..], a);
      assert (acts + [a])[1..] == acts[1..] + [a];
    }
  }

  predicate TouchesStopMutex(a: WorkerAct) {
    a.TakeStopMutex? || a.NotifyOne? || a.ReleaseStopMutex?
  }

  function ByWorkerNumber(w: nat, acts: seq<WorkerAct>): seq<Action> {
    seq(|acts|, i requires 0 <= i < |acts| => ByThread(w, acts[i]))
  }

  /** Steps of one worker that stay away from the stop mutex are a run of the whole system which
      changes that worker only. */
  lemma {:induction false} StepsAreARun(s: State, w: nat, acts: seq<WorkerAct>)
    requires w < |s.ws| && Steps(s.ws[w], acts).Some?
    requires forall a | a in acts :: !TouchesStopMutex(a)
    ensures Run(s, ByWorkerNumber(w, acts)) == Some(s.(ws := s.ws[w := Steps(s.ws[w], acts).value]))
    decreases acts
  {
    var all := ByWorkerNumber(w, acts);
    if acts == [] {
      assert s.ws[w := s.ws[w]] == s.ws;
    } else {
      assert acts[0] in acts && forall a | a in acts[1..] :: a in acts;
      var s' := Do(s, all[0]);
      StepsAreARun(s', w, acts[1..]);
      assert all[1..] == ByWorkerNumber(w, acts[1..]);
      assert s'.ws[w := Steps(s'.ws[w], acts[1..]).value] == s.ws[w := Steps(s.ws[w], acts).value];
    }
  }

  function HandedOver(k: Worker, fd: Fd): Worker {
    k.(pipe := k.pipe + [Conn], queue := k.queue + [fd])
  }

  /** A whole `addFdToEvLoop` by the dispatcher, when the wake-up write succeeds. */
  lemma HandOverIsARun(s: State)
    requires s.disp.Chosen? && s.disp.w < |s.ws| && s.ws[s.disp.w].lock.Free?
    ensures var w, k := s.disp.w, s.ws[s.disp.w];
            Run(s, [ByTheDispatcher(LockQueue), ByTheDispatcher(WriteWake), ByTheDispatcher(PushFd)]) ==
            Some(s.(disp := Ready, ws := s.ws[w := HandedOver(k, s.disp.fd)]))
  {
    var w, k := s.disp.w, s.ws[s.disp.w];
    var s1 := DoDispatcher(s, LockQueue);
    var s2 := DoDispatcher(s1, WriteWake);
    var s3 := DoDispatcher(s2, PushFd);
    assert Run(s3, []) == Some(s3);
    assert [ByTheDispatcher(WriteWake), ByTheDispatcher(PushFd)][1..] == [ByTheDispatcher(PushFd)];
    assert Run(s2, [ByTheDispatcher(PushFd)]) == Some(s3);
    assert Run(s1, [ByTheDispatcher(WriteWake), ByTheDispatcher(PushFd)]) == Some(s3);
    var all := [ByTheDispatcher(LockQueue), ByTheDispatcher(WriteWake), ByTheDispatcher(PushFd)];
    assert all[1..] == [ByTheDispatcher(WriteWake), ByTheDispatcher(PushFd)];
    assert s3.ws == s.ws[w := HandedOver(k, s.disp.fd)];
  }

  /** A whole `processEvent` on the front descriptor: tests the exiting flag, then opens the session. */
  function ProcessFront(k: Worker): (r: Worker)
    requires k.pc.Draining? && k.queue != []
    ensures r.pc.Processed? && r.queue == k.queue && r.exiting == k.exiting
  {
    var tested := Local(k, TestExiting);
    if tested.pc.Admitted? then Local(tested, OpenSession) else tested
  }

  /** The drain loop on the context of its worker. */
  function Drained(k: Worker): (r: Worker)
    requires k.pc.Draining?
    ensures r.pc.Draining? && r.queue == []
    decreases |k.queue|
  {
    if k.queue == [] then k else Drained(Local(ProcessFront(k), PopFront))
  }

  /** One callback on the wake-up pipe, run without interruption. */
  function Called(k: Worker): Worker
    requires k.pc.Loop? && k.lock.Free? && k.pipe != []
  {
    if k.pipe[0].Exit? then Local(Local(Local(k, ReadByte), HandOff.CleanState), RequestExit)
    else Local(Drained(Local(Local(k, ReadByte), TakeLock)), FinishDrain)
  }

  lemma DrainRound(k: Worker)
    requires k.pc.Draining? && k.queue != []
    ensures var r := Local(ProcessFront(k), PopFront);
            && r.pc.Draining? && r.exiting == k.exiting && r.queue == k.queue[1..]
            && r.popped + r.queue == k.popped + k.queue
            && (if k.exiting then r.adopted == k.adopted && r.sessions == k.sessions
                else r.adopted + r.queue == k.adopted + k.queue && r.sessions == k.sessions + {|k.adopted|})
  {
    var x, rest := k.queue[0], k.queue[1..];
    assert k.queue == [x] + rest;
    assert k.popped + [x] + rest == k.popped + k.queue && k.adopted + [x] + rest == k.adopted + k.queue;
  }

  /** Draining pops the whole queue in order; it opens one session for each descriptor, or none when
      the process is exiting. */
  lemma {:induction false} DrainPopsEverything(k: Worker)
    requires k.pc.Draining?
    ensures Drained(k).popped == k.popped + k.queue && Drained(k).exiting == k.exiting
    ensures k.exiting ==> Drained(k).adopted == k.adopted && Drained(k).sessions == k.sessions
    ensures !k.exiting ==> Drained(k).adopted == k.adopted + k.queue
    ensures !k.exiting ==> Drained(k).sessions == k.sessions + Next(|k.adopted|, |k.queue|)
    decreases |k.queue|
  {
    if k.queue == [] {
      assert k.popped + k.queue == k.popped && k.adopted + k.queue == k.adopted;
    } else {
      DrainRound(k);
      NextMore(|k.adopted|, |k.queue|);
      DrainPopsEverything(Local(ProcessFront(k), PopFront));
    }
  }

  /** A 'c' byte empties the queue, and opens a session for each descriptor unless the process is exiting;
      an 'e' byte empties the session table, asks the loop to end, and leaves the queue alone. */
  lemma CallbackEffect(k: Worker)
    requires k.pc.Loop? && k.lock.Free? && k.pipe != []
    ensures Called(k).pc.Loop? && Called(k).lock.Free?
    ensures k.pipe[0].Conn? ==> Called(k).queue == [] && Called(k).popped == k.popped + k.queue
    ensures k.pipe[0].Conn? ==> Called(k).adopted == if k.exiting then k.adopted else k.adopted + k.queue
    ensures k.pipe[0].Conn? ==>
              Called(k).sessions == k.sessions + if k.exiting then {} else Next(|k.adopted|, |k.queue|)
    ensures k.pipe[0].Exit? ==> Called(k) == k.(pipe := k.pipe[1..], sessions := {}, cleaned := true, leaving := true)
  {
    if k.pipe[0].Conn? {
      DrainPopsEverything(Local(Local(k, ReadByte), TakeLock));
    }
  }

  lemma {:induction false} DrainIsSteps(k: Worker) returns (acts: seq<WorkerAct>)
    requires k.pc.Draining?
    ensures Steps(k, acts) == Some(Drained(k)) && forall a | a in acts :: !TouchesStopMutex(a)
    decreases |k.queue|
  {
    acts := [];
    if k.queue != [] {
      var k1 := ProcessFront(k);
      var rest := DrainIsSteps(Local(k1, PopFront));
      acts := FrontStep(k1, PopFront, rest);
      if !k.exiting {
        acts := FrontStep(Local(k, TestExiting), OpenSession, acts);
      }
      acts := FrontStep(k, TestExiting, acts);
    }
  }

  lemma FrontStep(k: Worker, a: WorkerAct, rest: seq<WorkerAct>) returns (acts: seq<WorkerAct>)
    requires Guard(k, a)
    ensures acts == [a] + rest && Steps(k, acts) == Steps(Local(k, a), rest)
  {
    acts := [a] + rest;
    assert acts[1..] == rest;
  }

  /** The callback is a run of the hand-off in which only this worker moves. */
  lemma CallbackIsARun(s: State, w: nat) returns (acts: seq<WorkerAct>)
    requires w < |s.ws| && s.ws[w].pc.Loop? && s.ws[w].lock.Free? && s.ws[w].pipe != []
    ensures Run(s, ByWorkerNumber(w, acts)) == Some(s.(ws := s.ws[w := Called(s.ws[w])]))
  {
    var k := s.ws[w];
    var k1 := Local(k, ReadByte);
    if k.pipe[0].Exit? {
      var k2 := Local(k1, HandOff.CleanState);
      acts := FrontStep(k2, RequestExit, []);
      acts := FrontStep(k1, HandOff.CleanState, acts);
    } else {
      var k2 := Local(k1, TakeLock);
      var drained := DrainIsSteps(k2);
      StepsThenStep(k2, drained, FinishDrain);
      acts := FrontStep(k1, TakeLock, drained + [FinishDrain]);
    }
    acts := FrontStep(k, ReadByte, acts);
    StepsAreARun(s, w, acts);
  }

  /** A service worker. `sockets` holds the bytes written to one end of its socket pair and not yet read
      at the other; `flows` numbers its sessions. The ghost fields record its history. */
  class ServiceWorker {
    var sockets: seq<Wake>
    var queue: seq<Fd>
    var processExiting: bool
    var exited: bool
    var loopExit: bool
    var tcpSessions: set<nat>
    var flows: nat
    ghost var cleaned: bool
    ghost var closed: set<nat>
    ghost var popped: seq<Fd>
    ghost var adopted: seq<Fd>

    ghost predicate Valid()
      reads this
    {
      flows == |adopted|
    }

    /** The context as the transition system sees it when the thread is at `pc`. */
    ghost function Value(pc: WorkerPc): Worker
      reads this
    {
      Worker(sockets, queue, if InDrain(pc) then ByWorker else Free, pc, processExiting, exited, loopExit,
             cleaned, tcpSessions, closed, popped, adopted)
    }

    constructor ()
      ensures Valid() && Value(Loop) == NEW_WORKER
    {
      sockets, queue, processExiting, exited, loopExit := [], [], false, false, false;
      tcpSessions, flows, cleaned, closed, popped, adopted := {}, 0, false, {}, [], [];
    }

    /** Opens a session unless the process is exiting. */
    method ProcessEvent(fd: Fd)
      requires Valid() && queue != [] && fd == queue[0]
      modifies this`tcpSessions, this`flows, this`adopted
      ensures Valid() && Value(Processed) == ProcessFront(old(Value(Draining)))
    {
      if processExiting {
        return;
      }
      tcpSessions := tcpSessions + {flows};
      flows := flows + 1;
      adopted := adopted + [fd];
    }

    method DeleteTcpFlow(id: nat)
      requires Valid()
      modifies this`tcpSessions, this`closed
      ensures Valid()
      ensures Value(Loop) == if id in old(tcpSessions) then Local(old(Value(Loop)), CloseSession(id))
                             else old(Value(Loop))
    {
      if id in tcpSessions {
        closed := closed + {id};
      }
      tcpSessions := tcpSessions - {id};
    }

    method CleanState()
      requires Valid()
      modifies this`tcpSessions, this`cleaned
      ensures Valid() && Value(Cleaned) == Local(old(Value(Cleaning)), HandOff.CleanState)
    {
      tcpSessions, cleaned := {}, true;
    }

    method StopThread()
      requires Valid()
      modifies this`loopExit
      ensures Valid() && Value(Loop) == Local(old(Value(Cleaned)), RequestExit)
    {
      loopExit := true;
    }

    method PopFront()
      requires Valid() && queue != []
      modifies this`queue, this`popped
      ensures Valid() && Value(Draining) == Local(old(Value(Processed)), HandOff.PopFront)
    {
      queue, popped := queue[1..], popped + [queue[0]];
    }

    /** The drain loop, under the queue lock. */
    method Drain()
      requires Valid()
      modifies this`queue, this`tcpSessions, this`flows, this`adopted, this`popped
      ensures Valid() && Value(Draining) == Drained(old(Value(Draining)))
    {
      while |queue| > 0
        invariant Valid() && Drained(Value(Draining)) == Drained(old(Value(Draining)))
        decreases |queue|
      {
        ProcessEvent(queue[0]);
        PopFront();
      }
    }

    /** Takes the queue lock for the drain loop and releases it. */
    method DrainLocked()
      requires Valid()
      modifies this`queue, this`tcpSessions, this`flows, this`adopted, this`popped
      ensures Valid() && Value(Loop) == Local(Drained(Local(old(Value(WantLock)), TakeLock)), FinishDrain)
    {
      Drain();
    }

    /** Reads one byte. */
    method ReadByte() returns (buf: Wake)
      requires Valid() && sockets != []
      modifies this`sockets
      ensures Valid() && buf == old(sockets[0])
      ensures Value(if buf.Exit? then Cleaning else WantLock) == Local(old(Value(Loop)), HandOff.ReadByte)
    {
      buf := sockets[0];
      sockets := sockets[1..];
    }

    /** The callback on the wake-up pipe. */
    method OnEvent()
      requires Valid() && sockets != []
      modifies this`sockets, this`queue, this`loopExit, this`tcpSessions, this`flows
      modifies this`adopted, this`popped, this`cleaned
      ensures Valid() && Value(Loop) == Called(old(Value(Loop)))
    {
      var buf := ReadByte();
      if buf.Exit? {
        CleanState();
        StopThread();
      } else {
        DrainLocked();
      }
    }

    /** Called by the dispatcher. `written` is whether the wake-up write succeeds; when it does not, the
        descriptor is closed and nothing is queued. */
    method AddFdToEvLoop(fd: Fd, written: bool) returns (ok: bool)
      requires Valid()
      modifies this`sockets, this`queue
      ensures Valid() && ok == written
      ensures Value(Loop) == if ok then HandedOver(old(Value(Loop)), fd) else old(Value(Loop))
    {
      if !written {
        return false;
      }
      sockets := sockets + [Conn];
      queue := queue + [fd];
      return true;
    }

    /** Called by the stopper, up to its wait: the flag is stored whether or not the byte can be written. */
    method Stop(written: bool) returns (waits: bool)
      requires Valid()
      modifies this`processExiting, this`sockets
      ensures Valid() && waits == written
      ensures Value(Loop) == old(Value(Loop)).(exiting := true, pipe := old(sockets) + (if written then [Exit] else []))
    {
      processExiting := true;
      if !written {
        assert sockets == sockets + [];
        return false;
      }
      sockets := sockets + [Exit];
      return true;
    }

    method GetCurrentFdQueueSize() returns (size: nat)
      ensures size == |queue|
    {
      size := |queue|;
    }
  }
}
