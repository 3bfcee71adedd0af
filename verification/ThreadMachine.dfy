/** The thread machine of the kernel: kernel/processor.c, threadpool.c, condition.c, stdin.c and the system calls
    read, exec and exit of syscall.c. Kernel code runs with interrupts off, so what one trap does is one step;
    interrupts come in while a thread runs in user mode, or in the idle loop's window. */
module ThreadMachine {
  import opened RoundRobin

  datatype Status = Ready | Running | Sleeping

  /** A slot of the thread pool. `wait` is the thread that sleeps until this one exits, or -1.
      `inPop`: the thread was suspended inside popChar, in the kernel, and goes on there; otherwise in user mode. */
  datatype Slot = Slot(occupied: bool, status: Status, wait: TidOrNone, inPop: bool)

  type Slots = s: seq<Slot> | |s| == MAX_THREAD witness seq(MAX_THREAD, _ => Slot(false, Ready, -1, false))

  /** A thread runs; the idle loop is about to choose one; the idle loop waits for interrupts;
      the kernel panicked, while a thread ran or while none did. */
  datatype Mode = Busy | Idle | Window | Halted(ran: bool)

  /** `pushed` and `consumed` record all characters that ever entered and left the buffer. */
  datatype Machine = Machine(slots: Slots, sched: Sched, mode: Mode, current: Tid, waitQueue: seq<Tid>,
                             buf: string, pushed: string, consumed: string)

  /** No thread at all; control is in the idle loop. */
  function NoThreads(maxTime: nat): Machine {
    Machine(seq(MAX_THREAD, _ => Slot(false, Ready, -1, false)), Sched([], seq(MAX_THREAD, _ => 0), -1, maxTime),
            Idle, 0, [], [], [], [])
  }

  // ----- the steps ---------------------------------------------------------------

  /** The first free slot from i on; MAX_THREAD if there is none. */
  function FirstFree(slots: Slots, i: nat): (t: nat)
    requires i <= MAX_THREAD
    ensures i <= t <= MAX_THREAD && (t < MAX_THREAD ==> !slots[t].occupied)
    ensures forall j :: i <= j < t ==> slots[j].occupied
    decreases MAX_THREAD - i
  {
    if i == MAX_THREAD || !slots[i].occupied then i else FirstFree(slots, i + 1)
  }

  /** addToPool, in slot t. */
  function Added(m: Machine, t: Tid, wait: TidOrNone): Machine {
    m.(slots := m.slots[t := Slot(true, Ready, wait, false)], sched := Pushed(m.sched, t))
  }

  /** wakeupCPU. */
  function Woken(m: Machine, t: Tid): Machine {
    m.(slots := m.slots[t := m.slots[t].(status := Ready)], sched := Pushed(m.sched, t))
  }

  /** The switch back to the idle thread, which takes care of the thread that ran until now (retrieveToPool):
      a thread that has exited is gone, one that went to sleep stays asleep, any other is ready again. */
  function Retrieved(m: Machine): Machine {
    if m.slots[m.current].occupied && m.slots[m.current].status == Running
    then Woken(m, m.current).(mode := Idle)
    else m.(mode := Idle)
  }

  /** yieldCPU. */
  function Yielded(m: Machine): Machine {
    Retrieved(m.(slots := m.slots[m.current := m.slots[m.current].(status := Sleeping)]))
  }

  /** One pass of popChar's loop, for the current thread. */
  function PopCharPass(m: Machine): Machine {
    if m.buf != [] then
      m.(buf := m.buf[1..], consumed := m.consumed + [m.buf[0]],
         slots := m.slots[m.current := m.slots[m.current].(inPop := false)])
    else
      Yielded(m.(waitQueue := m.waitQueue + [m.current],
                 slots := m.slots[m.current := m.slots[m.current].(inPop := true)]))
  }

  function Received(ch: char): char { if ch == '\r' then '\n' else ch }

  /** pushChar: the character enters the buffer and the first waiting thread is woken. */
  function Keyed(m: Machine, ch: char): Machine {
    var n := m.(buf := m.buf + [Received(ch)], pushed := m.pushed + [Received(ch)]);
    if m.waitQueue == [] then n else Woken(n.(waitQueue := m.waitQueue[1..]), m.waitQueue[0])
  }

  /** tickCPU. */
  function TickedMachine(m: Machine): Machine {
    if m.mode != Busy then m
    else if Expired(m.sched) then Retrieved(m.(sched := Ticked(m.sched)))
    else m.(sched := Ticked(m.sched))
  }

  /** sysExec of a program, which gets a free slot; the caller sleeps until it exits. */
  function Executed(m: Machine): Machine {
    var t := FirstFree(m.slots, 0);
    if t == MAX_THREAD then m.(mode := Halted(true)) else Yielded(Added(m, t, m.current))
  }

  /** exitFromCPU. */
  function ExitedMachine(m: Machine): Machine {
    var s := m.slots[m.current];
    var n := m.(slots := m.slots[m.current := s.(occupied := false)], sched := Exited(m.sched, m.current));
    Retrieved(if s.wait == -1 then n else Woken(n, s.wait))
  }

  /** The idle loop takes the next thread; one that was suspended in popChar goes on there. */
  function Dispatched(m: Machine): Machine {
    if m.sched.run == [] then m.(mode := Window)
    else
      var t := m.sched.run[0];
      var n := m.(sched := Popped(m.sched), mode := Busy, current := t, slots := m.slots[t := m.slots[t].(status := Running)]);
      if m.slots[t].inPop then PopCharPass(n) else n
  }

  datatype Path = Missing | Directory | Program

  /** What traps and the idle loop do. OutOfMemory: the kernel heap or the frame allocator has nothing left in the middle
      of a step, and the step ends in a panic. */
  datatype Event = Key(ch: char) | Tick | Read | Exec(path: Path) | Exit | Dispatch | Resume | OutOfMemory

  predicate Enabled(m: Machine, e: Event) {
    match e
    case Key(_) => m.mode == Busy || m.mode == Window
    case Tick => m.mode == Busy || m.mode == Window
    case Read => m.mode == Busy
    case Exec(_) => m.mode == Busy
    case Exit => m.mode == Busy
    case Dispatch => m.mode == Idle
    case Resume => m.mode == Window
    case OutOfMemory => !m.mode.Halted?
  }

  function Next(m: Machine, e: Event): Machine {
    match e
    case Key(ch) => Keyed(m, ch)
    case Tick => TickedMachine(m)
    case Read => PopCharPass(m)
    case Exec(path) => if path == Program then Executed(m) else m
    case Exit => ExitedMachine(m)
    case Dispatch => Dispatched(m)
    case Resume => m.(mode := Idle)
    case OutOfMemory => m.(mode := Halted(m.mode == Busy))
  }

  // ----- where a thread is -------------------------------------------------------

  predicate OnCpu(m: Machine, t: Tid) { (m.mode == Busy || m.mode == Halted(true)) && t == m.current }
  predicate OnRunList(m: Machine, t: Tid) { t in m.sched.run }
  predicate OnWaitQueue(m: Machine, t: Tid) { t in m.waitQueue }

  predicate ChildOf(slots: Slots, c: Tid, t: Tid) { slots[c].occupied && slots[c].wait == t }

  ghost predicate HasChild(slots: Slots, t: Tid) {
    exists c: Tid :: ChildOf(slots, c, t)
  }

  /** A thread is in exactly one place, which is the one its status says; a free slot is nowhere. */
  ghost predicate Placed(m: Machine, t: Tid) {
    if !m.slots[t].occupied then !OnCpu(m, t) && !OnRunList(m, t) && !OnWaitQueue(m, t) && !HasChild(m.slots, t)
    else match m.slots[t].status
      case Running => OnCpu(m, t) && !OnRunList(m, t) && !OnWaitQueue(m, t) && !HasChild(m.slots, t) && !m.slots[t].inPop
      case Ready => !OnCpu(m, t) && OnRunList(m, t) && !OnWaitQueue(m, t) && !HasChild(m.slots, t)
      case Sleeping =>
        && !OnCpu(m, t) && !OnRunList(m, t)
        && (OnWaitQueue(m, t) <==> m.slots[t].inPop) && (HasChild(m.slots, t) <==> !m.slots[t].inPop)
  }

  /** Nobody sleeps for two threads. */
  ghost predicate OneWaker(slots: Slots, c: Tid, d: Tid) {
    c != d && slots[c].occupied && slots[d].occupied && slots[c].wait != -1 ==> slots[c].wait != slots[d].wait
  }

  ghost predicate Partition(m: Machine) {
    && NoRepeats(m.sched.run) && NoRepeats(m.waitQueue)
    && (forall t: Tid {:trigger Placed(m, t)} :: Placed(m, t))
    && (forall c: Tid, d: Tid {:trigger OneWaker(m.slots, c, d)} :: OneWaker(m.slots, c, d))
  }

  // ----- every step keeps the partition ------------------------------------------

  /** Same threads, same parents. */
  ghost predicate SameFamily(p: Slots, q: Slots, t: Tid) {
    p[t].occupied == q[t].occupied && p[t].wait == q[t].wait
  }

  lemma FamilyKept(p: Slots, q: Slots)
    requires forall t: Tid {:trigger SameFamily(p, q, t)} :: SameFamily(p, q, t)
    requires forall c: Tid, d: Tid {:trigger OneWaker(p, c, d)} :: OneWaker(p, c, d)
    ensures forall c: Tid, d: Tid {:trigger OneWaker(q, c, d)} :: OneWaker(q, c, d)
    ensures forall t: Tid {:trigger HasChild(q, t)} :: HasChild(q, t) <==> HasChild(p, t)
  {
    forall c: Tid, d: Tid
      ensures OneWaker(q, c, d)
    {
      assert OneWaker(p, c, d) && SameFamily(p, q, c) && SameFamily(p, q, d);
    }
    forall t: Tid
      ensures HasChild(q, t) <==> HasChild(p, t)
    {
      if c: Tid :| ChildOf(p, c, t) { assert SameFamily(p, q, c) && ChildOf(q, c, t); }
      if c: Tid :| ChildOf(q, c, t) { assert SameFamily(p, q, c) && ChildOf(p, c, t); }
    }
  }

  lemma PushNoRepeats(run: seq<Tid>, t: Tid)
    requires NoRepeats(run) && t !in run
    ensures NoRepeats(run + [t])
  {
    forall i: nat, j: nat
      ensures Distinct(run + [t], i, j)
    {
      assert Distinct(run, i, j);
    }
  }

  lemma PopNoRepeats(run: seq<Tid>)
    requires NoRepeats(run) && run != []
    ensures NoRepeats(run[1..]) && run[0] !in run[1..]
    ensures forall t :: t in run <==> t == run[0] || t in run[1..]
  {
    assert run == [run[0]] + run[1..];
    forall i: nat, j: nat
      ensures Distinct(run[1..], i, j)
    {
      assert Distinct(run, i + 1, j + 1);
    }
    forall j: nat | j < |run[1..]|
      ensures run[1..][j] != run[0]
    {
      assert Distinct(run, 0, j + 1);
    }
  }

  lemma KeyKeepsPartition(m: Machine, ch: char)
    requires Partition(m)
    ensures Partition(Keyed(m, ch))
  {
    var n := Keyed(m, ch);
    if m.waitQueue != [] {
      var w := m.waitQueue[0];
      assert Placed(m, w) && OnWaitQueue(m, w);
      PushNoRepeats(m.sched.run, w);
      PopNoRepeats(m.waitQueue);
    }
    forall t: Tid
      ensures SameFamily(m.slots, n.slots, t)
    {
    }
    FamilyKept(m.slots, n.slots);
    forall t: Tid
      ensures Placed(n, t)
    {
      assert Placed(m, t);
    }
  }

  lemma TickKeepsPartition(m: Machine)
    requires Partition(m)
    ensures Partition(TickedMachine(m))
  {
    var n := TickedMachine(m);
    assert Placed(m, m.current);
    if m.mode == Busy && Expired(m.sched) {
      PushNoRepeats(m.sched.run, m.current);
    }
    forall t: Tid
      ensures SameFamily(m.slots, n.slots, t)
    {
    }
    FamilyKept(m.slots, n.slots);
    forall t: Tid
      ensures Placed(n, t)
    {
      assert Placed(m, t);
    }
  }

  /** The current thread reads: for the system call, and for a thread that goes on in popChar after the dispatch. */
  lemma ReadKeepsPartition(m: Machine)
    requires Partition(m) && m.mode == Busy
    ensures Partition(PopCharPass(m))
  {
    var n := PopCharPass(m);
    assert Placed(m, m.current);
    PushNoRepeats(m.waitQueue, m.current);
    forall t: Tid
      ensures SameFamily(m.slots, n.slots, t)
    {
    }
    FamilyKept(m.slots, n.slots);
    forall t: Tid
      ensures Placed(n, t)
    {
      assert Placed(m, t);
    }
  }

  /** A new thread that nobody waits for, as at boot. */
  lemma AddKeepsPartition(m: Machine, t: Tid)
    requires Partition(m) && !m.slots[t].occupied
    ensures Partition(Added(m, t, -1))
  {
    var n := Added(m, t, -1);
    assert Placed(m, t);
    PushNoRepeats(m.sched.run, t);
    NewFamilyMember(m.slots, n.slots, t);
    forall u: Tid
      ensures Placed(n, u)
    {
      assert Placed(m, u);
    }
  }

  /** Slot t, free in p, holds a thread in q: its parent has one child more, or it has no parent. */
  lemma NewFamilyMember(p: Slots, q: Slots, t: Tid)
    requires forall c: Tid, d: Tid {:trigger OneWaker(p, c, d)} :: OneWaker(p, c, d)
    requires !p[t].occupied && q[t].occupied && (q[t].wait != -1 ==> !HasChild(p, q[t].wait))
    requires forall u: Tid {:trigger SameFamily(p, q, u)} :: u != t ==> SameFamily(p, q, u)
    ensures forall c: Tid, d: Tid {:trigger OneWaker(q, c, d)} :: OneWaker(q, c, d)
    ensures forall u: Tid {:trigger HasChild(q, u)} :: HasChild(q, u) <==> HasChild(p, u) || u == q[t].wait
  {
    forall c: Tid, d: Tid
      ensures OneWaker(q, c, d)
    {
      assert OneWaker(p, c, d) && (c != t ==> SameFamily(p, q, c)) && (d != t ==> SameFamily(p, q, d));
      if q[t].wait != -1 {
        assert !ChildOf(p, c, q[t].wait) && !ChildOf(p, d, q[t].wait);
      }
    }
    forall u: Tid
      ensures HasChild(q, u) <==> HasChild(p, u) || u == q[t].wait
    {
      if c: Tid :| ChildOf(p, c, u) { assert SameFamily(p, q, c) && ChildOf(q, c, u); }
      if c: Tid :| ChildOf(q, c, u) { assert c != t ==> SameFamily(p, q, c) && ChildOf(p, c, u); }
      if u == q[t].wait { assert ChildOf(q, t, u); }
    }
  }

  /** Slot t, taken in p, is free in q: its parent has no child any more. */
  lemma LostFamilyMember(p: Slots, q: Slots, t: Tid)
    requires forall c: Tid, d: Tid {:trigger OneWaker(p, c, d)} :: OneWaker(p, c, d)
    requires p[t].occupied && !q[t].occupied
    requires forall u: Tid {:trigger SameFamily(p, q, u)} :: u != t ==> SameFamily(p, q, u)
    ensures forall c: Tid, d: Tid {:trigger OneWaker(q, c, d)} :: OneWaker(q, c, d)
    ensures forall u: Tid {:trigger HasChild(q, u)} :: HasChild(q, u) <==> HasChild(p, u) && u != p[t].wait
  {
    forall c: Tid, d: Tid
      ensures OneWaker(q, c, d)
    {
      assert OneWaker(p, c, d) && (c != t ==> SameFamily(p, q, c)) && (d != t ==> SameFamily(p, q, d));
    }
    forall u: Tid
      ensures HasChild(q, u) <==> HasChild(p, u) && u != p[t].wait
    {
      if c: Tid :| ChildOf(p, c, u) { assert c != t ==> SameFamily(p, q, c) && ChildOf(q, c, u); }
      if c: Tid :| ChildOf(q, c, u) { assert SameFamily(p, q, c) && ChildOf(p, c, u) && OneWaker(p, c, t); }
    }
  }

  predicate NewProgram(m: Machine, n: Machine, t: Tid) {
    && n.slots == m.slots[t := Slot(true, Ready, m.current, false)][m.current := m.slots[m.current].(status := Sleeping)]
    && n.sched.run == m.sched.run + [t] && n.mode == Idle
  }

  /** What exec of a program leads to: the kernel panics when every slot is taken; otherwise a slot that was free holds a
      thread which is ready and listed last, and its parent sleeps. */
  lemma ExecOutcome(m: Machine)
    requires m.mode == Busy && m.slots[m.current].occupied
    ensures (forall t: Tid :: m.slots[t].occupied) ==> Executed(m) == m.(mode := Halted(true))
    ensures !(forall t: Tid :: m.slots[t].occupied) ==>
              exists t: Tid :: !m.slots[t].occupied && NewProgram(m, Executed(m), t)
  {
    var t := FirstFree(m.slots, 0);
    if t < MAX_THREAD { assert NewProgram(m, Executed(m), t); }
  }

  lemma ExecKeepsPartition(m: Machine)
    requires Partition(m) && m.mode == Busy
    ensures Partition(Executed(m))
  {
    var n := Executed(m);
    var t := FirstFree(m.slots, 0);
    assert Placed(m, m.current);
    if t < MAX_THREAD {
      assert Placed(m, t);
      PushNoRepeats(m.sched.run, t);
      forall u: Tid | u != t
        ensures SameFamily(m.slots, n.slots, u)
      {
      }
      NewFamilyMember(m.slots, n.slots, t);
    }
    forall u: Tid
      ensures Placed(n, u)
    {
      assert Placed(m, u);
    }
  }

  lemma ExitKeepsPartition(m: Machine)
    requires Partition(m) && m.mode == Busy
    ensures Partition(ExitedMachine(m))
  {
    var n := ExitedMachine(m);
    var t := m.current;
    var w := m.slots[t].wait;
    assert Placed(m, t);
    if w != -1 {
      assert ChildOf(m.slots, t, w) && Placed(m, w);
      PushNoRepeats(m.sched.run, w);
    }
    forall u: Tid | u != t
      ensures SameFamily(m.slots, n.slots, u)
    {
    }
    LostFamilyMember(m.slots, n.slots, t);
    forall u: Tid
      ensures Placed(n, u)
    {
      assert Placed(m, u);
    }
  }

  lemma DispatchKeepsPartition(m: Machine)
    requires Partition(m) && m.mode == Idle
    ensures Partition(Dispatched(m))
  {
    var n := Dispatched(m);
    if m.sched.run != [] {
      var t := m.sched.run[0];
      assert Placed(m, t) && OnRunList(m, t);
      PopNoRepeats(m.sched.run);
      PushNoRepeats(m.waitQueue, t);
    }
    forall u: Tid
      ensures SameFamily(m.slots, n.slots, u)
    {
    }
    FamilyKept(m.slots, n.slots);
    forall u: Tid
      ensures Placed(n, u)
    {
      assert Placed(m, u);
    }
  }

  lemma StepKeepsPartition(m: Machine, e: Event)
    requires Partition(m) && Enabled(m, e)
    ensures Partition(Next(m, e))
  {
    match e
    case Key(ch) => KeyKeepsPartition(m, ch);
    case Tick => TickKeepsPartition(m);
    case Read => ReadKeepsPartition(m);
    case Exec(_) => ExecKeepsPartition(m);
    case Exit => ExitKeepsPartition(m);
    case Dispatch => DispatchKeepsPartition(m);
    case Resume => ModeKeepsPartition(m, Idle);
    case OutOfMemory => ModeKeepsPartition(m, Halted(m.mode == Busy));
  }

  lemma ModeKeepsPartition(m: Machine, next: Mode)
    requires Partition(m) && (m.mode == Busy || m.mode == Halted(true) <==> next == Busy || next == Halted(true))
    ensures Partition(m.(mode := next))
  {
    forall t: Tid
      ensures Placed(m.(mode := next), t)
    {
      assert Placed(m, t);
    }
  }

  /** So a thread that is woken is asleep and not on the run list: the scheduler never lists a thread twice. */
  lemma WokenThreadsAreNotListed(m: Machine)
    requires Partition(m)
    ensures m.waitQueue != [] ==> m.waitQueue[0] !in m.sched.run && m.slots[m.waitQueue[0]].status == Sleeping
    ensures m.mode == Busy && m.slots[m.current].wait != -1 ==>
              m.slots[m.current].wait !in m.sched.run && m.slots[m.slots[m.current].wait].status == Sleeping
    ensures m.mode == Busy ==> m.current !in m.sched.run
    ensures m.mode == Busy && FirstFree(m.slots, 0) < MAX_THREAD ==> FirstFree(m.slots, 0) !in m.sched.run
  {
    if m.waitQueue != [] { assert Placed(m, m.waitQueue[0]) && OnWaitQueue(m, m.waitQueue[0]); }
    if m.mode == Busy {
      var w, t := m.slots[m.current].wait, FirstFree(m.slots, 0);
      assert Placed(m, m.current);
      if w != -1 { assert ChildOf(m.slots, m.current, w) && Placed(m, w); }
      if t < MAX_THREAD { assert Placed(m, t); }
    }
  }

  /** Every sleeper has exactly one waker: it waits for input, or for one thread and no other. */
  lemma SleeperHasOneWaker(m: Machine, t: Tid, c: Tid, d: Tid)
    requires Partition(m) && m.slots[t].occupied && m.slots[t].status == Sleeping
    ensures OnWaitQueue(m, t) <==> !HasChild(m.slots, t)
    ensures ChildOf(m.slots, c, t) && ChildOf(m.slots, d, t) ==> c == d
  {
    assert Placed(m, t) && OneWaker(m.slots, c, d);
  }
}
