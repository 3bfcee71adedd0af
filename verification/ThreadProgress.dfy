/** What the thread machine can always still do: a time slice ends, the keyboard is heard, and the thread that has waited
    longest for input can be given a character. */
module ThreadProgress {
  import opened RoundRobin
  import opened ThreadMachine
  import opened ThreadRuns

  // ----- runs put together -------------------------------------------------------------

  lemma {:induction false} RunsAppend(m: Machine, es: seq<Event>, fs: seq<Event>)
    ensures After(m, es + fs) == After(After(m, es), fs)
    ensures Possible(m, es + fs) <==> Possible(m, es) && Possible(After(m, es), fs)
    ensures Dispatches(es + fs) == Dispatches(es) + Dispatches(fs)
    decreases |fs|
  {
    if fs == [] {
      assert es + fs == es;
    } else {
      var before := fs[..|fs| - 1];
      assert (es + fs)[..|es + fs| - 1] == es + before;
      RunsAppend(m, es, before);
    }
  }

  /** A state that a run has led to, as far as the steps from it on are concerned. */
  ghost predicate Healthy(m: Machine) { Partition(m) && Sliced(m) }

  lemma {:induction false} StaysHealthy(m: Machine, es: seq<Event>)
    requires Healthy(m) && Possible(m, es)
    ensures Healthy(After(m, es))
    decreases |es|
  {
    if es != [] {
      StaysHealthy(m, es[..|es| - 1]);
      StepKeepsPartition(After(m, es[..|es| - 1]), es[|es| - 1]);
      StepKeepsSlices(After(m, es[..|es| - 1]), es[|es| - 1]);
    }
  }

  /** The run es leads from m to n. */
  ghost predicate Leads(m: Machine, es: seq<Event>, n: Machine) {
    Possible(m, es) && After(m, es) == n
  }

  lemma LeadsOn(m: Machine, es: seq<Event>, n: Machine, fs: seq<Event>, o: Machine)
    requires Leads(m, es, n) && Leads(n, fs, o)
    ensures Leads(m, es + fs, o) && Dispatches(es + fs) == Dispatches(es) + Dispatches(fs)
  {
    RunsAppend(m, es, fs);
  }

  lemma OneStep(m: Machine, e: Event)
    requires Enabled(m, e)
    ensures Leads(m, [e], Next(m, e)) && Dispatches([e]) == if e == Dispatch then 1 else 0
  {
    assert [e][..0] == [];
  }

  // ----- a time slice ends ---------------------------------------------------------------

  function Ticks(k: nat): seq<Event> {
    if k == 0 then [] else Ticks(k - 1) + [Tick]
  }

  lemma {:induction false} NoDispatchInTicks(k: nat)
    ensures Dispatches(Ticks(k)) == 0
  {
    if k > 0 {
      NoDispatchInTicks(k - 1);
      assert Ticks(k)[..|Ticks(k)| - 1] == Ticks(k - 1);
    }
  }

  /** The machine once j ticks have gone by: the running thread has j fewer left. */
  function Ticking(m: Machine, j: nat): Machine
    requires j <= m.sched.time[m.current]
  {
    m.(sched := m.sched.(time := m.sched.time[m.current := m.sched.time[m.current] - j]))
  }

  /** The machine once the running thread's slice is used up: the thread is ready, at the end of the run list,
      and has a full slice for its next turn. */
  function Preempted(m: Machine): Machine {
    var t := m.current;
    m.(mode := Idle, slots := m.slots[t := m.slots[t].(status := Ready)],
       sched := m.sched.(run := m.sched.run + [t], time := m.sched.time[t := m.sched.maxTime]))
  }

  lemma OneTick(m: Machine, j: nat)
    requires Partition(m) && Sliced(m) && m.mode == Busy && j < m.sched.time[m.current]
    ensures TickedMachine(Ticking(m, j)) == if j + 1 < m.sched.time[m.current] then Ticking(m, j + 1) else Preempted(m)
  {
    assert Placed(m, m.current);
  }

  /** While ticks are left the thread goes on running ... */
  lemma {:induction false} RunsOn(m: Machine, j: nat)
    requires Healthy(m) && m.mode == Busy && j < m.sched.time[m.current]
    ensures Leads(m, Ticks(j), Ticking(m, j))
  {
    if j > 0 {
      RunsOn(m, j - 1);
      OneTick(m, j - 1);
      OneMoreEvent(m, Ticks(j - 1), Ticking(m, j - 1), Tick);
    } else {
      assert Ticking(m, 0) == m;
    }
  }

  /** ... and the tick that uses up its slice takes the processor from it. */
  lemma SliceEnds(m: Machine)
    requires Healthy(m) && m.mode == Busy
    ensures Leads(m, Ticks(m.sched.time[m.current]), Preempted(m))
  {
    var k: nat := m.sched.time[m.current] - 1;
    RunsOn(m, k);
    OneTick(m, k);
    OneMoreEvent(m, Ticks(k), Ticking(m, k), Tick);
  }

  // ----- the keyboard is heard -------------------------------------------------------------

  /** With nothing to run, the kernel listens to the keyboard after at most one pass of the idle loop,
      and when it has listened the idle loop goes on. */
  lemma KeyboardIsHeard(m: Machine, ch: char)
    requires !m.mode.Halted? && m.mode != Busy && m.sched.run == []
    ensures var w := if m.mode == Idle then After(m, [Dispatch]) else m;
            && (m.mode == Idle ==> Possible(m, [Dispatch]))
            && Enabled(w, Key(ch)) && Enabled(w, Tick) && Enabled(w, Resume)
            && Enabled(Next(w, Resume), Dispatch) && Enabled(Next(Next(w, Key(ch)), Resume), Dispatch)
  {
    if m.mode == Idle { OneStep(m, Dispatch); }
  }

  /** In any state where nothing is halted, interrupts are let in again after some passes of the idle loop;
      the threads that wait for input stay in the queue, in front of any that join it. */
  lemma {:induction false} InterruptsAreLetIn(m: Machine) returns (es: seq<Event>)
    requires Healthy(m) && !m.mode.Halted? && m.waitQueue != []
    ensures Possible(m, es)
    ensures var n := After(m, es); (n.mode == Busy || n.mode == Window) && n.waitQueue != [] && n.waitQueue[0] == m.waitQueue[0]
    decreases if m.mode == Idle then 1 + |m.sched.run| else 0
  {
    es := [];
    if m.mode == Idle {
      var n := Next(m, Dispatch);
      OneStep(m, Dispatch);
      StaysHealthy(m, [Dispatch]);
      var rest := InterruptsAreLetIn(n);
      RunsAppend(m, [Dispatch], rest);
      es := [Dispatch] + rest;
    }
  }

  // ----- readers are woken in the order in which they came -----------------------------------

  function KeysIn(es: seq<Event>): nat {
    if es == [] then 0 else KeysIn(es[..|es| - 1]) + if es[|es| - 1].Key? then 1 else 0
  }

  lemma WaitQueueAfterStep(m: Machine, e: Event, k: nat)
    requires k < |m.waitQueue|
    ensures var q := Next(m, e).waitQueue;
            if e.Key? then |q| == |m.waitQueue| - 1 && (k > 0 ==> q[k - 1] == m.waitQueue[k])
            else k < |q| && q[k] == m.waitQueue[k]
  {
  }

  /** A waiting thread moves up by one with every key, whatever else happens ... */
  lemma {:induction false} WaiterMovesUp(m: Machine, es: seq<Event>, k: nat)
    requires k < |m.waitQueue| && KeysIn(es) <= k
    ensures var n := After(m, es); k - KeysIn(es) < |n.waitQueue| && n.waitQueue[k - KeysIn(es)] == m.waitQueue[k]
    decreases |es|
  {
    if es != [] {
      var before, e := es[..|es| - 1], es[|es| - 1];
      var n := After(m, before);
      WaiterMovesUp(m, before, k);
      WaitQueueAfterStep(n, e, k - KeysIn(before));
      assert After(m, es) == Next(n, e);
    }
  }

  /** ... so a thread behind k others is woken by exactly the (k + 1)-th key. */
  lemma WokenInOrder(m: Machine, es: seq<Event>, k: nat, ch: char)
    requires k < |m.waitQueue| && KeysIn(es) == k
    ensures var n := Next(After(m, es), Key(ch)); n.sched.run == After(m, es).sched.run + [m.waitQueue[k]]
  {
    WaiterMovesUp(m, es, k);
  }

  // ----- the first waiting thread gets a character -----------------------------------------

  /** Thread t is at place k of the list, inside popChar. */
  ghost predicate ReaderAt(m: Machine, t: Tid, k: nat) {
    ListedAt(m, t, k) && m.slots[t].inPop
  }

  /** A listed reader stays one until its dispatch, and moves up with the dispatches of others. */
  lemma ReaderAfterStep(m: Machine, e: Event, t: Tid, k: nat)
    requires Partition(m) && Enabled(m, e) && ReaderAt(m, t, k) && (e == Dispatch ==> k > 0)
    ensures ReaderAt(Next(m, e), t, if e == Dispatch then k - 1 else k)
  {
    assert Placed(m, t) && OnRunList(m, t) && Placed(m, m.current) && Distinct(m.sched.run, 0, k);
    RunListAfterStep(m, e, t, k);
  }

  lemma {:induction false} ReaderMovesUp(m: Machine, es: seq<Event>, t: Tid, k: nat)
    requires Healthy(m) && Possible(m, es) && ReaderAt(m, t, k) && Dispatches(es) <= k
    ensures ReaderAt(After(m, es), t, k - Dispatches(es))
    decreases |es|
  {
    if es != [] {
      var before := es[..|es| - 1];
      ReaderMovesUp(m, before, t, k);
      StaysHealthy(m, before);
      ReaderAfterStep(After(m, before), es[|es| - 1], t, k - Dispatches(before));
    }
  }

  /** After k keys: interrupts are still let in, the buffer has k characters more, and the thread that was first in the
      wait queue of m is behind all that were listed then. */
  ghost predicate Pressed(m: Machine, n: Machine, k: nat) {
    m.waitQueue != [] && n.mode == m.mode && |n.buf| == |m.buf| + k && ReaderAt(n, m.waitQueue[0], |m.sched.run|)
  }

  lemma FirstKey(m: Machine)
    requires Partition(m) && m.waitQueue != []
    ensures Pressed(m, Next(m, Key('a')), 1)
  {
    assert Placed(m, m.waitQueue[0]) && OnWaitQueue(m, m.waitQueue[0]);
  }

  lemma OneMoreKey(m: Machine, n: Machine, k: nat)
    requires Pressed(m, n, k) && Partition(n) && Enabled(n, Key('a'))
    ensures Pressed(m, Next(n, Key('a')), k + 1)
  {
    ReaderAfterStep(n, Key('a'), m.waitQueue[0], |m.sched.run|);
  }

  lemma {:induction false} KeysArePressed(m: Machine, k: nat) returns (es: seq<Event>)
    requires Healthy(m) && (m.mode == Busy || m.mode == Window) && m.waitQueue != []
    ensures Possible(m, es) && Pressed(m, After(m, es), k + 1)
    decreases k
  {
    if k == 0 {
      es := [];
      FirstKey(m);
    } else {
      es := KeysArePressed(m, k - 1);
      StaysHealthy(m, es);
      OneMoreKey(m, After(m, es), k);
    }
    OneMoreEvent(m, es, After(m, es), Key('a'));
    es := es + [Key('a')];
  }

  /** Whatever runs makes way for the idle loop, without touching the buffer. */
  lemma MakesWay(m: Machine) returns (es: seq<Event>)
    requires Healthy(m) && !m.mode.Halted?
    ensures Possible(m, es) && Dispatches(es) == 0
    ensures After(m, es).mode == Idle && After(m, es).buf == m.buf
  {
    match m.mode
    case Busy =>
      SliceEnds(m);
      NoDispatchInTicks(m.sched.time[m.current]);
      es := Ticks(m.sched.time[m.current]);
    case Window =>
      OneStep(m, Resume);
      es := [Resume];
    case _ => es := [];
  }

  /** One thread has its turn: the listed ones move up, and at most one character is gone. */
  lemma OneTurn(m: Machine) returns (es: seq<Event>)
    requires Healthy(m) && m.mode == Idle && m.sched.run != []
    ensures Possible(m, es) && Dispatches(es) == 1
    ensures After(m, es).mode == Idle && |After(m, es).buf| + 1 >= |m.buf|
  {
    var n := Next(m, Dispatch);
    OneStep(m, Dispatch);
    StaysHealthy(m, [Dispatch]);
    var rest := MakesWay(n);
    RunsAppend(m, [Dispatch], rest);
    es := [Dispatch] + rest;
  }

  lemma TurnOfAnother(m: Machine, t: Tid, k: nat) returns (es: seq<Event>)
    requires Healthy(m) && m.mode == Idle && ReaderAt(m, t, k) && k > 0
    ensures Possible(m, es)
    ensures var n := After(m, es); n.mode == Idle && ReaderAt(n, t, k - 1) && |n.buf| + 1 >= |m.buf|
  {
    es := OneTurn(m);
    ReaderMovesUp(m, es, t, k);
  }

  /** A reader with k others ahead comes to the front, and finds characters if there were more than k. */
  lemma {:induction false} ComesToTheFront(m: Machine, t: Tid, k: nat) returns (es: seq<Event>)
    requires Healthy(m) && m.mode == Idle && ReaderAt(m, t, k) && k < |m.buf|
    ensures Possible(m, es)
    ensures var n := After(m, es); n.mode == Idle && ReaderAt(n, t, 0) && n.buf != []
    decreases k
  {
    es := [];
    if k > 0 {
      var turn := TurnOfAnother(m, t, k);
      StaysHealthy(m, turn);
      var rest := ComesToTheFront(After(m, turn), t, k - 1);
      RunsAppend(m, turn, rest);
      es := turn + rest;
    }
  }

  lemma PausedAt(m: Machine, t: Tid, k: nat) returns (es: seq<Event>)
    requires Healthy(m) && !m.mode.Halted? && ReaderAt(m, t, k)
    ensures Possible(m, es) && ReaderAt(After(m, es), t, k)
    ensures After(m, es).mode == Idle && After(m, es).buf == m.buf
  {
    es := MakesWay(m);
    var d := Dispatches(es);
    ReaderMovesUp(m, es, t, k);
    assert ReaderAt(After(m, es), t, k - d) && d == 0;
  }

  /** From a state that lets interrupts in: enough keys put the first waiting thread on the run list, and more characters
      into the buffer than there are threads ahead of it. */
  lemma EnoughKeys(m: Machine) returns (es: seq<Event>)
    requires Healthy(m) && (m.mode == Busy || m.mode == Window) && m.waitQueue != []
    ensures Possible(m, es)
    ensures var n := After(m, es); n.mode == Idle && ReaderAt(n, m.waitQueue[0], |m.sched.run|) && |m.sched.run| < |n.buf|
  {
    var k := |m.sched.run|;
    var keys := KeysArePressed(m, k);
    StaysHealthy(m, keys);
    var rest := PausedAt(After(m, keys), m.waitQueue[0], k);
    RunsAppend(m, keys, rest);
    es := keys + rest;
  }

  lemma BroughtToTheFront(m: Machine) returns (es: seq<Event>)
    requires Healthy(m) && (m.mode == Busy || m.mode == Window) && m.waitQueue != []
    ensures Possible(m, es)
    ensures var n := After(m, es); n.mode == Idle && ReaderAt(n, m.waitQueue[0], 0) && n.buf != []
  {
    var pressed := EnoughKeys(m);
    StaysHealthy(m, pressed);
    var rest := ComesToTheFront(After(m, pressed), m.waitQueue[0], |m.sched.run|);
    RunsAppend(m, pressed, rest);
    es := pressed + rest;
  }

  /** Its dispatch then gives it the first character. */
  lemma FrontReaderIsServed(m: Machine, t: Tid)
    requires m.mode == Idle && ReaderAt(m, t, 0) && m.buf != []
    ensures var n := Next(m, Dispatch);
            n.mode == Busy && n.current == t && n.consumed == m.consumed + [m.buf[0]] && !n.slots[t].inPop
  {
  }

  /** From every state of every run, unless the kernel has panicked, the thread that has waited longest for input can still
      be given a character: some continuation ends with its dispatch, at which it takes the first character of the buffer. */
  lemma WaitingReaderCanBeServed(n: nat, maxTime: nat, es: seq<Event>) returns (fs: seq<Event>)
    requires n <= MAX_THREAD && 1 <= maxTime && Possible(Boot(n, maxTime), es)
    requires !After(Boot(n, maxTime), es).mode.Halted? && After(Boot(n, maxTime), es).waitQueue != []
    ensures Possible(Boot(n, maxTime), es + fs + [Dispatch])
    ensures var t := After(Boot(n, maxTime), es).waitQueue[0];
            var before, after := After(Boot(n, maxTime), es + fs), After(Boot(n, maxTime), es + fs + [Dispatch]);
            && after.mode == Busy && after.current == t && before.buf != []
            && after.consumed == before.consumed + [before.buf[0]] && !after.slots[t].inPop
  {
    var boot := Boot(n, maxTime);
    var m := After(boot, es);
    RunsAreSafe(n, maxTime, es);
    fs := WaiterComesToTheFront(m);
    RunsAppend(boot, es, fs);
    FrontReaderIsServed(After(m, fs), m.waitQueue[0]);
    OneMoreEvent(boot, es + fs, After(m, fs), Dispatch);
  }

  lemma WaiterComesToTheFront(m: Machine) returns (es: seq<Event>)
    requires Healthy(m) && !m.mode.Halted? && m.waitQueue != []
    ensures Possible(m, es)
    ensures var n := After(m, es); n.mode == Idle && ReaderAt(n, m.waitQueue[0], 0) && n.buf != []
  {
    var pause := InterruptsAreLetIn(m);
    StaysHealthy(m, pause);
    var rest := BroughtToTheFront(After(m, pause));
    RunsAppend(m, pause, rest);
    es := pause + rest;
  }

  // ----- a program runs and ends -------------------------------------------------------------

  /** A thread that ends frees its slot, and its parent, if it has one, is ready again at the end of the run list;
      nothing else changes. */
  lemma ExitListsParent(m: Machine)
    requires Partition(m) && m.mode == Busy
    ensures var n, c := ExitedMachine(m), m.slots[m.current];
            && n.mode == Idle && n.buf == m.buf && n.waitQueue == m.waitQueue
            && n.sched.run == m.sched.run + (if c.wait == -1 then [] else [c.wait])
            && n.slots == (if c.wait == -1 then m.slots else m.slots[c.wait := m.slots[c.wait].(status := Ready)])[m.current := c.(occupied := false)]
  {
    assert Placed(m, m.current);
    if m.slots[m.current].wait != -1 { assert ChildOf(m.slots, m.current, m.slots[m.current].wait); }
  }

  /** The machine in which a program has been started and runs in slot t, its parent asleep. */
  ghost predicate ChildRuns(m: Machine, n: Machine, t: Tid) {
    && n.mode == Busy && n.current == t && n.sched.run == [] && n.waitQueue == m.waitQueue && n.buf == m.buf
    && n.sched.time[m.current] == m.sched.time[m.current]
    && n.slots == m.slots[m.current := m.slots[m.current].(status := Sleeping)][t := Slot(true, Running, m.current, false)]
  }

  lemma ProgramStarts(m: Machine, t: Tid)
    requires m.mode == Busy && m.sched.run == [] && FirstFree(m.slots, 0) == t && t != m.current
    ensures Enabled(Next(m, Exec(Program)), Dispatch) && ChildRuns(m, Next(Next(m, Exec(Program)), Dispatch), t)
  {
  }

  lemma ProgramEnds(m: Machine, n: Machine, t: Tid)
    requires ChildRuns(m, n, t) && t != m.current && !m.slots[m.current].inPop && m.sched.time[m.current] > 0
    ensures Enabled(Next(n, Exit), Dispatch)
    ensures var o := Next(Next(n, Exit), Dispatch);
            && o.mode == Busy && o.current == m.current && o.sched.run == [] && o.waitQueue == m.waitQueue && o.buf == m.buf
            && o.sched.time[m.current] == m.sched.time[m.current] && o.sched.current == m.current
            && o.slots == m.slots[m.current := m.slots[m.current].(status := Running)][t := Slot(false, Running, m.current, false)]
  {
  }

  /** With nothing else to run, a program that is started and ends at once brings its parent back, in the state in which it
      called exec, and the slot of the program is free again. */
  lemma ProgramComesAndGoes(m: Machine)
    requires Healthy(m) && m.mode == Busy && m.sched.run == [] && FirstFree(m.slots, 0) < MAX_THREAD
    ensures var t, es := FirstFree(m.slots, 0), [Exec(Program), Dispatch, Exit, Dispatch];
            Possible(m, es) &&
            var n := After(m, es);
            && n.mode == Busy && n.current == m.current && n.sched.run == [] && n.waitQueue == m.waitQueue && n.buf == m.buf
            && n.sched.time[m.current] == m.sched.time[m.current] && n.sched.current == m.sched.current
            && (forall u: Tid :: u != t ==> n.slots[u] == m.slots[u]) && !n.slots[t].occupied
  {
    var t: Tid := FirstFree(m.slots, 0);
    assert Placed(m, m.current) && Placed(m, t);
    ProgramStarts(m, t);
    ProgramEnds(m, Next(Next(m, Exec(Program)), Dispatch), t);
    FourEvents(m, Exec(Program), Dispatch, Exit, Dispatch);
  }

  lemma FourEvents(m: Machine, a: Event, b: Event, c: Event, d: Event)
    requires Enabled(m, a) && Enabled(Next(m, a), b) && Enabled(Next(Next(m, a), b), c) && Enabled(Next(Next(Next(m, a), b), c), d)
    ensures Possible(m, [a, b, c, d]) && After(m, [a, b, c, d]) == Next(Next(Next(Next(m, a), b), c), d)
  {
    OneStep(m, a);
    OneMoreEvent(m, [a], Next(m, a), b);
    OneMoreEvent(m, [a] + [b], Next(Next(m, a), b), c);
    OneMoreEvent(m, [a] + [b] + [c], Next(Next(Next(m, a), b), c), d);
    assert [a] + [b] + [c] + [d] == [a, b, c, d];
  }
}
