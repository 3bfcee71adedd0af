/** Whole runs of the thread machine: time slices, wake-ups, the order of the input, and the chain of waiting programs. */
module ThreadRuns {
  import opened RoundRobin
  import opened ThreadMachine

  // ----- time slices ---------------------------------------------------------------

  /** The running thread is the scheduler's current one and has time left. */
  ghost predicate Sliced(m: Machine) {
    SlicesOk(m.sched) && (m.mode == Busy ==> m.sched.current == m.current && 1 <= m.sched.time[m.current] <= m.sched.maxTime)
  }

  lemma StepKeepsSlices(m: Machine, e: Event)
    requires Partition(m) && Sliced(m) && Enabled(m, e)
    ensures Sliced(Next(m, e))
    ensures e == Tick && m.mode == Busy ==> Ticked(m.sched).time[m.current] == m.sched.time[m.current] - 1
  {
    assert Placed(m, m.current) && SliceOk(m.sched, m.current);
    match e
    case Key(_) => if m.waitQueue != [] { PushKeepsSlices(m.sched, m.waitQueue[0]); }
    case Tick => if m.mode == Busy { TickKeepsSlices(m.sched); PushKeepsSlices(Ticked(m.sched), m.current); }
    case Read =>
    case Exec(_) => if FirstFree(m.slots, 0) < MAX_THREAD { PushKeepsSlices(m.sched, FirstFree(m.slots, 0)); }
    case Exit => ExitKeepsSlices(m);
    case Dispatch => PopKeepsSlices(m.sched);
    case Resume =>
    case OutOfMemory =>
  }

  lemma ExitKeepsSlices(m: Machine)
    requires SlicesOk(m.sched)
    ensures SlicesOk(ExitedMachine(m).sched)
  {
    var s, w := Exited(m.sched, m.current), m.slots[m.current].wait;
    forall t: Tid
      ensures SliceOk(s, t)
    {
      assert SliceOk(m.sched, t);
    }
    if w != -1 { PushKeepsSlices(s, w); }
    var n := m.(slots := m.slots[m.current := m.slots[m.current].(occupied := false)], sched := s);
    var o := if w == -1 then n else Woken(n, w);
    PushKeepsSlices(o.sched, m.current);
  }

  // ----- wake-ups ------------------------------------------------------------------

  /** How many of the listed threads have been woken inside popChar and have not looked at the buffer again. */
  function WokenReaders(run: seq<Tid>, slots: Slots): nat {
    if run == [] then 0
    else WokenReaders(run[..|run| - 1], slots) + if slots[run[|run| - 1]].inPop then 1 else 0
  }

  lemma {:induction false} WokenReadersKept(run: seq<Tid>, p: Slots, q: Slots)
    requires forall t <- run :: p[t].inPop == q[t].inPop
    ensures WokenReaders(run, p) == WokenReaders(run, q)
  {
    if run != [] {
      var last := run[|run| - 1];
      assert last in run;
      WokenReadersKept(run[..|run| - 1], p, q);
    }
  }

  lemma WokenReadersPush(run: seq<Tid>, t: Tid, slots: Slots)
    ensures WokenReaders(run + [t], slots) == WokenReaders(run, slots) + if slots[t].inPop then 1 else 0
  {
    assert (run + [t])[..|run|] == run;
  }

  lemma {:induction false} WokenReadersPop(run: seq<Tid>, slots: Slots)
    requires run != []
    ensures WokenReaders(run, slots) == WokenReaders(run[1..], slots) + if slots[run[0]].inPop then 1 else 0
    decreases |run|
  {
    var n := |run| - 1;
    if n > 0 {
      WokenReadersPop(run[..n], slots);
      assert run[..n][1..] == run[1..][..n - 1];
    }
  }

  /** While threads wait for input, every character in the buffer is matched by a reader already woken:
      no thread sleeps over a character nobody is going to fetch. */
  ghost predicate NoLostWakeup(m: Machine) {
    m.waitQueue != [] ==> |m.buf| <= WokenReaders(m.sched.run, m.slots)
  }

  lemma KeyLosesNoWakeup(m: Machine, ch: char)
    requires Partition(m) && NoLostWakeup(m)
    ensures NoLostWakeup(Keyed(m, ch))
  {
    if m.waitQueue != [] {
      var w := m.waitQueue[0];
      var n := Keyed(m, ch);
      assert Placed(m, w) && OnWaitQueue(m, w);
      WokenReadersPush(m.sched.run, w, n.slots);
      WokenReadersKept(m.sched.run, m.slots, n.slots);
    }
  }

  /** A thread that is not inside popChar joins the run list, or none does, and the others stay as they are. */
  lemma OthersLoseNoWakeup(m: Machine, n: Machine)
    requires NoLostWakeup(m) && n.waitQueue == m.waitQueue && n.buf == m.buf
    requires n.sched.run == m.sched.run || (|n.sched.run| == |m.sched.run| + 1 && n.sched.run[..|m.sched.run|] == m.sched.run)
    requires forall t <- m.sched.run :: n.slots[t].inPop == m.slots[t].inPop
    ensures NoLostWakeup(n)
  {
    WokenReadersKept(m.sched.run, m.slots, n.slots);
  }

  lemma DispatchLosesNoWakeup(m: Machine)
    requires Partition(m) && NoLostWakeup(m) && m.mode == Idle
    ensures NoLostWakeup(Dispatched(m))
  {
    if m.sched.run != [] {
      var n := Dispatched(m);
      var t := m.sched.run[0];
      assert Placed(m, t) && OnRunList(m, t);
      PopNoRepeats(m.sched.run);
      WokenReadersPop(m.sched.run, m.slots);
      WokenReadersKept(m.sched.run[1..], m.slots, n.slots);
    }
  }

  lemma ExecLosesNoWakeup(m: Machine)
    requires Partition(m) && NoLostWakeup(m) && m.mode == Busy
    ensures NoLostWakeup(Executed(m))
  {
    assert Placed(m, m.current);
    if FirstFree(m.slots, 0) < MAX_THREAD { assert Placed(m, FirstFree(m.slots, 0)); }
    OthersLoseNoWakeup(m, Executed(m));
  }

  lemma ReadLosesNoWakeup(m: Machine)
    requires Partition(m) && NoLostWakeup(m) && m.mode == Busy
    ensures NoLostWakeup(PopCharPass(m))
  {
    assert Placed(m, m.current);
    WokenReadersKept(m.sched.run, m.slots, PopCharPass(m).slots);
  }

  lemma StepLosesNoWakeup(m: Machine, e: Event)
    requires Partition(m) && NoLostWakeup(m) && Enabled(m, e)
    ensures NoLostWakeup(Next(m, e))
  {
    assert Placed(m, m.current);
    match e
    case Key(ch) => KeyLosesNoWakeup(m, ch);
    case Tick => OthersLoseNoWakeup(m, Next(m, e));
    case Read => ReadLosesNoWakeup(m);
    case Exec(_) => ExecLosesNoWakeup(m);
    case Exit => OthersLoseNoWakeup(m, Next(m, e));
    case Dispatch => DispatchLosesNoWakeup(m);
    case Resume =>
    case OutOfMemory =>
  }

  // ----- runs from boot --------------------------------------------------------------

  /** The first n slots filled before the idle loop starts; the kernel boots with one shell and slices of one tick. */
  function Boot(n: nat, maxTime: nat): Machine
    requires n <= MAX_THREAD
  {
    if n == 0 then
      NoThreads(maxTime)
    else Added(Boot(n - 1, maxTime), n - 1, -1)
  }

  lemma {:induction false} BootIsSafe(n: nat, maxTime: nat)
    requires n <= MAX_THREAD && 1 <= maxTime
    ensures var m := Boot(n, maxTime);
            && Partition(m) && Sliced(m) && m.mode == Idle && m.waitQueue == [] && m.buf == [] && m.consumed == [] && m.pushed == []
            && forall t: Tid :: m.slots[t].occupied <==> t < n
  {
    var m := Boot(n, maxTime);
    if n == 0 {
      forall t: Tid
        ensures Placed(m, t) && SliceOk(m.sched, t)
      {
      }
    } else {
      BootIsSafe(n - 1, maxTime);
      AddKeepsPartition(Boot(n - 1, maxTime), n - 1);
      PushKeepsSlices(Boot(n - 1, maxTime).sched, n - 1);
    }
  }

  function After(m: Machine, es: seq<Event>): Machine {
    if es == [] then m else Next(After(m, es[..|es| - 1]), es[|es| - 1])
  }

  /** Each event comes in a state in which it can happen. */
  predicate Possible(m: Machine, es: seq<Event>) {
    es != [] ==> Possible(m, es[..|es| - 1]) && Enabled(After(m, es[..|es| - 1]), es[|es| - 1])
  }

  /** The characters that the keyboard delivered. */
  function Keys(es: seq<Event>): string {
    if es == [] then []
    else Keys(es[..|es| - 1]) + if es[|es| - 1].Key? then [Received(es[|es| - 1].ch)] else []
  }

  lemma StepKeepsInput(m: Machine, e: Event)
    requires Enabled(m, e) && m.consumed + m.buf == m.pushed
    ensures var n := Next(m, e);
            && n.consumed + n.buf == n.pushed
            // Enter sends a carriage return; every other character arrives as it is
            && n.pushed == m.pushed + (if e == Key('\r') then ['\n'] else if e.Key? then [e.ch] else [])
            && (e.Key? ==> n.buf == m.buf + [if e.ch == '\r' then '\n' else e.ch])
  {
  }

  /** Safety over all runs, from any number of boot threads and for any length of the time slice:
      every thread is in exactly one place, slices never wrap, no wake-up is lost,
      and what readers got, followed by the buffer, is what the keyboard delivered, in order. */
  lemma {:induction false} RunsAreSafe(n: nat, maxTime: nat, es: seq<Event>)
    requires n <= MAX_THREAD && 1 <= maxTime && Possible(Boot(n, maxTime), es)
    ensures var m := After(Boot(n, maxTime), es);
            && Partition(m) && Sliced(m) && NoLostWakeup(m)
            && m.consumed + m.buf == m.pushed == Keys(es)
    decreases |es|
  {
    BootIsSafe(n, maxTime);
    if es != [] {
      RunsAreSafe(n, maxTime, es[..|es| - 1]);
      var m, e := After(Boot(n, maxTime), es[..|es| - 1]), es[|es| - 1];
      StepKeepsPartition(m, e);
      StepKeepsSlices(m, e);
      StepLosesNoWakeup(m, e);
      StepKeepsInput(m, e);
    }
  }

  /** If a thread waits for input while the buffer holds a character, some woken reader is on the run list. */
  lemma {:induction false} SomeReaderIsWoken(run: seq<Tid>, slots: Slots)
    requires WokenReaders(run, slots) > 0
    ensures exists t :: t in run && slots[t].inPop
  {
    var last := run[|run| - 1];
    if !slots[last].inPop {
      SomeReaderIsWoken(run[..|run| - 1], slots);
      var t :| t in run[..|run| - 1] && slots[t].inPop;
      assert t in run;
    } else {
      assert last in run;
    }
  }

  function Dispatches(es: seq<Event>): nat {
    if es == [] then 0 else Dispatches(es[..|es| - 1]) + if es[|es| - 1] == Dispatch then 1 else 0
  }

  /** Thread t has k others ahead of it on the run list. */
  predicate ListedAt(m: Machine, t: Tid, k: nat) {
    k < |m.sched.run| && m.sched.run[k] == t
  }

  /** The run list loses its front with a dispatch; otherwise it only grows, at the back. */
  lemma RunListAfterStep(m: Machine, e: Event, t: Tid, k: nat)
    requires ListedAt(m, t, k) && (e == Dispatch ==> k > 0)
    ensures ListedAt(Next(m, e), t, if e == Dispatch then k - 1 else k)
  {
  }

  /** And such a reader, like every listed thread, moves up with every dispatch ... */
  lemma {:induction false} ListedThreadMovesUp(m: Machine, es: seq<Event>, t: Tid, k: nat)
    requires ListedAt(m, t, k) && Dispatches(es) <= k
    ensures ListedAt(After(m, es), t, k - Dispatches(es))
    decreases |es|
  {
    if es != [] {
      var before := es[..|es| - 1];
      ListedThreadMovesUp(m, before, t, k);
      RunListAfterStep(After(m, before), es[|es| - 1], t, k - Dispatches(before));
    }
  }

  /** The thread that the idle loop has chosen: it runs, or it has found the buffer empty and waits again. */
  function Chosen(m: Machine): TidOrNone {
    if m.mode == Busy || m.current in m.waitQueue then m.current else -1
  }

  lemma FrontIsChosen(m: Machine, t: Tid)
    requires m.sched.run != [] && m.sched.run[0] == t
    ensures Chosen(Dispatched(m)) == t
  {
  }

  /** ... so a thread with k others ahead gets the processor with the (k + 1)-th dispatch, whatever happens meanwhile. */
  lemma TurnComes(m: Machine, es: seq<Event>, k: nat)
    requires k < |m.sched.run| && Dispatches(es) == k
    ensures Chosen(Dispatched(After(m, es))) == m.sched.run[k]
  {
    ListedThreadMovesUp(m, es, m.sched.run[k], k);
    FrontIsChosen(After(m, es), m.sched.run[k]);
  }

  // ----- one shell: the chain of waiting programs ------------------------------------

  ghost predicate Link(m: Machine, chain: seq<Tid>, i: nat) {
    i < |chain| ==>
      m.slots[chain[i]].occupied && m.slots[chain[i]].wait == if i == 0 then -1 else chain[i - 1]
  }

  /** The live threads, from the shell on, each waiting for the next. */
  ghost predicate IsChain(m: Machine, chain: seq<Tid>) {
    && NoRepeats(chain)
    && (forall t: Tid :: m.slots[t].occupied ==> t in chain)
    && (forall i: nat {:trigger Link(m, chain, i)} :: Link(m, chain, i))
  }

  /** Only the tip of the chain is not sleeping for a child. */
  lemma OnlyTheTipIsAwake(m: Machine, chain: seq<Tid>, t: Tid)
    requires Partition(m) && IsChain(m, chain) && m.slots[t].occupied
    ensures chain != []
    ensures t == chain[|chain| - 1] <==> !HasChild(m.slots, t)
    ensures t != chain[|chain| - 1] ==> m.slots[t].status == Sleeping && !m.slots[t].inPop
  {
    var i: nat :| i < |chain| && chain[i] == t;
    assert Placed(m, t);
    if i + 1 < |chain| {
      assert Link(m, chain, i + 1) && Distinct(chain, i, |chain| - 1);
      assert ChildOf(m.slots, chain[i + 1], t);
    } else {
      forall c: Tid
        ensures !ChildOf(m.slots, c, t)
      {
        if m.slots[c].occupied {
          var j: nat :| j < |chain| && chain[j] == c;
          assert Link(m, chain, j);
          if j > 0 { assert Distinct(chain, j - 1, i); }
        }
      }
    }
  }

  /** A reader on the run list finds a character. */
  ghost predicate ReadersFindCharacters(m: Machine) {
    forall t <- m.sched.run :: m.slots[t].inPop ==> m.buf != []
  }

  /** The chain after a step: a program is appended, or the tip, which has exited, is dropped. */
  function NextChain(m: Machine, e: Event, chain: seq<Tid>): seq<Tid> {
    if e == Exec(Program) && FirstFree(m.slots, 0) < MAX_THREAD then chain + [FirstFree(m.slots, 0) as Tid]
    else if e.Exit? && chain != [] then chain[..|chain| - 1]
    else chain
  }

  lemma SameThreadsSameChain(m: Machine, n: Machine, chain: seq<Tid>)
    requires IsChain(m, chain) && forall t: Tid {:trigger SameFamily(m.slots, n.slots, t)} :: SameFamily(m.slots, n.slots, t)
    ensures IsChain(n, chain)
  {
    forall t: Tid | n.slots[t].occupied
      ensures t in chain
    {
      assert SameFamily(m.slots, n.slots, t);
    }
    forall i: nat
      ensures Link(n, chain, i)
    {
      assert Link(m, chain, i);
      if i < |chain| { assert SameFamily(m.slots, n.slots, chain[i]); }
    }
  }

  lemma ExecGrowsChain(m: Machine, chain: seq<Tid>)
    requires Partition(m) && m.mode == Busy && IsChain(m, chain) && FirstFree(m.slots, 0) < MAX_THREAD
    ensures IsChain(Executed(m), chain + [FirstFree(m.slots, 0) as Tid])
  {
    var t: Tid := FirstFree(m.slots, 0);
    var n, longer := Executed(m), chain + [t];
    assert Placed(m, m.current) && m.slots[m.current].occupied;
    OnlyTheTipIsAwake(m, chain, m.current);
    forall i: nat
      ensures Link(n, longer, i)
    {
      assert Link(m, chain, i);
    }
    assert t !in chain by {
      forall i: nat | i < |chain|
        ensures chain[i] != t
      {
        assert Link(m, chain, i);
      }
    }
    PushNoRepeats(chain, t);
    forall u: Tid | n.slots[u].occupied
      ensures u in longer
    {
      assert u != t ==> m.slots[u].occupied;
    }
  }

  lemma ExitShortensChain(m: Machine, chain: seq<Tid>)
    requires Partition(m) && m.mode == Busy && IsChain(m, chain)
    ensures chain != [] && chain[|chain| - 1] == m.current && IsChain(ExitedMachine(m), chain[..|chain| - 1])
  {
    assert Placed(m, m.current) && m.slots[m.current].occupied;
    OnlyTheTipIsAwake(m, chain, m.current);
    var last := |chain| - 1;
    var n, shorter := ExitedMachine(m), chain[..last];
    forall i: nat
      ensures Link(n, shorter, i)
    {
      assert Link(m, chain, i) && Distinct(chain, i, last);
    }
    forall i: nat, j: nat
      ensures Distinct(shorter, i, j)
    {
      assert Distinct(chain, i, j);
    }
    forall u: Tid | n.slots[u].occupied
      ensures u in shorter
    {
      assert m.slots[u].occupied && u != m.current;
      var i :| 0 <= i < |chain| && chain[i] == u;
      assert shorter[i] == u;
    }
  }

  lemma StepKeepsChain(m: Machine, e: Event, chain: seq<Tid>)
    requires Partition(m) && Enabled(m, e) && IsChain(m, chain)
    ensures IsChain(Next(m, e), NextChain(m, e, chain))
  {
    if e == Exec(Program) && FirstFree(m.slots, 0) < MAX_THREAD {
      ExecGrowsChain(m, chain);
    } else if e.Exit? {
      ExitShortensChain(m, chain);
    } else {
      SameThreadsSameChain(m, Next(m, e), chain);
    }
  }

  /** On a chain at most one thread is on the run list, and none while another thread runs. */
  lemma ChainOnRunList(m: Machine, chain: seq<Tid>, t: Tid, u: Tid)
    requires Partition(m) && IsChain(m, chain) && (t in m.sched.run || OnWaitQueue(m, t) || OnCpu(m, t))
    requires u in m.sched.run
    ensures t == u && m.mode != Busy
  {
    assert Placed(m, t) && Placed(m, u) && Placed(m, m.current);
    OnlyTheTipIsAwake(m, chain, t);
    OnlyTheTipIsAwake(m, chain, u);
    if m.mode == Busy { OnlyTheTipIsAwake(m, chain, m.current); }
  }

  lemma StepKeepsReaders(m: Machine, e: Event, chain: seq<Tid>)
    requires Partition(m) && Enabled(m, e) && IsChain(m, chain) && ReadersFindCharacters(m)
    ensures ReadersFindCharacters(Next(m, e))
  {
    var n := Next(m, e);
    assert Placed(m, m.current);
    forall t | t in n.sched.run && n.slots[t].inPop
      ensures n.buf != []
    {
      assert Placed(m, t);
      if !e.Key? {
        if t in m.sched.run {
          ChainOnRunList(m, chain, t, t);
          if e.Dispatch? { ChainOnRunList(m, chain, m.sched.run[0], t); PopNoRepeats(m.sched.run); }
        } else {
          WokenThreadsAreNotListed(m);
          if e.Exit? && m.slots[m.current].wait == t { assert ChildOf(m.slots, m.current, t); }
        }
      }
    }
  }

  /** With one shell at boot, the live threads always form a single chain,
      and a thread that is woken inside popChar finds a character on its second pass, as the comment there says. */
  lemma {:induction false} OneShellMakesAChain(n: nat, maxTime: nat, es: seq<Event>) returns (chain: seq<Tid>)
    requires n <= 1 <= maxTime && Possible(Boot(n, maxTime), es)
    ensures var m := After(Boot(n, maxTime), es); Partition(m) && IsChain(m, chain) && ReadersFindCharacters(m)
    decreases |es|
  {
    RunsAreSafe(n, maxTime, es);
    if es == [] {
      chain := if n == 0 then [] else [0];
      BootIsSafe(n, maxTime);
      var m := Boot(n, maxTime);
      assert n == 1 ==> m == Added(Boot(0, maxTime), 0, -1);
      forall i: nat
        ensures Link(m, chain, i)
      {
      }
    } else {
      var before := es[..|es| - 1];
      chain := OneShellMakesAChain(n, maxTime, before);
      StepKeepsChain(After(Boot(n, maxTime), before), es[|es| - 1], chain);
      StepKeepsReaders(After(Boot(n, maxTime), before), es[|es| - 1], chain);
      chain := NextChain(After(Boot(n, maxTime), before), es[|es| - 1], chain);
    }
  }

  /** Its dispatch therefore delivers that character and never puts it back to sleep. */
  lemma SecondPassSucceeds(maxTime: nat, es: seq<Event>)
    requires 1 <= maxTime && Possible(Boot(1, maxTime), es)
    requires var m := After(Boot(1, maxTime), es); m.mode == Idle && m.sched.run != [] && m.slots[m.sched.run[0]].inPop
    ensures var m := After(Boot(1, maxTime), es);
            var n := Dispatched(m);
            m.buf != [] && n.consumed == m.consumed + [m.buf[0]] && n.mode == Busy && n.current == m.sched.run[0]
  {
    var chain := OneShellMakesAChain(1, maxTime, es);
    var m := After(Boot(1, maxTime), es);
    assert m.sched.run[0] in m.sched.run;
  }

  // ----- more than one shell -----------------------------------------------------------

  lemma OneMoreEvent(m: Machine, es: seq<Event>, n: Machine, e: Event)
    requires Possible(m, es) && After(m, es) == n && Enabled(n, e)
    ensures Possible(m, es + [e]) && After(m, es + [e]) == Next(n, e)
  {
    assert (es + [e])[..|es|] == es;
  }

  lemma {:induction false} BootLists(n: nat, maxTime: nat, i: nat)
    requires i < n <= MAX_THREAD
    ensures var m := Boot(n, maxTime);
            |m.sched.run| == n && m.sched.run[i] == i && !m.slots[i].inPop && m.mode == Idle && m.waitQueue == [] && m.buf == []
  {
    if n > 1 { BootLists(n - 1, maxTime, if i < n - 1 then i else 0); }
  }

  /** One thread waits for input; a key wakes it; another thread that is running takes the character first. */
  function Theft(): seq<Event> { [Dispatch, Read, Dispatch, Key('a'), Read] }

  function AfterTheft(m: Machine): Machine {
    PopCharPass(Keyed(Dispatched(PopCharPass(Dispatched(m))), 'a'))
  }

  lemma TheftIsPossible(m: Machine)
    requires m.mode == Idle && Dispatched(m).mode == Busy && PopCharPass(Dispatched(m)).mode == Idle
    requires var n := Dispatched(PopCharPass(Dispatched(m))); n.mode == Busy && Keyed(n, 'a').mode == Busy
    ensures Possible(m, Theft()) && After(m, Theft()) == AfterTheft(m)
  {
    var m1 := Dispatched(m);
    var m2 := PopCharPass(m1);
    var m3 := Dispatched(m2);
    var m4 := Keyed(m3, 'a');
    var es1 := [] + [Dispatch];
    OneMoreEvent(m, [], m, Dispatch);
    var es2 := es1 + [Read];
    OneMoreEvent(m, es1, m1, Read);
    var es3 := es2 + [Dispatch];
    OneMoreEvent(m, es2, m2, Dispatch);
    var es4 := es3 + [Key('a')];
    OneMoreEvent(m, es3, m3, Key('a'));
    OneMoreEvent(m, es4, m4, Read);
    assert Theft() == es4 + [Read];
  }

  /** A thread that finds the buffer empty leaves the processor to the next. */
  lemma ReaderSleeps(m: Machine)
    requires m.mode == Idle && m.buf == [] && m.sched.run != [] && !m.slots[m.sched.run[0]].inPop
    ensures Dispatched(m).mode == Busy
    ensures var n := PopCharPass(Dispatched(m));
            && n.mode == Idle && n.buf == [] && n.sched.run == m.sched.run[1..]
            && n.waitQueue == m.waitQueue + [m.sched.run[0]] && n.slots[m.sched.run[0]].inPop
            && forall t: Tid :: t != m.sched.run[0] ==> n.slots[t] == m.slots[t]
  {
  }

  /** The next thread runs, a key wakes the one that waits, and the running one takes the character. */
  lemma ThiefReads(m: Machine, w: Tid)
    requires m.mode == Idle && m.buf == [] && m.waitQueue == [w] && m.sched.run != [] && m.sched.run[0] != w
    requires !m.slots[m.sched.run[0]].inPop && m.slots[w].inPop
    ensures Dispatched(m).mode == Busy && Keyed(Dispatched(m), 'a').mode == Busy
    ensures var n := PopCharPass(Keyed(Dispatched(m), 'a'));
            && n.mode == Busy && n.current == m.sched.run[0] && n.buf == []
            && n.sched.run == m.sched.run[1..] + [w] && n.slots[w].inPop
            && forall t: Tid :: t != w && t != m.sched.run[0] ==> n.slots[t] == m.slots[t]
  {
    var d := Dispatched(m);
    assert d.mode == Busy && d.current == m.sched.run[0] && d.sched.run == m.sched.run[1..] && d.buf == [] && d.waitQueue == [w];
    var k := Keyed(d, 'a');
    assert k.buf == ['a'] && k.sched.run == d.sched.run + [w] && k.current == d.current && k.mode == Busy;
  }

  lemma TheftSucceeds(m: Machine)
    requires m.mode == Idle && m.buf == [] && m.waitQueue == [] && |m.sched.run| >= 2 && m.sched.run[0] != m.sched.run[1]
    requires !m.slots[m.sched.run[0]].inPop && !m.slots[m.sched.run[1]].inPop
    ensures Dispatched(m).mode == Busy && PopCharPass(Dispatched(m)).mode == Idle
    ensures var n := Dispatched(PopCharPass(Dispatched(m))); n.mode == Busy && Keyed(n, 'a').mode == Busy
    ensures var n := AfterTheft(m);
            && n.mode == Busy && n.current == m.sched.run[1] && n.buf == []
            && n.sched.run == m.sched.run[2..] + [m.sched.run[0]] && n.slots[m.sched.run[0]].inPop
            && forall t: Tid :: t != m.sched.run[0] && t != m.sched.run[1] ==> n.slots[t] == m.slots[t]
  {
    ReaderSleeps(m);
    ThiefReads(PopCharPass(Dispatched(m)), m.sched.run[0]);
  }

  /** After the theft the thief reads again, and so do k others one after the other; all of them go to sleep. */
  function AllRead(k: nat): seq<Event> {
    if k == 0 then Theft() + [Read] else AllRead(k - 1) + [Dispatch] + [Read]
  }

  /** The running threads have all gone to sleep in turn, up to the k-th of the list of s. */
  ghost predicate Asleep(s: Machine, n: Machine, k: nat) {
    && n.mode == Idle && n.buf == [] && k <= |s.sched.run| && n.sched.run == s.sched.run[k..]
    && forall t <- n.sched.run :: n.slots[t].inPop == s.slots[t].inPop
  }

  ghost predicate Plain(s: Machine, i: nat) { i + 1 < |s.sched.run| ==> !s.slots[s.sched.run[i]].inPop }

  lemma OneMoreAsleep(s: Machine, n: Machine, k: nat)
    requires Asleep(s, n, k) && k + 1 < |s.sched.run| && Plain(s, k) && NoRepeats(s.sched.run)
    ensures Dispatched(n).mode == Busy && Asleep(s, PopCharPass(Dispatched(n)), k + 1)
  {
    assert n.sched.run[0] == s.sched.run[k] && n.sched.run[0] in n.sched.run;
    ReaderSleeps(n);
    forall t | t in s.sched.run[k + 1..]
      ensures t != s.sched.run[k] && t in n.sched.run
    {
      var i :| 0 <= i < |s.sched.run[k + 1..]| && s.sched.run[k + 1..][i] == t;
      assert Distinct(s.sched.run, k, k + 1 + i) && n.sched.run[1 + i] == t;
    }
  }

  lemma {:induction false} AllFallAsleep(m: Machine, s: Machine, k: nat)
    requires Possible(m, Theft()) && After(m, Theft()) == s && s.mode == Busy && s.buf == [] && k < |s.sched.run|
    requires Partition(s) && forall i: nat {:trigger Plain(s, i)} :: Plain(s, i)
    ensures Possible(m, AllRead(k)) && Asleep(s, After(m, AllRead(k)), k)
  {
    if k == 0 {
      assert Placed(s, s.current);
      OneMoreEvent(m, Theft(), s, Read);
    } else {
      AllFallAsleep(m, s, k - 1);
      assert Plain(s, k - 1);
      var n := After(m, AllRead(k - 1));
      OneMoreAsleep(s, n, k - 1);
      OneMoreEvent(m, AllRead(k - 1), n, Dispatch);
      OneMoreEvent(m, AllRead(k - 1) + [Dispatch], Dispatched(n), Read);
    }
  }

  /** The next thread to be chosen was woken inside popChar, and finds no character there. */
  ghost predicate SecondPassFails(m: Machine) {
    m.mode == Idle && m.sched.run != [] && m.slots[m.sched.run[0]].inPop && m.buf == []
  }

  lemma FailedPassSleepsAgain(m: Machine)
    requires SecondPassFails(m)
    ensures var t, n := m.sched.run[0], Dispatched(m);
            n.mode == Idle && OnWaitQueue(n, t) && n.slots[t].inPop && n.consumed == m.consumed
  {
  }

  /** With two shells or more and slices of any length, the woken reader does go back to sleep on its second pass. */
  lemma WokenReaderSleepsAgain(n: nat, maxTime: nat)
    requires 2 <= n <= MAX_THREAD && 1 <= maxTime
    ensures Possible(Boot(n, maxTime), Theft())
    ensures var s := After(Boot(n, maxTime), Theft()); s.slots[0].inPop && OnRunList(s, 0)
    ensures Possible(Boot(n, maxTime), AllRead(n - 2))
    ensures var s := After(Boot(n, maxTime), AllRead(n - 2)); SecondPassFails(s) && s.sched.run == [0] && OnWaitQueue(Dispatched(s), 0)
  {
    var m := Boot(n, maxTime);
    BootLists(n, maxTime, 0);
    BootLists(n, maxTime, 1);
    TheftSucceeds(m);
    TheftIsPossible(m);
    var s := AfterTheft(m);
    RunsAreSafe(n, maxTime, Theft());
    forall i: nat
      ensures Plain(s, i)
    {
      if i + 1 < |s.sched.run| { BootLists(n, maxTime, i + 2); }
    }
    AllFallAsleep(m, s, n - 2);
    assert s.sched.run[n - 2..] == [0];
    FailedPassSleepsAgain(After(m, AllRead(n - 2)));
  }

  /** The comment in popChar is right about every run exactly when no more than one shell is started at boot. */
  lemma CommentHoldsForOneShell(n: nat, maxTime: nat)
    requires n <= MAX_THREAD && 1 <= maxTime
    ensures (forall es :: Possible(Boot(n, maxTime), es) ==> !SecondPassFails(After(Boot(n, maxTime), es))) <==> n <= 1
  {
    var m := Boot(n, maxTime);
    if n <= 1 {
      forall es | Possible(m, es)
        ensures !SecondPassFails(After(m, es))
      {
        var chain := OneShellMakesAChain(n, maxTime, es);
        var s := After(m, es);
        assert s.sched.run != [] ==> s.sched.run[0] in s.sched.run;
      }
    } else {
      WokenReaderSleepsAgain(n, maxTime);
    }
  }
}
