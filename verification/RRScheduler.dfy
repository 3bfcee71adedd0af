/** What the scheduler of kernel/rrscheduler.c computes: a queue of runnable threads and the rest of their time slices. */
module RoundRobin {
  import opened Basics

  const MAX_THREAD: nat := 0x40

  /** Thread numbers; and thread numbers or -1. */
  type Tid = t: nat | t < MAX_THREAD
  type TidOrNone = t: int | -1 <= t < MAX_THREAD

  type Times = s: seq<nat> | |s| == MAX_THREAD witness seq(MAX_THREAD, _ => 0)

  /** `run` lists the threads waiting for the processor, `current` is the thread that was popped last, or -1. */
  datatype Sched = Sched(run: seq<Tid>, time: Times, current: TidOrNone, maxTime: nat)

  ghost predicate Distinct(run: seq<nat>, i: nat, j: nat) {
    i < j < |run| ==> run[i] != run[j]
  }

  /** Every thread is listed at most once. */
  ghost predicate NoRepeats(run: seq<nat>) {
    forall i: nat, j: nat {:trigger Distinct(run, i, j)} :: Distinct(run, i, j)
  }

  /** At the back; a used-up time slice is renewed. */
  function Pushed(s: Sched, t: Tid): Sched {
    s.(run := s.run + [t], time := s.time[t := if s.time[t] == 0 then s.maxTime else s.time[t]])
  }

  /** From the front; -1 when there is none. */
  function Front(s: Sched): TidOrNone {
    if s.run == [] then -1 else s.run[0]
  }

  function Popped(s: Sched): Sched {
    if s.run == [] then s else s.(run := s.run[1..], current := s.run[0])
  }

  /** `x - 1` on an unsigned 64-bit word. */
  function Decrement(x: nat): nat { if x == 0 then WORD_LIMIT - 1 else x - 1 }

  function Ticked(s: Sched): Sched {
    if s.current == -1 then s else s.(time := s.time[s.current := Decrement(s.time[s.current])])
  }

  predicate Expired(s: Sched) {
    s.current == -1 || Decrement(s.time[s.current]) == 0
  }

  function Exited(s: Sched, t: Tid): Sched {
    if s.current == t then s.(current := -1) else s
  }

  // ----- time slices -----------------------------------------------------------

  /** No slice exceeds the maximum, and nobody waits for the processor without time left. */
  ghost predicate SliceOk(s: Sched, t: Tid) {
    s.time[t] <= s.maxTime && (t in s.run ==> 1 <= s.time[t])
  }

  ghost predicate SlicesOk(s: Sched) {
    1 <= s.maxTime && forall t: Tid {:trigger SliceOk(s, t)} :: SliceOk(s, t)
  }

  lemma PushKeepsSlices(s: Sched, t: Tid)
    requires SlicesOk(s)
    ensures SlicesOk(Pushed(s, t))
  {
    forall u: Tid
      ensures SliceOk(Pushed(s, t), u)
    {
      assert SliceOk(s, u);
    }
  }

  /** The thread that gets the processor has time left ... */
  lemma PopKeepsSlices(s: Sched)
    requires SlicesOk(s)
    ensures SlicesOk(Popped(s))
    ensures s.run != [] ==> 1 <= s.time[s.run[0]] <= s.maxTime
  {
    forall u: Tid
      ensures SliceOk(Popped(s), u)
    {
      assert SliceOk(s, u);
    }
    if s.run != [] { assert s.run[0] in s.run && SliceOk(s, s.run[0]); }
  }

  /** ... so the decrement of a tick does not wrap, and what is left is positive exactly when the tick does not end the turn. */
  lemma TickKeepsSlices(s: Sched)
    requires SlicesOk(s) && s.current != -1 && s.current !in s.run && 1 <= s.time[s.current]
    ensures SlicesOk(Ticked(s)) && Ticked(s).time[s.current] == s.time[s.current] - 1
    ensures !Expired(s) <==> 1 <= Ticked(s).time[s.current]
  {
    forall u: Tid
      ensures SliceOk(Ticked(s), u)
    {
      assert SliceOk(s, u);
    }
  }

  // ----- bounded wait ----------------------------------------------------------

  datatype Op = PushOp(tid: Tid) | PopOp | TickOp | ExitOp(tid: Tid)

  function Apply(s: Sched, op: Op): Sched {
    match op
    case PushOp(t) => Pushed(s, t)
    case PopOp => Popped(s)
    case TickOp => Ticked(s)
    case ExitOp(t) => Exited(s, t)
  }

  function ApplyAll(s: Sched, ops: seq<Op>): Sched {
    if ops == [] then s else Apply(ApplyAll(s, ops[..|ops| - 1]), ops[|ops| - 1])
  }

  function Pops(ops: seq<Op>): nat {
    if ops == [] then 0 else Pops(ops[..|ops| - 1]) + if ops[|ops| - 1] == PopOp then 1 else 0
  }

  /** A thread with k others ahead of it moves up by one with every pop, whatever is pushed, ticked or ended meanwhile ... */
  lemma {:induction false} MovesUp(s: Sched, ops: seq<Op>, k: nat)
    requires k < |s.run| && Pops(ops) <= k
    ensures var r := ApplyAll(s, ops); k - Pops(ops) < |r.run| && r.run[k - Pops(ops)] == s.run[k]
    decreases |ops|
  {
    if ops != [] {
      MovesUp(s, ops[..|ops| - 1], k);
    }
  }

  /** ... so exactly the (k + 1)-th pop returns it. */
  lemma BoundedWait(s: Sched, ops: seq<Op>, k: nat)
    requires k < |s.run| && Pops(ops) <= k && NoRepeats(s.run)
    ensures Front(ApplyAll(s, ops)) == s.run[k] <==> Pops(ops) == k
  {
    MovesUp(s, ops, Pops(ops));
    assert Distinct(s.run, Pops(ops), k);
  }

  // ----- who pays for the ticks --------------------------------------------------

  /** How many ticks have come while t was the current thread. */
  function Charged(s: Sched, ops: seq<Op>, t: Tid): nat {
    if ops == [] then 0
    else
      var before := ops[..|ops| - 1];
      Charged(s, before, t) + One(ops[|ops| - 1] == TickOp && ApplyAll(s, before).current == t)
  }

  /** How often t has been pushed with nothing left of its slice. */
  function Renewals(s: Sched, ops: seq<Op>, t: Tid): nat {
    if ops == [] then 0
    else
      var before := ops[..|ops| - 1];
      Renewals(s, before, t) + One(ops[|ops| - 1] == PushOp(t) && ApplyAll(s, before).time[t] == 0)
  }

  /** No tick comes to t when it has nothing left (a running thread always has: StepKeepsSlices of module ThreadRuns). */
  ghost predicate NeverOverdrawn(s: Sched, ops: seq<Op>, t: Tid) {
    forall i: nat {:trigger ops[..i]} :: i < |ops| && ops[i] == TickOp && ApplyAll(s, ops[..i]).current == t ==> ApplyAll(s, ops[..i]).time[t] > 0
  }

  /** The account of a thread: what it has left and what it has been charged is what it had and a full slice for every
      renewal. Neither waiting nor being pushed again gains or costs anything. */
  lemma {:induction false} SliceAccount(s: Sched, ops: seq<Op>, t: Tid)
    requires NeverOverdrawn(s, ops, t)
    ensures ApplyAll(s, ops).time[t] + Charged(s, ops, t) == s.time[t] + s.maxTime * Renewals(s, ops, t)
    ensures ApplyAll(s, ops).maxTime == s.maxTime
  {
    if ops != [] {
      var n := |ops| - 1;
      var before := ops[..n];
      forall i: nat | i < n
        ensures before[..i] == ops[..i]
      {
      }
      assert NeverOverdrawn(s, before, t) by {
        forall i: nat | i < n && before[i] == TickOp && ApplyAll(s, before[..i]).current == t
          ensures ApplyAll(s, before[..i]).time[t] > 0
        {
          assert before[..i] == ops[..i];
        }
      }
      SliceAccount(s, before, t);
      assert ops[n] == TickOp && ApplyAll(s, ops[..n]).current == t ==> ApplyAll(s, ops[..n]).time[t] > 0;
      OneMoreEntry(s.maxTime, Renewals(s, before, t), ops[n] == PushOp(t) && ApplyAll(s, before).time[t] == 0);
    }
  }

  lemma OneMoreEntry(slice: nat, renewals: nat, more: bool)
    ensures slice * (renewals + One(more)) == slice * renewals + if more then slice else 0
  {
  }

  /** From the end of the running thread to the next pop nobody is charged. */
  lemma {:induction false} NobodyPaysAfterExit(s: Sched, ops: seq<Op>, t: Tid)
    requires s.current != -1 && Pops(ops) == 0
    ensures Charged(Exited(s, s.current), ops, t) == 0 && ApplyAll(Exited(s, s.current), ops).current == -1
  {
    if ops != [] { NobodyPaysAfterExit(s, ops[..|ops| - 1], t); }
  }
}

/** kernel/rrscheduler.c: the list of runnable threads, linked through two arrays and closed by a dummy head at index 0.
    Thread tid is kept at index tid + 1. */
module RRScheduling {
  import opened RoundRobin

  /** Position i of the circle: the dummy head, then the listed threads, then the head again. */
  function Pos(run: seq<nat>, i: nat): nat {
    if 1 <= i <= |run| then run[i - 1] + 1 else 0
  }

  ghost predicate LinkedAt(next: seq<nat>, prev: seq<nat>, run: seq<nat>, i: nat) {
    i <= |run| ==>
      && Pos(run, i) < |next| && Pos(run, i + 1) < |prev|
      && next[Pos(run, i)] == Pos(run, i + 1) && prev[Pos(run, i + 1)] == Pos(run, i)
  }

  /** The two arrays link the listed threads into one circle through the head, in the order of the list. */
  ghost predicate Circle(next: seq<nat>, prev: seq<nat>, run: seq<nat>) {
    forall i: nat {:trigger LinkedAt(next, prev, run, i)} :: LinkedAt(next, prev, run, i)
  }

  ghost predicate MarkedAt(valid: seq<bool>, run: seq<nat>, t: nat) {
    t + 1 < |valid| ==> (valid[t + 1] <==> t in run)
  }

  lemma CirclePush(next: seq<nat>, prev: seq<nat>, run: seq<nat>, t: nat)
    requires Circle(next, prev, run) && NoRepeats(run) && t !in run && |next| == |prev| && t + 1 < |next|
    ensures |prev| > 0 && prev[0] < |next|
    ensures Circle(next[prev[0] := t + 1][t + 1 := 0], prev[t + 1 := prev[0]][0 := t + 1], run + [t])
    ensures NoRepeats(run + [t])
  {
    var n := |run|;
    assert LinkedAt(next, prev, run, n);
    var next', prev' := next[prev[0] := t + 1][t + 1 := 0], prev[t + 1 := prev[0]][0 := t + 1];
    forall i: nat
      ensures LinkedAt(next', prev', run + [t], i)
    {
      assert LinkedAt(next, prev, run, i);
      if 0 < i < n { assert Distinct(run, i - 1, n - 1); }
    }
    forall i: nat, j: nat
      ensures Distinct(run + [t], i, j)
    {
      assert Distinct(run, i, j);
    }
  }

  lemma CirclePop(next: seq<nat>, prev: seq<nat>, run: seq<nat>)
    requires Circle(next, prev, run) && NoRepeats(run) && run != [] && |next| == |prev|
    ensures var ret := run[0] + 1;
            && ret < |next| && next[0] == ret && prev[ret] == 0 && next[ret] < |next|
            && Circle(next[0 := next[ret]][ret := 0], prev[next[ret] := 0][ret := 0], run[1..])
    ensures NoRepeats(run[1..]) && run[0] !in run[1..]
  {
    var ret := run[0] + 1;
    assert LinkedAt(next, prev, run, 0) && LinkedAt(next, prev, run, 1);
    var next', prev' := next[0 := next[ret]][ret := 0], prev[next[ret] := 0][ret := 0];
    var rest := run[1..];
    forall i: nat
      ensures LinkedAt(next', prev', rest, i)
    {
      assert LinkedAt(next, prev, run, i + 1);
      assert Pos(rest, i + 1) == Pos(run, i + 2);
      if 0 < i < |run| { assert Distinct(run, 0, i) && Pos(rest, i) == Pos(run, i + 1); }
      if i + 1 < |run| { assert Distinct(run, 0, i + 1) && Distinct(run, 1, i + 1); }
    }
    forall i: nat, j: nat
      ensures Distinct(rest, i, j)
    {
      assert Distinct(run, i + 1, j + 1) && Distinct(run, 0, i + 1);
    }
    forall j: nat | j < |rest|
      ensures rest[j] != run[0]
    {
      assert Distinct(run, 0, j + 1);
    }
  }

  class RRScheduler {
    const valid: array<bool>
    const time: array<nat>
    const prev: array<nat>
    const next: array<nat>
    var maxTime: nat
    var current: nat
    ghost var run: seq<Tid>

    ghost predicate Shaped()
      reads this
    {
      && valid.Length == time.Length == prev.Length == next.Length == MAX_THREAD + 1
      && time != prev && time != next && prev != next
      && current <= MAX_THREAD
    }

    ghost predicate Valid()
      reads this, valid, time, prev, next
    {
      && Shaped() && NoRepeats(run) && Circle(next[..], prev[..], run)
      && forall t: nat {:trigger MarkedAt(valid[..], run, t)} :: MarkedAt(valid[..], run, t)
    }

    ghost function Abstract(): (s: Sched)
      reads this, time
      requires Shaped()
    {
      Sched(run, time[1..], current - 1, maxTime)
    }

    /** schedulerInit, on memory that starts out as zero. */
    constructor ()
      ensures Valid() && fresh(valid) && fresh(time) && fresh(prev) && fresh(next)
      ensures Abstract() == Sched([], seq(MAX_THREAD, _ => 0), -1, 1)
    {
      valid := new bool[MAX_THREAD + 1](_ => false);
      time := new nat[MAX_THREAD + 1](_ => 0);
      prev := new nat[MAX_THREAD + 1](_ => 0);
      next := new nat[MAX_THREAD + 1](_ => 0);
      maxTime, current, run := 1, 0, [];
    }

    /** False is the panic for a thread number out of range. The thread must not be in the list. */
    method Push(tid: nat) returns (ok: bool)
      requires Valid() && tid !in run
      modifies this`run, valid, time, prev, next
      ensures Valid()
      ensures ok <==> tid < MAX_THREAD
      ensures Abstract() == if ok then Pushed(old(Abstract()), tid) else old(Abstract())
    {
      var i := tid + 1;
      if i + 1 > MAX_THREAD + 1 {
        return false;
      }
      CirclePush(next[..], prev[..], run, tid);
      ghost var marks := valid[..];
      if time[i] == 0 {
        time[i] := maxTime;
      }
      var last := prev[0];
      valid[i] := true;
      next[last] := i;
      prev[i] := last;
      prev[0] := i;
      next[i] := 0;
      run := run + [tid];
      assert Circle(next[..], prev[..], run);
      forall t: nat
        ensures MarkedAt(valid[..], run, t)
      {
        assert MarkedAt(marks, old(run), t);
      }
      ok := true;
    }

    method Pop() returns (tid: int)
      requires Valid()
      modifies this, valid, prev, next
      ensures Valid() && maxTime == old(maxTime)
      ensures tid == Front(old(Abstract())) && Abstract() == Popped(old(Abstract()))
    {
      var ret: int := next[0];
      assert LinkedAt(next[..], prev[..], run, 0);
      ghost var marks := valid[..];
      if ret != 0 {
        CirclePop(next[..], prev[..], run);
        var n, p := next[ret], prev[ret];
        prev[n] := p;
        next[p] := n;
        prev[ret] := 0;
        next[ret] := 0;
        valid[ret] := false;
        current := ret;
        run := run[1..];
        assert Circle(next[..], prev[..], run);
        forall t: nat
          ensures MarkedAt(valid[..], run, t)
        {
          assert MarkedAt(marks, old(run), t);
        }
      }
      tid := ret - 1;
    }

    method Tick() returns (expired: bool)
      requires Valid()
      modifies time
      ensures Valid()
      ensures expired == Expired(old(Abstract())) && Abstract() == Ticked(old(Abstract()))
    {
      if current != 0 {
        time[current] := Decrement(time[current]);
        return time[current] == 0;
      }
      expired := true;
    }

    method Exit(tid: Tid)
      requires Valid()
      modifies this`current
      ensures Valid() && Abstract() == Exited(old(Abstract()), tid)
    {
      if current == tid + 1 {
        current := 0;
      }
    }
  }
}
