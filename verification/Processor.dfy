/** The imperative side of the thread machine: the thread pool, the processor, and standard input with its wait queue,
    each step of which is the step of module ThreadMachine. */
module Processors {
  import opened RoundRobin
  import opened RRScheduling
  import opened Queues
  import opened ThreadMachine

  class Processor {
    const threads: array<Slot>        // the thread pool
    const scheduler: RRScheduler
    const waitQueue: Queue<Tid>       // STDIN.pushed
    const buf: Queue<char>            // STDIN.buf
    var occupied: bool
    var current: Tid
    var mode: Mode                    // where control is between two traps
    ghost var pushed: string
    ghost var consumed: string

    ghost function Fixed(): set<object>
      reads this
    {
      {this, threads, scheduler, scheduler.valid, scheduler.time, scheduler.prev, scheduler.next}
    }

    ghost predicate Apart()
      reads this, waitQueue, buf
    {
      && threads as object !in {scheduler.valid as object, scheduler.time, scheduler.prev, scheduler.next}
      && Fixed() !! waitQueue.Repr && Fixed() !! buf.Repr && waitQueue.Repr !! buf.Repr
      && waitQueue in waitQueue.Repr && buf in buf.Repr
    }

    ghost predicate Valid()
      reads Fixed(), waitQueue, waitQueue.Repr, buf, buf.Repr
    {
      && threads.Length == MAX_THREAD && Apart()
      && scheduler.Valid() && waitQueue.Valid() && buf.Valid()
      && (mode == Busy ==> occupied) && (mode == Idle || mode == Window ==> !occupied)
    }

    ghost function Abstract(): (m: Machine)
      reads Fixed(), waitQueue, waitQueue.Repr, buf, buf.Repr
      requires Valid()
    {
      Machine(threads[..], scheduler.Abstract(), mode, current, waitQueue.Contents(), buf.Contents(), pushed, consumed)
    }

    /** No thread yet; control is in the idle loop. */
    constructor ()
      ensures Valid() && Abstract() == NoThreads(1)
    {
      threads := new Slot[MAX_THREAD](_ => Slot(false, Ready, -1, false));
      scheduler := new RRScheduler();
      waitQueue := new Queue<Tid>();
      buf := new Queue<char>();
      occupied, current, mode, pushed, consumed := false, 0, Idle, [], [];
      new;
      assert threads[..] == NoThreads(1).slots;
    }

    // ----- the thread pool ---------------------------------------------------------

    /** The number of the first free slot; MAX_THREAD is the panic. */
    method AllocTid() returns (tid: nat)
      requires Valid()
      ensures tid == FirstFree(threads[..], 0)
    {
      var i := 0;
      while i < MAX_THREAD
        invariant i <= MAX_THREAD && FirstFree(threads[..], 0) == FirstFree(threads[..], i)
      {
        if !threads[i].occupied {
          return i;
        }
        i := i + 1;
      }
      tid := MAX_THREAD;
    }

    /** Assigns to fields of a slot. */
    method Put(tid: Tid, slot: Slot)
      requires Valid()
      modifies threads
      ensures Valid() && Abstract() == old(Abstract()).(slots := old(Abstract()).slots[tid := slot])
    {
      threads[tid] := slot;
    }

    method PushToScheduler(tid: Tid)
      requires Valid() && tid !in scheduler.run
      modifies scheduler`run, scheduler.valid, scheduler.time, scheduler.prev, scheduler.next
      ensures Valid() && Abstract() == old(Abstract()).(sched := Pushed(old(Abstract()).sched, tid))
    {
      var _ := scheduler.Push(tid);
    }

    /** False is the panic of a full pool. */
    method AddToPool(wait: TidOrNone) returns (ok: bool)
      requires Valid() && (FirstFree(threads[..], 0) < MAX_THREAD ==> FirstFree(threads[..], 0) !in scheduler.run)
      modifies threads, scheduler`run, scheduler.valid, scheduler.time, scheduler.prev, scheduler.next
      ensures Valid()
      ensures ok <==> FirstFree(old(threads[..]), 0) < MAX_THREAD
      ensures Abstract() == if ok then Added(old(Abstract()), FirstFree(old(threads[..]), 0), wait) else old(Abstract())
    {
      var tid := AllocTid();
      ok := tid != MAX_THREAD;
      if ok {
        Put(tid, Slot(true, Ready, wait, false));
        PushToScheduler(tid);
      }
    }

    /** The next thread to run, or -1. */
    method AcquireFromPool() returns (tid: TidOrNone)
      requires Valid()
      modifies threads, scheduler, scheduler.valid, scheduler.prev, scheduler.next
      ensures Valid() && tid == Front(old(Abstract()).sched)
      ensures var m := old(Abstract());
              Abstract() == if tid == -1 then m
                            else m.(sched := Popped(m.sched), slots := m.slots[tid := m.slots[tid].(status := Running)])
    {
      tid := scheduler.Pop();
      if tid != -1 {
        Put(tid, threads[tid].(status := Running));
      }
    }

    method WakeupCPU(tid: Tid)
      requires Valid() && tid !in scheduler.run
      modifies threads, scheduler`run, scheduler.valid, scheduler.time, scheduler.prev, scheduler.next
      ensures Valid() && Abstract() == Woken(old(Abstract()), tid)
    {
      Put(tid, threads[tid].(status := Ready));
      PushToScheduler(tid);
    }

    method Leave()
      requires Valid()
      modifies this`occupied, this`mode
      ensures Valid() && Abstract() == old(Abstract()).(mode := Idle)
    {
      occupied, mode := false, Idle;
    }

    /** switchThread to the idle thread, and what the idle loop then does with the thread that ran. */
    method SwitchToIdle()
      requires Valid() && (threads[current].occupied && threads[current].status == Running ==> current !in scheduler.run)
      modifies this`occupied, this`mode, threads, scheduler`run, scheduler.valid, scheduler.time, scheduler.prev, scheduler.next
      ensures Valid() && Abstract() == Retrieved(old(Abstract()))
    {
      Leave();
      if !threads[current].occupied {
        return;
      }
      if threads[current].status == Running {
        Put(current, threads[current].(status := Ready));
        PushToScheduler(current);
      }
    }

    method YieldCPU()
      requires Valid() && occupied
      modifies this`occupied, this`mode, threads, scheduler`run, scheduler.valid, scheduler.time, scheduler.prev, scheduler.next
      ensures Valid() && Abstract() == Yielded(old(Abstract()))
    {
      if occupied {
        Put(current, threads[current].(status := Sleeping));
        SwitchToIdle();
      }
    }

    // ----- standard input ------------------------------------------------------------

    method FirstWaiter() returns (tid: Tid)
      requires Valid() && waitQueue.Contents() != []
      modifies waitQueue
      ensures Valid() && tid == old(Abstract()).waitQueue[0]
      ensures Abstract() == old(Abstract()).(waitQueue := old(Abstract()).waitQueue[1..])
    {
      tid := waitQueue.PopFront();
    }

    method NotifyCondition()
      requires Valid() && (waitQueue.Contents() != [] ==> waitQueue.Contents()[0] !in scheduler.run)
      modifies waitQueue, threads, scheduler`run, scheduler.valid, scheduler.time, scheduler.prev, scheduler.next
      ensures Valid()
      ensures var m := old(Abstract());
              Abstract() == if m.waitQueue == [] then m else Woken(m.(waitQueue := m.waitQueue[1..]), m.waitQueue[0])
    {
      var empty := waitQueue.IsEmpty();
      if !empty {
        var tid := FirstWaiter();
        WakeupCPU(tid);
      }
    }

    method Store(c: char)
      requires Valid()
      modifies this`pushed, buf.Repr
      ensures Valid() && Abstract() == old(Abstract()).(buf := old(Abstract()).buf + [c], pushed := old(Abstract()).pushed + [c])
    {
      buf.PushBack(c);
      pushed := pushed + [c];
    }

    /** external and pushChar: a character from the keyboard. */
    method Key(ch: char)
      requires Valid() && Partition(Abstract()) && (mode == Busy || mode == Window)
      modifies Fixed(), waitQueue, buf.Repr
      ensures Valid() && Abstract() == Keyed(old(Abstract()), ch)
      ensures buf.Contents() == old(buf.Contents()) + [if ch == '\r' then '\n' else ch]
    {
      WokenThreadsAreNotListed(Abstract());
      var c := if ch == '\r' then '\n' else ch;
      Store(c);
      NotifyCondition();
    }

    method Enqueue()
      requires Valid()
      modifies waitQueue.Repr
      ensures Valid() && Abstract() == old(Abstract()).(waitQueue := old(Abstract()).waitQueue + [current])
    {
      waitQueue.PushBack(current);
    }

    method WaitCondition()
      requires Valid() && occupied
      modifies this`occupied, this`mode, waitQueue.Repr
      modifies threads, scheduler`run, scheduler.valid, scheduler.time, scheduler.prev, scheduler.next
      ensures Valid()
      ensures var m := old(Abstract()); Abstract() == Yielded(m.(waitQueue := m.waitQueue + [m.current]))
    {
      Enqueue();
      YieldCPU();
    }

    method Fetch() returns (ret: char)
      requires Valid() && buf.Contents() != []
      modifies this`consumed, buf
      ensures Valid() && ret == old(Abstract()).buf[0]
      ensures Abstract() == old(Abstract()).(buf := old(Abstract()).buf[1..], consumed := old(Abstract()).consumed + [ret])
    {
      ret := buf.PopFront();
      consumed := consumed + [ret];
    }

    /** The loop of popChar, up to the character or to the point where the thread is suspended. */
    method PopChar() returns (ret: char)
      requires Valid() && occupied
      modifies Fixed(), waitQueue.Repr, buf
      ensures Valid() && Abstract() == PopCharPass(old(Abstract()))
      ensures old(Abstract()).buf != [] ==> ret == old(Abstract()).buf[0]
    {
      var empty := buf.IsEmpty();
      if !empty {
        ret := Fetch();
        Put(current, threads[current].(inPop := false));
      } else {
        Put(current, threads[current].(inPop := true));
        WaitCondition();
        ret := '\0';
      }
    }

    // ----- the other steps -----------------------------------------------------------

    method TickCPU()
      requires Valid() && Partition(Abstract())
      modifies Fixed()
      ensures Valid() && Abstract() == TickedMachine(old(Abstract()))
    {
      WokenThreadsAreNotListed(Abstract());
      if mode == Busy {
        var expired := scheduler.Tick();
        if expired {
          SwitchToIdle();
        }
      }
    }

    method SysExec(path: Path)
      requires Valid() && Partition(Abstract()) && mode == Busy
      modifies Fixed()
      ensures Valid() && Abstract() == if path == Program then Executed(old(Abstract())) else old(Abstract())
    {
      if path == Program {
        WokenThreadsAreNotListed(Abstract());
        ExecuteAndYield();
      }
    }

    /** Control goes on elsewhere, with the thread that ran still on the processor, or with none. */
    method Go(next: Mode)
      requires Valid() && (next == Busy ==> occupied) && (next == Idle || next == Window ==> !occupied)
      modifies this`mode
      ensures Valid() && Abstract() == old(Abstract()).(mode := next)
    {
      mode := next;
    }

    /** executeCPU for a program, and then yieldCPU. */
    method ExecuteAndYield()
      requires Valid() && mode == Busy && (FirstFree(threads[..], 0) < MAX_THREAD ==> FirstFree(threads[..], 0) !in scheduler.run)
      modifies this`occupied, this`mode, threads, scheduler`run, scheduler.valid, scheduler.time, scheduler.prev, scheduler.next
      ensures Valid() && Abstract() == Executed(old(Abstract()))
    {
      var ok := AddToPool(current);
      if ok { YieldCPU(); } else { Go(Halted(true)); }
    }

    method ExitFromCPU()
      requires Valid() && Partition(Abstract()) && mode == Busy
      modifies Fixed()
      ensures Valid() && Abstract() == ExitedMachine(old(Abstract()))
    {
      WokenThreadsAreNotListed(Abstract());
      Put(current, threads[current].(occupied := false));
      scheduler.Exit(current);
      if threads[current].wait != -1 {
        WakeupCPU(threads[current].wait);
      }
      SwitchToIdle();
    }

    method SwitchTo(tid: Tid)
      requires Valid()
      modifies this`occupied, this`current, this`mode
      ensures Valid() && occupied && Abstract() == old(Abstract()).(current := tid, mode := Busy)
    {
      occupied, current, mode := true, tid, Busy;
    }

    /** One pass of the idle loop. */
    method IdleMain()
      requires Valid() && Partition(Abstract()) && mode == Idle
      modifies Fixed(), waitQueue.Repr, buf
      ensures Valid() && Abstract() == Dispatched(old(Abstract()))
    {
      var tid := AcquireFromPool();
      if tid != -1 {
        SwitchTo(tid);
        if threads[tid].inPop {
          var _ := PopChar();
        }
      } else {
        Go(Window);
      }
    }

    /** One trap, or one pass of the idle loop: the machine takes the step, and every thread is still in one place. */
    method Step(e: Event)
      requires Valid() && Partition(Abstract()) && Enabled(Abstract(), e)
      modifies Fixed(), waitQueue.Repr, buf.Repr
      ensures Valid() && Abstract() == Next(old(Abstract()), e) && Partition(Abstract())
    {
      StepKeepsPartition(Abstract(), e);
      match e
      case Key(ch) => Key(ch);
      case Tick => TickCPU();
      case Read => var _ := PopChar();
      case Exec(path) => SysExec(path);
      case Exit => ExitFromCPU();
      case Dispatch => IdleMain();
      case Resume => Go(Idle);
      case OutOfMemory => Go(Halted(mode == Busy));
    }
  }
}
