/**
 The tables of kernel/task.c and kernel/semaphore.c with the code that updates them in place.
 Every method is tied to the step of `KernelState` it performs.
 */
module KernelTables {
  import opened KernelState
  import opened KernelInvariant
  import opened Rings
  import opened KernelCalls
  import Scheduler

  /** An entry of `semtable`: the queue is a ring of `num` tids starting at `head`. */
  datatype SemEntry = SemEntry(used: bool, semcount: int, head: int, num: int, que: seq<int>)

  ghost predicate RingOK(e: SemEntry) {
    |e.que| == NSEMQUEUE && 0 <= e.head < NSEMQUEUE && 0 <= e.num <= NSEMQUEUE
  }

  ghost function Meaning(e: SemEntry): (s: Sem)
    requires RingOK(e)
  {
    Sem(e.used, e.semcount, Ring(e.que, e.head, e.num))
  }

  ghost function Meanings(es: seq<SemEntry>): (r: seq<Sem>)
    requires forall i | 0 <= i < |es| :: RingOK(es[i])
    ensures |r| == |es| && forall i | 0 <= i < |es| :: r[i] == Meaning(es[i])
  {
    seq(|es|, i requires 0 <= i < |es| => Meaning(es[i]))
  }

  class Tables {
    const threads: array<Thread>
    const dict: array<int>
    const semtable: array<SemEntry>
    var cur: int
    var tidGlobal: int
    var cells: map<int, int>
    var tick: int
    var previousInterrupt: int
    var timerPeriod: nat

    ghost predicate Shape()
      reads this, semtable
    {
      && threads.Length == THREAD_NUM && dict.Length == THREAD_NUM && semtable.Length == NSEM
      && 0 <= cur < THREAD_NUM
      && forall i | 0 <= i < NSEM :: RingOK(semtable[i])
    }

    ghost function State(): (s: Kernel)
      reads this, threads, dict, semtable
      requires Shape()
      ensures Shaped(s)
    {
      Kernel(threads[..], dict[..], cur, tidGlobal, Meanings(semtable[..]), cells)
    }

    // ---------------------------------------------------------------- threads

    /** The tables as loaded, and `threads_init`. */
    constructor ()
      ensures Shape() && Unbooted(State()) && fresh(threads) && fresh(dict) && fresh(semtable)
    {
      threads := new Thread[THREAD_NUM](_ => EMPTY_THREAD);
      dict := new int[THREAD_NUM](i => if i == 0 then -1 else 0);
      semtable := new SemEntry[NSEM](_ => SemEntry(false, 0, 0, 0, seq(NSEMQUEUE, _ => 0)));
      cur := 0;
      tidGlobal := 0;
      cells := map[];
      tick, previousInterrupt, timerPeriod := 0, 0, 0;
    }

    method SearchIndexFromTid(tid: int) returns (ret: int)
      requires Shape()
      ensures ret == Search(dict[..], tid)
    {
      for i := 0 to THREAD_NUM
        invariant Search(dict[..], tid) == Search(dict[..], tid, i)
      {
        if dict[i] == tid {
          return i;
        }
      }
      return -1;
    }

    method ChangeThreadState(tid: int, state: RunState)
      requires Shape() && Search(dict[..], tid) != -1
      modifies threads
      ensures Shape() && State() == ChangeState(old(State()), tid, state)
    {
      var i := SearchIndexFromTid(tid);
      threads[i] := threads[i].(state := state);
    }

    /**
     `thread_register`, and `thread_run` but for the state and the result: the first dead slot
     receives the thread, whose parent is read through the dictionary before it is updated.
     */
    method ThreadRegister(state: RunState, sidPtr: int) returns (r: int)
      requires Shape()
      modifies this`tidGlobal, threads, dict
      ensures Shape() && State() == Register(old(State()), state, sidPtr)
      ensures r == FirstDead(old(threads[..]))
    {
      for i := 0 to THREAD_NUM
        invariant State() == old(State())
        invariant FirstDead(threads[..]) == FirstDead(threads[..], i)
      {
        if threads[i].state == DEAD {
          threads[i] := Thread(state, threads[i].tid, threads[i].ptid, i, sidPtr);
          threads[i] := threads[i].(ptid := dict[cur]);
          threads[i] := threads[i].(tid := tidGlobal);
          dict[i] := threads[i].tid;
          tidGlobal := tidGlobal + 1;
          return i;
        }
      }
      return -1;
    }

    /** The table part of `thread_end`. */
    method ThreadEnd(i: int)
      requires Shape() && 0 <= i < THREAD_NUM
      modifies threads, dict
      ensures Shape() && State() == ClearEntry(ClearSlot(old(State()), i), i)
      ensures threads[..] == old(threads[..])[i := EMPTY_THREAD] && dict[..] == old(dict[..])[i := -1]
    {
      threads[i] := EMPTY_THREAD;
      dict[i] := -1;
    }

    /** `thread_scheduler` up to the stack switch; it spins for ever when nothing is runnable. */
    method ThreadScheduler()
      requires Shape() && SomeRunnable(threads[..])
      modifies this`cur
      ensures Shape() && Scheduled(old(State()), State())
      ensures Scheduler.Nearest(threads[..], old(cur), cur)
    {
      ghost var t :| 0 <= t < THREAD_NUM && threads[t].state == RUNNABLE;
      ghost var far := if t > cur then t - cur else t - cur + THREAD_NUM;
      assert Slot(cur, far) == t;
      var i := 1;
      while true
        invariant 1 <= i <= far
        invariant forall j | 1 <= j < i :: threads[Slot(cur, j)].state != RUNNABLE
        decreases far - i
      {
        if threads[(cur + i) % THREAD_NUM].state == RUNNABLE {
          assert IsNext(threads[..], cur, Slot(cur, i), i);
          Scheduler.NextIsNearest(threads[..], cur, Slot(cur, i), i);
          cur := (cur + i) % THREAD_NUM;
          return;
        }
        i := i + 1;
      }
    }

    ghost function Clock(): (c: Scheduler.Clock)
      reads this
    {
      Scheduler.Clock(tick, previousInterrupt, cur)
    }

    /** `timer_handler`. */
    method TimerHandler()
      requires Shape()
      requires tick + 1 > previousInterrupt + timerPeriod && tick + 1 > 90 ==> SomeRunnable(threads[..])
      modifies this`tick, this`previousInterrupt, this`cur
      ensures Shape() && Scheduler.Handled(old(Clock()), Clock(), threads[..], timerPeriod)
      ensures State() == old(State()).(cur := cur)
      ensures tick == old(tick) + 1
      ensures if tick > old(previousInterrupt) + timerPeriod && tick > 90
        then previousInterrupt == tick && Scheduler.Nearest(threads[..], old(cur), cur)
        else previousInterrupt == old(previousInterrupt) && cur == old(cur)
    {
      tick := tick + 1;
      if tick > previousInterrupt + timerPeriod && tick > 90 {
        previousInterrupt := tick;
        ThreadScheduler();
      }
    }

    // ---------------------------------------------------------------- semaphores

    /** Appends to the ring, or refuses when it is full. */
    method EnqueueSem(tid: int, sem: int) returns (ok: bool)
      requires Shape() && !BadSem(sem)
      modifies semtable
      ensures Shape()
      ensures ok == (old(semtable[sem].num) < NSEMQUEUE)
      ensures var s := old(State()); State() == if ok
        then s.(sems := s.sems[sem := s.sems[sem].(queue := s.sems[sem].queue + [tid])]) else s
    {
      var que := semtable[sem];
      if que.num < NSEMQUEUE {
        var at := (que.head + que.num) % NSEMQUEUE;
        semtable[sem] := que.(que := que.que[at := tid], num := que.num + 1);
        assert Meaning(semtable[sem]).queue == old(Meaning(semtable[sem]).queue) + [tid];
        assert State().sems == old(State()).sems[sem := Meaning(semtable[sem])];
        ok := true;
      } else {
        ok := false;
      }
    }

    /** Takes the tid at the head of the ring, unless it is empty. */
    method DequeueSem(sem: int) returns (ok: bool, tid: int)
      requires Shape() && !BadSem(sem)
      modifies semtable
      ensures Shape()
      ensures ok == (old(State()).sems[sem].queue != [])
      ensures ok ==> tid == old(State()).sems[sem].queue[0]
      ensures var s := old(State()); State() == if ok
        then s.(sems := s.sems[sem := s.sems[sem].(queue := s.sems[sem].queue[1..])]) else s
    {
      var que := semtable[sem];
      if que.num > 0 {
        tid := que.que[que.head];
        semtable[sem] := que.(head := (que.head + 1) % NSEMQUEUE, num := que.num - 1);
        assert Meaning(semtable[sem]).queue == old(Meaning(semtable[sem]).queue)[1..];
        assert State().sems == old(State()).sems[sem := Meaning(semtable[sem])];
        ok := true;
      } else {
        ok, tid := false, -1;
      }
    }

    /** `newsem`: claims the first free entry; its count and queue are whatever they were. */
    method NewSem() returns (r: int)
      requires Shape()
      modifies semtable
      ensures Shape() && r == FirstFree(old(State()).sems)
      ensures r == -1 ==> semtable[..] == old(semtable[..])
      ensures r != -1 ==> semtable[..] == old(semtable[..])[r := old(semtable[..])[r].(used := true)]
    {
      for i := 0 to NSEM
        invariant semtable[..] == old(semtable[..])
        invariant FirstFree(Meanings(semtable[..])) == FirstFree(Meanings(semtable[..]), i)
      {
        if !semtable[i].used {
          semtable[i] := semtable[i].(used := true);
          return i;
        }
      }
      return -1;
    }

    method CreateSemaphore(initCount: int) returns (r: int)
      requires Shape()
      modifies semtable
      ensures Shape() && (State(), r) == CreateSem(old(State()), initCount)
    {
      if initCount < 0 {
        return -1;
      }
      var sid := NewSem();
      if sid < 0 {
        return -1;
      }
      semtable[sid] := semtable[sid].(semcount := initCount);
      for i := 0 to NSEMQUEUE
        invariant Shape() && semtable[sid].used && semtable[sid].semcount == initCount
        invariant forall k | 0 <= k < NSEM && k != sid :: semtable[k] == old(semtable[k])
      {
        semtable[sid] := semtable[sid].(que := semtable[sid].que[i := -1]);
      }
      semtable[sid] := semtable[sid].(head := 0, num := 0);
      assert Meaning(semtable[sid]).queue == [];
      assert State().sems == old(State()).sems[sid := Sem(true, initCount, [])];
      return sid;
    }

    /** `wait` past its guards and before the scheduler: `blocked` says whether the caller was queued. */
    method PayOrBlock(sem: int) returns (r: int, blocked: bool)
      requires Shape() && Inv(State()) && UsedSem(State(), sem)
      requires Search(dict[..], dict[cur]) != -1
      modifies this`cells, threads, semtable
      ensures Shape() && State() == Block(old(State()), sem)
      ensures blocked == (old(State()).sems[sem].count <= 0 && !QueueFull(old(State()), sem))
      ensures r == if QueueFull(old(State()), sem) then 0 else 1
    {
      ghost var s := State();
      semtable[sem] := semtable[sem].(semcount := semtable[sem].semcount - 1);
      assert State().sems == s.sems[sem := s.sems[sem].(count := s.sems[sem].count - 1)];
      r, blocked := 1, false;
      if semtable[sem].semcount < 0 {
        var tid := dict[cur];
        ChangeThreadState(tid, WAIT);
        var i := SearchIndexFromTid(tid);
        cells := cells[threads[i].sidPtr := sem];
        blocked := EnqueueSem(tid, sem);
        if !blocked {
          r := 0;
        }
      }
    }

    /** The caller is the running thread; when it blocks, something else must be runnable. */
    method Wait(sem: int) returns (r: int)
      requires Shape() && Inv(State())
      requires UsedSem(State(), sem) && State().sems[sem].count <= 0 && !QueueFull(State(), sem) ==>
        SomeRunnable(threads[..][cur := EMPTY_THREAD])
      modifies this`cur, this`cells, threads, semtable
      ensures Shape() && Waited(old(State()), sem, State(), r)
      ensures Inv(State()) <==> !old(QueueFull(State(), sem))
      ensures UsedSem(old(State()), sem) && old(State()).sems[sem].count <= 0 && |old(State()).sems[sem].queue| < 30 ==>
        cur != old(cur) && Scheduler.Nearest(threads[..], old(cur), cur)
      ensures r == 1 <==> UsedSem(old(State()), sem) && !QueueFull(old(State()), sem)
    {
      ghost var s := State();
      CallerIsFound(s);
      if BadSem(sem) {
        return 0;
      }
      if !semtable[sem].used {
        return 0;
      }
      var blocked;
      r, blocked := PayOrBlock(sem);
      if blocked {
        ghost var i :| 0 <= i < THREAD_NUM && s.threads[s.cur := EMPTY_THREAD][i].state == RUNNABLE;
        assert State().threads[i].state == RUNNABLE;
        ThreadScheduler();
      }
      WaitKeepsInv(s, sem, State(), r);
      WaitMeans(s, sem, State(), r);
    }

    method Signal(sem: int) returns (r: int)
      requires Shape() && Inv(State())
      modifies this`cur, this`cells, threads, semtable
      ensures Shape() && Inv(State())
      ensures UsedSem(old(State()), sem) && old(State()).sems[sem].count < 0 ==>
        old(State()).sems[sem].queue != [] && Search(old(State()).dict, old(State()).sems[sem].queue[0]) != -1
      ensures Signalled(old(State()), sem, State(), r)
      ensures UsedSem(old(State()), sem) && old(State()).sems[sem].count < 0 ==>
        cur != old(cur) && Scheduler.Nearest(threads[..], old(cur), cur)
    {
      ghost var s := State();
      if BadSem(sem) {
        return 0;
      }
      if !semtable[sem].used {
        return 0;
      }
      if semtable[sem].semcount < 0 {
        WaiterIsFound(s, sem);
        semtable[sem] := semtable[sem].(semcount := semtable[sem].semcount + 1);
        assert State().sems == s.sems[sem := s.sems[sem].(count := s.sems[sem].count + 1)];
        var ok, tid := DequeueSem(sem);
        if !ok {
          return 0;
        }
        ChangeThreadState(tid, RUNNABLE);
        assert State() == Unblock(s, sem);
        assert threads[Search(s.dict, tid)].state == RUNNABLE;
        ThreadScheduler();
      }
      SignalKeepsInv(s, sem, State(), 1);
      ghost var w := SignalMeans(s, sem, State(), 1);
      return 1;
    }

    /**
     `delete_sem`. Its guards test the opposite of what its callers want, so for an identifier
     in range it returns 0 and does nothing. (Out of range it goes on to read past the table.)
     */
    method DeleteSem(sem: int) returns (r: int)
      requires Shape() && !BadSem(sem)
      ensures r == 0
    {
      if !BadSem(sem) {
        return 0;
      }
      return 1;
    }

    /** The part of `delete_sem` behind its guards: the entry is freed and every waiter made runnable. */
    method WakeAll(sem: int)
      requires Shape() && Inv(State()) && UsedSem(State(), sem)
      modifies threads, semtable
      ensures Shape() && Inv(State())
      ensures State() == Woke(old(State()), sem, |old(State()).sems[sem].queue|)
    {
      ghost var s := State();
      semtable[sem] := semtable[sem].(used := false);
      var n := semtable[sem].num;
      assert State() == Woke(s, sem, 0);
      for i := 0 to n
        invariant Shape() && State() == Woke(s, sem, i)
      {
        WokeStep(s, sem, i);
        var ok, tid := DequeueSem(sem);
        ChangeThreadState(tid, RUNNABLE);
      }
      WokeKeepsInv(s, sem);
    }
  }
}
