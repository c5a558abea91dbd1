/**
 What each kernel call does, field by field: the steps of `KernelState` in the words of the
 tables, for every state that satisfies the invariant.
 */
module KernelCalls {
  import opened KernelState
  import opened KernelInvariant
  import opened Scheduler

  /** The caller of `wait` pays; with nothing left it sleeps at the end of the queue, and the next thread runs. */
  lemma WaitMeans(s: Kernel, sid: int, s': Kernel, r: int)
    requires Inv(s) && Shaped(s') && Waited(s, sid, s', r)
    ensures !(0 <= sid < NSEM && s.sems[sid].used) ==> s' == s && r == 0
    ensures 0 <= sid < NSEM && s.sems[sid].used && s.sems[sid].count > 0 ==>
      r == 1 && s' == s.(sems := s.sems[sid := s.sems[sid].(count := s.sems[sid].count - 1)])
    ensures 0 <= sid < NSEM && s.sems[sid].used && s.sems[sid].count <= 0 ==>
      && s'.threads == s.threads[s.cur := s.threads[s.cur].(state := WAIT)]
      && s'.cells == s.cells[s.threads[s.cur].sidPtr := sid]
      && s'.dict == s.dict && s'.tidGlobal == s.tidGlobal
      && (forall k | 0 <= k < NSEM && k != sid :: s'.sems[k] == s.sems[k])
      && s'.sems[sid].used && s'.sems[sid].count == s.sems[sid].count - 1
    ensures 0 <= sid < NSEM && s.sems[sid].used && s.sems[sid].count <= 0 && |s.sems[sid].queue| < 30 ==>
      && r == 1 && s'.sems[sid].queue == s.sems[sid].queue + [s.threads[s.cur].tid]
      && s'.cur != s.cur && Nearest(s'.threads, s.cur, s'.cur)
    ensures 0 <= sid < NSEM && s.sems[sid].used && s.sems[sid].count <= 0 && |s.sems[sid].queue| >= 30 ==>
      r == 0 && s'.sems[sid].queue == s.sems[sid].queue && s'.cur == s.cur
  {
    CallerIsFound(s);
    assert Live(s, s.cur);
    if UsedSem(s, sid) && s.sems[sid].count <= 0 && !QueueFull(s, sid) {
      var i :| IsNext(Block(s, sid).threads, s.cur, s'.cur, i);
      NextIsNearest(s'.threads, s.cur, s'.cur, i);
    }
  }

  /** A `signal` somebody waits for wakes exactly the one that waits longest, and the next thread runs. */
  lemma SignalMeans(s: Kernel, sid: int, s': Kernel, r: int) returns (w: int)
    requires Inv(s) && Shaped(s')
    requires UsedSem(s, sid) && s.sems[sid].count < 0 ==>
      s.sems[sid].queue != [] && Search(s.dict, s.sems[sid].queue[0]) != -1
    requires Signalled(s, sid, s', r)
    ensures r == if 0 <= sid < NSEM && s.sems[sid].used then 1 else 0
    ensures !(0 <= sid < NSEM && s.sems[sid].used && s.sems[sid].count < 0) ==> s' == s
    ensures 0 <= sid < NSEM && s.sems[sid].used && s.sems[sid].count < 0 ==>
      && s.sems[sid].queue != [] && 0 <= w < THREAD_NUM
      && s.threads[w].state == WAIT && s.threads[w].tid == s.sems[sid].queue[0]
      && s'.threads == s.threads[w := s.threads[w].(state := RUNNABLE)]
      && s'.sems == s.sems[sid := Sem(true, s.sems[sid].count + 1, s.sems[sid].queue[1..])]
      && s'.dict == s.dict && s'.tidGlobal == s.tidGlobal && s'.cells == s.cells
      && s'.cur != s.cur && Nearest(s'.threads, s.cur, s'.cur)
  {
    w := -1;
    if UsedSem(s, sid) && s.sems[sid].count < 0 {
      WaiterIsFound(s, sid);
      w := Search(s.dict, s.sems[sid].queue[0]);
      var i :| IsNext(Unblock(s, sid).threads, s.cur, s'.cur, i);
      NextIsNearest(s'.threads, s.cur, s'.cur, i);
      ChoosesItself(s'.threads, s.cur, s'.cur, i);
      assert w != s.cur && s'.threads[w].state == RUNNABLE;
    }
  }

  /** `create_sem` claims the first free entry for the count it is given, or changes nothing. */
  lemma CreateMeans(s: Kernel, initCount: int)
    requires Shaped(s)
    ensures var (s', sid) := CreateSem(s, initCount);
      && (sid == -1 <==> initCount < 0 || forall k | 0 <= k < NSEM :: s.sems[k].used)
      && (sid == -1 ==> s' == s)
      && (sid != -1 ==>
            && 0 <= sid < NSEM && !s.sems[sid].used && (forall k | 0 <= k < sid :: s.sems[k].used)
            && s' == s.(sems := s.sems[sid := Sem(true, initCount, [])]))
  {
  }

  /** The new thread is the caller's child, has a tid nobody has, and every search finds who it should. */
  lemma RegisterMeans(s: Kernel, state: RunState, sidPtr: int) returns (i: int)
    requires Inv(s) && state in {RUNNABLE, SLEEP}
    ensures var s' := Register(s, state, sidPtr);
      && (i == -1 ==> s' == s && forall j | 0 <= j < THREAD_NUM :: s.threads[j].state != DEAD)
      && (i != -1 ==>
            && 0 <= i < THREAD_NUM && s.threads[i].state == DEAD
            && (forall j | 0 <= j < i :: s.threads[j].state != DEAD)
            && s'.threads == s.threads[i := Thread(state, s.tidGlobal, s.threads[s.cur].tid, i, sidPtr)]
            && s'.cur == s.cur && s'.sems == s.sems && s'.cells == s.cells && s'.tidGlobal == s.tidGlobal + 1)
    ensures var s' := Register(s, state, sidPtr);
      forall j | Live(s', j) :: Search(s'.dict, s'.threads[j].tid) == j && (Live(s, j) ==> s'.threads[j].tid != s.tidGlobal)
  {
    i := FirstDead(s.threads);
    var s' := Register(s, state, sidPtr);
    assert Live(s, s.cur);
    RegisterKeepsInv(s, state, sidPtr);
    forall j | Live(s', j)
      ensures Search(s'.dict, s'.threads[j].tid) == j && (Live(s, j) ==> s'.threads[j].tid != s.tidGlobal)
    {
      SearchFindsLive(s', j);
    }
  }

  /** The start of a child changes its state and who runs, and nothing else. */
  lemma StartMeans(s: Kernel, i: int)
    requires Inv(s) && 0 <= i < THREAD_NUM && s.threads[i].state == SLEEP
    ensures var s' := StartChild(s, i);
      && s'.cur == i && i != s.cur && s'.threads[i] == s.threads[i].(state := RUNNABLE)
      && |s'.threads| == THREAD_NUM
      && (forall j | 0 <= j < THREAD_NUM && j != i :: s'.threads[j] == s.threads[j])
      && s'.dict == s.dict && s'.sems == s.sems && s'.cells == s.cells && s'.tidGlobal == s.tidGlobal
  {
  }

  /**
   After both stores of `thread_end` its tid is found no more; between them it is. The first
   thread is the exception: its tid, 0, is also what slots that were never used are loaded with.
   */
  lemma EndedIsForgotten(s: Kernel)
    requires Inv(s)
    ensures Search(ClearSlot(s, s.cur).dict, s.threads[s.cur].tid) == s.cur
    ensures Search(ClearEntry(ClearSlot(s, s.cur), s.cur).dict, s.threads[s.cur].tid) == -1
      <==> s.threads[s.cur].tid != 0 || forall j | 0 <= j < THREAD_NUM && j != s.cur :: s.dict[j] != 0
  {
    var tid := s.threads[s.cur].tid;
    var s' := ClearEntry(ClearSlot(s, s.cur), s.cur);
    assert Live(s, s.cur);
    SearchFindsLive(s, s.cur);
    forall j | 0 <= j < THREAD_NUM && j != s.cur ensures s.dict[j] == tid ==> tid == 0 {
      assert Live(s, j) || s.dict[j] == 0 || Stale(s, s.dict[j]);
    }
    var r := Search(s'.dict, tid);
    if r != -1 {
      assert s.dict[r] == tid;
    } else {
      assert forall j | 0 <= j < THREAD_NUM && j != s.cur :: s'.dict[j] == s.dict[j];
    }
  }

  /** Freeing a semaphore makes exactly its waiters runnable. */
  lemma WokeMeans(s: Kernel, sid: int)
    requires Inv(s) && 0 <= sid < NSEM && s.sems[sid].used
    ensures var s' := Woke(s, sid, |s.sems[sid].queue|);
      && s' == s.(threads := s'.threads, sems := s.sems[sid := Sem(false, s.sems[sid].count, [])])
      && |s'.threads| == THREAD_NUM
      && forall i | 0 <= i < THREAD_NUM ::
           if s.threads[i].state == WAIT && s.threads[i].tid in s.sems[sid].queue
           then s'.threads[i] == s.threads[i].(state := RUNNABLE) else s'.threads[i] == s.threads[i]
  {
    var queue := s.sems[sid].queue;
    assert queue[..|queue|] == queue && queue[|queue|..] == [];
  }
}
