/**
 Every kernel call keeps the system invariant, except a `wait` that finds the queue full.
 */
module KernelInvariant {
  import opened KernelState

  /** Registration needs only the table; before the first one every slot is dead. */
  lemma RegisterKeepsTable(s: Kernel, state: RunState, sidPtr: int)
    requires Shaped(s) && TableOK(s) && state != DEAD
    ensures TableOK(Register(s, state, sidPtr))
  {
    var s' := Register(s, state, sidPtr);
    var i := FirstDead(s.threads);
    if i != -1 {
      assert s.tidGlobal == 0 ==> !Live(s, 0);
      forall j | Live(s', j) && j != i ensures Live(s, j) { }
      forall j | 0 <= j < THREAD_NUM && !Live(s', j) ensures !Live(s, j) { }
    }
  }

  /** Threads other than slot `i` are as before, and slot `i` neither was nor is waiting. */
  ghost predicate SameWaiters(s: Kernel, s': Kernel)
    requires Shaped(s) && Shaped(s')
  {
    && s'.sems == s.sems
    && (forall i | Live(s, i) && s.threads[i].state == WAIT :: Live(s', i) && s'.threads[i] == s.threads[i])
    && (forall i | Live(s', i) && s'.threads[i].state == WAIT :: Live(s, i) && s.threads[i] == s'.threads[i])
  }

  lemma SameWaitersKeepSems(s: Kernel, s': Kernel)
    requires Shaped(s) && Shaped(s') && SemsOK(s) && SameWaiters(s, s')
    ensures SemsOK(s')
  {
    forall k, p, tid {:trigger At(s', k, p, tid)} | At(s', k, p, tid) ensures WaitingTid(s', tid) {
      assert At(s, k, p, tid);
      var i :| Live(s, i) && s.threads[i].state == WAIT && s.threads[i].tid == tid;
      assert Live(s', i);
    }
    forall i {:trigger Live(s', i)} | Live(s', i) && s'.threads[i].state == WAIT
      ensures QueuedTid(s', s'.threads[i].tid)
    {
      assert Live(s, i);
      var k, p :| At(s, k, p, s.threads[i].tid);
      assert At(s', k, p, s.threads[i].tid);
    }
    forall k, p, k', p', tid | At(s', k, p, tid) && At(s', k', p', tid) ensures k == k' && p == p' {
      assert At(s, k, p, tid) && At(s, k', p', tid);
    }
  }

  lemma RegisterKeepsInv(s: Kernel, state: RunState, sidPtr: int)
    requires Inv(s) && state in {RUNNABLE, SLEEP}
    ensures Inv(Register(s, state, sidPtr))
  {
    assert Live(s, s.cur);
    RegisterKeepsTable(s, state, sidPtr);
    SameWaitersKeepSems(s, Register(s, state, sidPtr));
  }

  lemma ScheduleKeepsInv(s: Kernel, s': Kernel)
    requires Shaped(s) && TableOK(s) && SemsOK(s) && Scheduled(s, s')
    ensures Inv(s')
  {
    SameWaitersKeepSems(s, s');
    forall i ensures Live(s', i) == Live(s, i) { }
  }

  /** The first thread goes into slot 0 and can run. */
  lemma BootEstablishesInv(s: Kernel, sidPtr: int)
    requires Unbooted(s)
    ensures Inv(Register(s, RUNNABLE, sidPtr))
    ensures var s' := Register(s, RUNNABLE, sidPtr);
      && s'.threads[0] == Thread(RUNNABLE, 0, -1, 0, sidPtr) && s'.cur == 0 && s'.tidGlobal == 1
      && forall i | 0 < i < THREAD_NUM :: s'.threads[i].state == DEAD
  {
    var s' := Register(s, RUNNABLE, sidPtr);
    assert TableOK(s);
    RegisterKeepsTable(s, RUNNABLE, sidPtr);
    assert !Live(s, 0);
    assert FirstDead(s.threads) == 0;
    SameWaitersKeepSems(s, s');
  }

  /** A registered child of the running thread starts. */
  lemma StartChildKeepsInv(s: Kernel, i: int)
    requires Inv(s) && 0 <= i < THREAD_NUM && s.threads[i].state == SLEEP
    ensures Inv(StartChild(s, i))
  {
    var s' := StartChild(s, i);
    assert TableOK(s') by {
      forall j ensures Live(s', j) == Live(s, j) { }
      forall d ensures Stale(s', d) == Stale(s, d) { StaleAlike(s, s', d); }
    }
    SameWaitersKeepSems(s, s');
  }

  lemma StaleAlike(s: Kernel, s': Kernel, d: int)
    requires Shaped(s) && Shaped(s') && s'.tidGlobal == s.tidGlobal
    requires forall j | 0 <= j < THREAD_NUM :: Live(s', j) == Live(s, j) && s'.threads[j].tid == s.threads[j].tid
    ensures Stale(s', d) == Stale(s, d)
  {
    if Stale(s, d) {
      forall j | Live(s', j) ensures s'.threads[j].tid != d {
        assert Live(s, j);
      }
    }
    if Stale(s', d) {
      forall j | Live(s, j) ensures s.threads[j].tid != d {
        assert Live(s', j);
      }
    }
  }

  /** The running thread gives up its slot; its tid becomes stale. */
  lemma ClearSlotKeepsSound(s: Kernel)
    requires Inv(s)
    ensures Sound(ClearSlot(s, s.cur)) && Dying(ClearSlot(s, s.cur))
  {
    var s' := ClearSlot(s, s.cur);
    forall j ensures Live(s', j) == (Live(s, j) && j != s.cur) { }
    assert Live(s, s.cur);
    assert TableOK(s') by {
      forall j | 0 <= j < THREAD_NUM && !Live(s', j) ensures s'.dict[j] == 0 || Stale(s', s'.dict[j]) {
        if j != s.cur && s.dict[j] != 0 {
          assert Stale(s, s.dict[j]);
        }
      }
    }
    SameWaitersKeepSems(s, s');
  }

  /** The dictionary entry of a dead slot is cleared. */
  lemma ClearEntryKeepsSound(s: Kernel)
    requires Sound(s) && Dying(s)
    ensures Sound(ClearEntry(s, s.cur))
  {
    var s' := ClearEntry(s, s.cur);
    forall j ensures Live(s', j) == Live(s, j) { }
    assert TableOK(s') by {
      forall d ensures Stale(s', d) == Stale(s, d) { StaleAlike(s, s', d); }
      assert Stale(s', -1);
    }
    SameWaitersKeepSems(s, s');
  }

  /** A fresh semaphore has no waiters. */
  lemma CreateSemKeepsInv(s: Kernel, initCount: int)
    requires Inv(s)
    ensures Inv(CreateSem(s, initCount).0)
  {
    var s' := CreateSem(s, initCount).0;
    forall i ensures Live(s', i) == Live(s, i) { }
    forall k, p, tid ensures At(s', k, p, tid) == At(s, k, p, tid) { }
    forall tid ensures WaitingTid(s', tid) == WaitingTid(s, tid) { WaitingAlike(s, s', tid); }
    forall tid ensures QueuedTid(s', tid) == QueuedTid(s, tid) { QueuedAlike(s, s', tid); }
  }

  lemma WaitingAlike(s: Kernel, s': Kernel, tid: int)
    requires Shaped(s) && Shaped(s') && s'.threads == s.threads
    ensures WaitingTid(s', tid) == WaitingTid(s, tid)
  {
    forall i ensures Live(s', i) == Live(s, i) { }
  }

  lemma QueuedAlike(s: Kernel, s': Kernel, tid: int)
    requires Shaped(s) && Shaped(s') && forall k, p :: At(s', k, p, tid) == At(s, k, p, tid)
    ensures QueuedTid(s', tid) == QueuedTid(s, tid)
  {
  }

  /** The caller of `wait` is known to the dictionary. */
  lemma CallerIsFound(s: Kernel)
    requires Inv(s)
    ensures Search(s.dict, s.dict[s.cur]) == s.cur
    ensures forall k, p :: !At(s, k, p, s.dict[s.cur])
  {
    assert Live(s, s.cur);
    SearchFindsLive(s, s.cur);
    forall k, p ensures !At(s, k, p, s.dict[s.cur]) {
      assert At(s, k, p, s.dict[s.cur]) ==> WaitingTid(s, s.dict[s.cur]);
    }
  }

  /** Passing without blocking. */
  lemma PassKeepsInv(s: Kernel, sid: int)
    requires Inv(s) && UsedSem(s, sid) && s.sems[sid].count > 0 && Search(s.dict, s.dict[s.cur]) != -1
    ensures Inv(Block(s, sid))
  {
    var s' := Block(s, sid);
    forall i ensures Live(s', i) == Live(s, i) { }
    forall k, p, tid ensures At(s', k, p, tid) == At(s, k, p, tid) { }
    forall tid ensures WaitingTid(s', tid) == WaitingTid(s, tid) { WaitingAlike(s, s', tid); }
    forall tid ensures QueuedTid(s', tid) == QueuedTid(s, tid) { QueuedAlike(s, s', tid); }
  }

  /** Thread `j` is as it was, except perhaps for its state among those of live threads. */
  ghost predicate SameThread(s: Kernel, s': Kernel, j: int)
    requires Shaped(s) && Shaped(s') && 0 <= j < THREAD_NUM
  {
    && Live(s', j) == Live(s, j) && s'.threads[j].tid == s.threads[j].tid
    && s'.threads[j].index == s.threads[j].index
  }

  /** Changing the states of live threads leaves the thread table consistent. */
  lemma SameThreadsKeepTable(s: Kernel, s': Kernel)
    requires Shaped(s) && Shaped(s') && TableOK(s) && s'.dict == s.dict && s'.tidGlobal == s.tidGlobal
    requires forall j {:trigger SameThread(s, s', j)} | 0 <= j < THREAD_NUM :: SameThread(s, s', j)
    ensures TableOK(s') && forall j :: Live(s', j) == Live(s, j)
  {
    forall j ensures Live(s', j) == Live(s, j) {
      assert 0 <= j < THREAD_NUM ==> SameThread(s, s', j);
    }
    forall j | Live(s', j) ensures s'.threads[j].tid == s.threads[j].tid && s'.threads[j].index == s.threads[j].index {
      assert SameThread(s, s', j);
    }
    forall i, j | Live(s', i) && Live(s', j) && s'.threads[i].tid == s'.threads[j].tid ensures i == j {
      assert Live(s, i) && Live(s, j);
    }
    forall i | 0 <= i < THREAD_NUM && !Live(s', i) ensures s'.dict[i] == 0 || Stale(s', s'.dict[i]) {
      assert !Live(s, i);
    }
  }

  /** Blocking leaves the thread table consistent. */
  lemma BlockKeepsThreads(s: Kernel, sid: int)
    requires Inv(s) && UsedSem(s, sid) && s.sems[sid].count <= 0
    requires Search(s.dict, s.dict[s.cur]) == s.cur
    ensures Shaped(Block(s, sid)) && TableOK(Block(s, sid))
    ensures forall i :: Live(Block(s, sid), i) == Live(s, i)
  {
    SameThreadsKeepTable(s, Block(s, sid));
  }

  /** The running thread is in no queue. */
  lemma CallerIsNowhere(s: Kernel, k: int, p: int)
    requires Inv(s)
    ensures !At(s, k, p, s.dict[s.cur])
  {
    assert Live(s, s.cur);
    assert !WaitingTid(s, s.dict[s.cur]);
  }

  /** The place behind the queue of `sid`, and the caller's tid. */
  ghost predicate CallerAt(s: Kernel, sid: int, k: int, p: int, tid: int)
    requires Shaped(s) && 0 <= sid < NSEM
  {
    k == sid && p == |s.sems[sid].queue| && tid == s.dict[s.cur]
  }

  /** It puts the caller at the end of the queue, and nothing else anywhere. */
  lemma BlockQueues(s: Kernel, sid: int)
    requires Inv(s) && UsedSem(s, sid) && s.sems[sid].count <= 0 && |s.sems[sid].queue| < NSEMQUEUE
    requires Search(s.dict, s.dict[s.cur]) == s.cur && Shaped(Block(s, sid))
    ensures forall k, p, tid :: At(Block(s, sid), k, p, tid) == (At(s, k, p, tid) || CallerAt(s, sid, k, p, tid))
  {
  }

  lemma BlockKeepsWaiters(s: Kernel, sid: int)
    requires Inv(s) && UsedSem(s, sid) && s.sems[sid].count <= 0 && |s.sems[sid].queue| < NSEMQUEUE
    requires Search(s.dict, s.dict[s.cur]) == s.cur && Shaped(Block(s, sid))
    ensures forall tid | WaitingTid(s, tid) || tid == s.dict[s.cur] :: WaitingTid(Block(s, sid), tid)
  {
    var s' := Block(s, sid);
    assert Live(s, s.cur);
    forall tid | WaitingTid(s, tid) || tid == s.dict[s.cur] ensures WaitingTid(s', tid) {
      if WaitingTid(s, tid) {
        var i :| Live(s, i) && s.threads[i].state == WAIT && s.threads[i].tid == tid;
        assert Live(s', i) && s'.threads[i] == s.threads[i];
      } else {
        assert Live(s', s.cur);
      }
    }
  }

  /** Blocking puts the caller in state WAIT and at the end of the queue. */
  lemma BlockKeepsTables(s: Kernel, sid: int)
    requires Inv(s) && UsedSem(s, sid) && s.sems[sid].count <= 0 && |s.sems[sid].queue| < NSEMQUEUE
    requires Search(s.dict, s.dict[s.cur]) == s.cur
    ensures var s' := Block(s, sid); Shaped(s') && TableOK(s') && SemsOK(s')
  {
    var s' := Block(s, sid);
    var me, last := s.dict[s.cur], |s.sems[sid].queue|;
    assert Live(s, s.cur);
    BlockKeepsThreads(s, sid);
    BlockQueues(s, sid);
    BlockKeepsWaiters(s, sid);
    forall k, p ensures !At(s, k, p, me) { CallerIsNowhere(s, k, p); }
    forall i {:trigger Live(s', i)} | Live(s', i) && s'.threads[i].state == WAIT
      ensures QueuedTid(s', s'.threads[i].tid)
    {
      if i == s.cur {
        assert At(s', sid, last, me);
      } else {
        var k, p :| At(s, k, p, s.threads[i].tid);
        assert At(s', k, p, s.threads[i].tid);
      }
    }
  }

  /** With the queue full the caller is in state WAIT but in no queue: nothing will ever wake it. */
  lemma FullQueueStrandsCaller(s: Kernel, sid: int)
    requires Inv(s) && QueueFull(s, sid) && Search(s.dict, s.dict[s.cur]) == s.cur
    ensures var s' := Block(s, sid);
      && Shaped(s') && s'.threads[s.cur].state == WAIT && s'.threads[s.cur].tid == s.dict[s.cur]
      && !QueuedTid(s', s.dict[s.cur]) && !SemsOK(s')
  {
    var s' := Block(s, sid);
    CallerIsFound(s);
    forall k, p ensures !At(s', k, p, s.dict[s.cur]) {
      assert !At(s, k, p, s.dict[s.cur]);
    }
    assert Live(s, s.cur) && Live(s', s.cur);
  }

  /** `wait` keeps the invariant exactly when it is not asked to queue a thread beyond `NSEMQUEUE`. */
  lemma WaitKeepsInv(s: Kernel, sid: int, s': Kernel, r: int)
    requires Inv(s) && Waited(s, sid, s', r)
    ensures Inv(s') <==> !QueueFull(s, sid)
  {
    CallerIsFound(s);
    if UsedSem(s, sid) {
      if s.sems[sid].count > 0 {
        PassKeepsInv(s, sid);
      } else if QueueFull(s, sid) {
        FullQueueStrandsCaller(s, sid);
      } else {
        BlockKeepsTables(s, sid);
        ScheduleKeepsInv(Block(s, sid), s');
      }
    }
  }

  /** A semaphore below zero has a waiter, and the dictionary finds it. */
  lemma WaiterIsFound(s: Kernel, sid: int)
    requires Inv(s) && UsedSem(s, sid) && s.sems[sid].count < 0
    ensures s.sems[sid].queue != []
    ensures var i := Search(s.dict, s.sems[sid].queue[0]);
      Live(s, i) && s.threads[i].state == WAIT && s.threads[i].tid == s.sems[sid].queue[0]
  {
    var tid := s.sems[sid].queue[0];
    assert At(s, sid, 0, tid);
    var i :| Live(s, i) && s.threads[i].state == WAIT && s.threads[i].tid == tid;
    SearchFindsLive(s, i);
  }

  /** Releasing the longest waiting thread. */
  lemma UnblockKeepsTables(s: Kernel, sid: int)
    requires Inv(s) && UsedSem(s, sid) && s.sems[sid].count < 0
    requires s.sems[sid].queue != [] && Search(s.dict, s.sems[sid].queue[0]) != -1
    ensures var s' := Unblock(s, sid); Shaped(s') && TableOK(s') && SemsOK(s')
  {
    var s' := Unblock(s, sid);
    var tid := s.sems[sid].queue[0];
    var slot := Search(s.dict, tid);
    WaiterIsFound(s, sid);
    assert At(s, sid, 0, tid);
    SameThreadsKeepTable(s, s');
    forall k, p, x | 0 <= p ensures At(s', k, p, x) == At(s, k, if k == sid then p + 1 else p, x) { }
    forall k, p, x {:trigger At(s', k, p, x)} | At(s', k, p, x) ensures WaitingTid(s', x) {
      assert At(s, k, if k == sid then p + 1 else p, x);
      var i :| Live(s, i) && s.threads[i].state == WAIT && s.threads[i].tid == x;
      assert i != slot;
      assert Live(s', i) && s'.threads[i] == s.threads[i];
    }
    forall i {:trigger Live(s', i)} | Live(s', i) && s'.threads[i].state == WAIT
      ensures QueuedTid(s', s'.threads[i].tid)
    {
      assert Live(s, i) && i != slot;
      var k, p :| At(s, k, p, s.threads[i].tid);
      assert At(s', k, if k == sid then p - 1 else p, s.threads[i].tid);
    }
    forall k, p, k', p', x | At(s', k, p, x) && At(s', k', p', x) ensures k == k' && p == p' {
      assert At(s, k, if k == sid then p + 1 else p, x) && At(s, k', if k' == sid then p' + 1 else p', x);
    }
  }

  lemma SignalKeepsInv(s: Kernel, sid: int, s': Kernel, r: int)
    requires Inv(s)
    requires UsedSem(s, sid) && s.sems[sid].count < 0 ==>
      s.sems[sid].queue != [] && Search(s.dict, s.sems[sid].queue[0]) != -1
    requires Signalled(s, sid, s', r)
    ensures Inv(s')
  {
    if UsedSem(s, sid) && s.sems[sid].count < 0 {
      UnblockKeepsTables(s, sid);
      ScheduleKeepsInv(Unblock(s, sid), s');
    }
  }

  /** Waking the waiters of a freed semaphore one after the other. */
  lemma WokeStep(s: Kernel, sid: int, j: nat)
    requires Inv(s) && !BadSem(sid) && j < |s.sems[sid].queue|
    ensures var t := Woke(s, sid, j); var queue := t.sems[sid].queue;
      && queue != [] && Search(t.dict, queue[0]) != -1
      && Woke(s, sid, j + 1) ==
         ChangeState(t.(sems := t.sems[sid := t.sems[sid].(queue := queue[1..])]), queue[0], RUNNABLE)
  {
    var tid := s.sems[sid].queue[j];
    assert At(s, sid, j, tid);
    var slot :| Live(s, slot) && s.threads[slot].state == WAIT && s.threads[slot].tid == tid;
    SearchFindsLive(s, slot);
    var t, t' := Woke(s, sid, j), Woke(s, sid, j + 1);
    assert s.sems[sid].queue[..j + 1] == s.sems[sid].queue[..j] + [tid];
    forall i | 0 <= i < THREAD_NUM && i != slot ensures t'.threads[i] == t.threads[i] {
      assert Live(s, i) ==> s.threads[i].tid != tid;
    }
    assert tid !in s.sems[sid].queue[..j] by {
      forall p | 0 <= p < j ensures s.sems[sid].queue[p] != tid {
        assert At(s, sid, p, s.sems[sid].queue[p]);
      }
    }
    assert t'.threads == t.threads[slot := t.threads[slot].(state := RUNNABLE)];
    assert s.sems[sid].queue[j..][1..] == s.sems[sid].queue[j + 1..];
  }

  lemma WokeKeepsInv(s: Kernel, sid: int)
    requires Inv(s) && UsedSem(s, sid)
    ensures Inv(Woke(s, sid, |s.sems[sid].queue|))
  {
    var s' := Woke(s, sid, |s.sems[sid].queue|);
    SameThreadsKeepTable(s, s');
    forall k, p, tid ensures At(s', k, p, tid) == (At(s, k, p, tid) && k != sid) { }
    forall k, p, tid {:trigger At(s', k, p, tid)} | At(s', k, p, tid) ensures WaitingTid(s', tid) {
      var i :| Live(s, i) && s.threads[i].state == WAIT && s.threads[i].tid == tid;
      forall p' | 0 <= p' < |s.sems[sid].queue| ensures s.sems[sid].queue[p'] != tid {
        assert At(s, sid, p', s.sems[sid].queue[p']) && At(s, k, p, tid);
      }
      assert Live(s', i);
    }
    forall i {:trigger Live(s', i)} | Live(s', i) && s'.threads[i].state == WAIT
      ensures QueuedTid(s', s'.threads[i].tid)
    {
      var k, p :| At(s, k, p, s.threads[i].tid);
      assert At(s', k, p, s.threads[i].tid);
    }
  }
}
