/**
 Threads and semaphores as one value: what the tables of kernel/task.c and
 kernel/semaphore.c hold, and what each kernel call does to them. A call runs with
 interrupts off, so it is one step.
 */
module KernelState {
  const THREAD_NUM := 40
  const NSEM := 100
  const NSEMQUEUE := 30

  datatype RunState = RUNNABLE | WAIT | SLEEP | DEAD

  /** The part of a thread structure the tables use. `sidPtr` names the cell `sid_ptr` points to. */
  datatype Thread = Thread(state: RunState, tid: int, ptid: int, index: int, sidPtr: int)

  const EMPTY_THREAD := Thread(DEAD, -1, -1, -1, 0)

  /** A semaphore with its ring of waiting tids read from the head. */
  datatype Sem = Sem(used: bool, count: int, queue: seq<int>)

  datatype Kernel = Kernel(
    threads: seq<Thread>, dict: seq<int>, cur: int, tidGlobal: int, sems: seq<Sem>, cells: map<int, int>)

  // ---------------------------------------------------------------- the thread table

  /** `search_index_from_tid`: the first slot of the dictionary that holds `tid`, or -1. */
  function Search(dict: seq<int>, tid: int, from: nat := 0): (r: int)
    requires from <= |dict|
    ensures r == -1 || from <= r < |dict|
    ensures r == -1 ==> forall j | from <= j < |dict| :: dict[j] != tid
    ensures r != -1 ==> dict[r] == tid && forall j | from <= j < r :: dict[j] != tid
    decreases |dict| - from
  {
    if from == |dict| then -1 else if dict[from] == tid then from else Search(dict, tid, from + 1)
  }

  function FirstDead(threads: seq<Thread>, from: nat := 0): (r: int)
    requires from <= |threads|
    ensures r == -1 || from <= r < |threads|
    ensures r == -1 ==> forall j | from <= j < |threads| :: threads[j].state != DEAD
    ensures r != -1 ==> threads[r].state == DEAD && forall j | from <= j < r :: threads[j].state != DEAD
    decreases |threads| - from
  {
    if from == |threads| then -1 else if threads[from].state == DEAD then from else FirstDead(threads, from + 1)
  }

  function FirstFree(sems: seq<Sem>, from: nat := 0): (r: int)
    requires from <= |sems|
    ensures r == -1 || from <= r < |sems|
    ensures r == -1 ==> forall j | from <= j < |sems| :: sems[j].used
    ensures r != -1 ==> !sems[r].used && forall j | from <= j < r :: sems[j].used
    decreases |sems| - from
  {
    if from == |sems| then -1 else if !sems[from].used then from else FirstFree(sems, from + 1)
  }

  ghost predicate Shaped(s: Kernel) {
    |s.threads| == THREAD_NUM && |s.dict| == THREAD_NUM && |s.sems| == NSEM && 0 <= s.cur < THREAD_NUM
  }

  ghost predicate Live(s: Kernel, i: int)
    requires Shaped(s)
  {
    0 <= i < THREAD_NUM && s.threads[i].state != DEAD
  }

  /**
   Live threads know their slot, the dictionary knows them, and their tids are distinct. The
   dictionary of a dead slot is -1, or the 0 it was loaded with, or the tid of a thread that is
   no more; only the first thread ever has tid 0, and it is in slot 0.
   */
  ghost predicate TableOK(s: Kernel)
    requires Shaped(s)
  {
    && 0 <= s.tidGlobal
    && (forall i | Live(s, i) :: s.threads[i].index == i && s.dict[i] == s.threads[i].tid)
    && (forall i | Live(s, i) :: 0 <= s.threads[i].tid < s.tidGlobal && (s.threads[i].tid == 0 ==> i == 0))
    && (forall i, j | Live(s, i) && Live(s, j) && s.threads[i].tid == s.threads[j].tid :: i == j)
    && (forall i | 0 <= i < THREAD_NUM && !Live(s, i) :: s.dict[i] == 0 || Stale(s, s.dict[i]))
  }

  /** No live thread has the tid `d`, and none ever will. */
  ghost predicate Stale(s: Kernel, d: int)
    requires Shaped(s)
  {
    -1 <= d < s.tidGlobal && forall j | Live(s, j) :: s.threads[j].tid != d
  }

  /** Despite stale zeros, the dictionary finds every live thread. */
  lemma SearchFindsLive(s: Kernel, i: int)
    requires Shaped(s) && TableOK(s) && Live(s, i)
    ensures Search(s.dict, s.threads[i].tid) == i
  {
    var r := Search(s.dict, s.threads[i].tid);
    assert s.dict[i] == s.threads[i].tid;
    assert Live(s, r) || s.dict[r] == 0 || Stale(s, s.dict[r]);
  }

  /** `thread_run` and `thread_register`: the thread goes into the first dead slot, if there is one. */
  ghost function Register(s: Kernel, state: RunState, sidPtr: int): (s': Kernel)
    requires Shaped(s)
  {
    var i := FirstDead(s.threads);
    if i == -1 then s
    else s.(threads := s.threads[i := Thread(state, s.tidGlobal, s.dict[s.cur], i, sidPtr)],
            dict := s.dict[i := s.tidGlobal], tidGlobal := s.tidGlobal + 1)
  }

  /** `change_state`. */
  ghost function ChangeState(s: Kernel, tid: int, state: RunState): (s': Kernel)
    requires Shaped(s) && Search(s.dict, tid) != -1
  {
    var i := Search(s.dict, tid);
    s.(threads := s.threads[i := s.threads[i].(state := state)])
  }

  /** The first store of `thread_end`: the slot is given up. Interrupts are on. */
  ghost function ClearSlot(s: Kernel, i: int): (s': Kernel)
    requires Shaped(s) && 0 <= i < THREAD_NUM
  {
    s.(threads := s.threads[i := EMPTY_THREAD])
  }

  /** Its last: the dictionary entry is given up. */
  ghost function ClearEntry(s: Kernel, i: int): (s': Kernel)
    requires Shaped(s) && 0 <= i < THREAD_NUM
  {
    s.(dict := s.dict[i := -1])
  }

  /** `fork_thread` after it has registered its child in slot `i`: the child runs at once. */
  ghost function StartChild(s: Kernel, i: int): (s': Kernel)
    requires Shaped(s) && 0 <= i < THREAD_NUM
  {
    s.(threads := s.threads[i := s.threads[i].(state := RUNNABLE)], cur := i)
  }

  // ---------------------------------------------------------------- the scheduler

  ghost predicate SomeRunnable(threads: seq<Thread>) {
    exists i :: 0 <= i < |threads| && threads[i].state == RUNNABLE
  }

  function Slot(cur: int, i: int): (slot: int) { (cur + i) % THREAD_NUM }

  /** The scheduler's choice: the first runnable slot after `cur`, going round, at last `cur` itself. */
  ghost predicate IsNext(threads: seq<Thread>, cur: int, next: int, i: int)
    requires |threads| == THREAD_NUM
  {
    && 1 <= i <= THREAD_NUM && next == Slot(cur, i) && threads[next].state == RUNNABLE
    && forall j | 1 <= j < i :: threads[Slot(cur, j)].state != RUNNABLE
  }

  /** `thread_scheduler`, as a relation between the tables before and after. */
  ghost predicate Scheduled(s: Kernel, s': Kernel)
    requires Shaped(s)
  {
    s' == s.(cur := s'.cur) && exists i :: IsNext(s.threads, s.cur, s'.cur, i)
  }

  // ---------------------------------------------------------------- semaphores

  predicate BadSem(sid: int) { sid < 0 || sid >= NSEM }

  ghost predicate UsedSem(s: Kernel, sid: int)
    requires Shaped(s)
  {
    !BadSem(sid) && s.sems[sid].used
  }

  /** `create_sem`; the result is the identifier or -1. */
  ghost function CreateSem(s: Kernel, initCount: int): (Kernel, int)
    requires Shaped(s)
  {
    var k := FirstFree(s.sems);
    if initCount < 0 || k == -1 then (s, -1)
    else (s.(sems := s.sems[k := Sem(true, initCount, [])]), k)
  }

  /** The caller of `wait` would block and there is no room left to queue it. */
  ghost predicate QueueFull(s: Kernel, sid: int)
    requires Shaped(s)
  {
    UsedSem(s, sid) && s.sems[sid].count <= 0 && |s.sems[sid].queue| >= NSEMQUEUE
  }

  /** `wait` up to its call of the scheduler: the caller pays, and blocks when nothing is left. */
  ghost function Block(s: Kernel, sid: int): (s': Kernel)
    requires Shaped(s) && Search(s.dict, s.dict[s.cur]) != -1 && UsedSem(s, sid)
  {
    var sem := s.sems[sid];
    var tid := s.dict[s.cur];
    var paid := s.(sems := s.sems[sid := sem.(count := sem.count - 1)]);
    if sem.count > 0 then paid
    else
      var t := ChangeState(paid, tid, WAIT);
      var u := t.(cells := s.cells[s.threads[Search(s.dict, tid)].sidPtr := sid]);
      if |sem.queue| >= NSEMQUEUE then u
      else u.(sems := s.sems[sid := Sem(true, sem.count - 1, sem.queue + [tid])])
  }

  /** A whole call of `wait`, with its result. */
  ghost predicate Waited(s: Kernel, sid: int, s': Kernel, r: int)
    requires Shaped(s)
  {
    if !UsedSem(s, sid) then s' == s && r == 0
    else if Search(s.dict, s.dict[s.cur]) == -1 then false
    else if s.sems[sid].count > 0 then s' == Block(s, sid) && r == 1
    else if QueueFull(s, sid) then s' == Block(s, sid) && r == 0
    else Scheduled(Block(s, sid), s') && r == 1
  }

  /** `signal` up to its call of the scheduler: the longest waiting thread becomes runnable. */
  ghost function Unblock(s: Kernel, sid: int): (s': Kernel)
    requires Shaped(s) && UsedSem(s, sid) && s.sems[sid].queue != []
    requires Search(s.dict, s.sems[sid].queue[0]) != -1
  {
    var sem := s.sems[sid];
    ChangeState(s.(sems := s.sems[sid := Sem(true, sem.count + 1, sem.queue[1..])]), sem.queue[0], RUNNABLE)
  }

  ghost predicate Signalled(s: Kernel, sid: int, s': Kernel, r: int)
    requires Shaped(s)
    requires UsedSem(s, sid) && s.sems[sid].count < 0 ==>
      s.sems[sid].queue != [] && Search(s.dict, s.sems[sid].queue[0]) != -1
  {
    if !UsedSem(s, sid) then s' == s && r == 0
    else if s.sems[sid].count >= 0 then s' == s && r == 1
    else Scheduled(Unblock(s, sid), s') && r == 1
  }

  /** The semaphore `sid` freed and its first `j` waiters made runnable. */
  ghost function Woke(s: Kernel, sid: int, j: nat): (s': Kernel)
    requires Shaped(s) && !BadSem(sid) && j <= |s.sems[sid].queue|
  {
    var woken := s.sems[sid].queue[..j];
    s.(sems := s.sems[sid := Sem(false, s.sems[sid].count, s.sems[sid].queue[j..])],
       threads := seq(THREAD_NUM, i requires 0 <= i < |s.threads| =>
         if s.threads[i].state == WAIT && s.threads[i].tid in woken
         then s.threads[i].(state := RUNNABLE) else s.threads[i]))
  }

  // ---------------------------------------------------------------- the system invariant

  /** `tid` is the `p`-th in the queue of semaphore `k`. */
  ghost predicate At(s: Kernel, k: int, p: int, tid: int)
    requires Shaped(s)
  {
    0 <= k < NSEM && 0 <= p < |s.sems[k].queue| && s.sems[k].queue[p] == tid
  }

  ghost predicate WaitingTid(s: Kernel, tid: int)
    requires Shaped(s)
  {
    exists i :: Live(s, i) && s.threads[i].state == WAIT && s.threads[i].tid == tid
  }

  ghost predicate QueuedTid(s: Kernel, tid: int)
    requires Shaped(s)
  {
    exists k, p :: At(s, k, p, tid)
  }

  function Deficit(count: int): (n: int) { if count < 0 then -count else 0 }

  /**
   Each semaphore queues as many threads as its count is below zero, and a thread is in state
   WAIT if and only if its tid is in exactly one queue exactly once.
   */
  ghost predicate SemsOK(s: Kernel)
    requires Shaped(s)
  {
    && (forall k | 0 <= k < NSEM :: if s.sems[k].used
          then |s.sems[k].queue| == Deficit(s.sems[k].count) && |s.sems[k].queue| <= NSEMQUEUE
          else s.sems[k].queue == [])
    && (forall k, p, tid {:trigger At(s, k, p, tid)} :: At(s, k, p, tid) ==> WaitingTid(s, tid))
    && (forall i {:trigger Live(s, i)} :: Live(s, i) && s.threads[i].state == WAIT ==> QueuedTid(s, s.threads[i].tid))
    && (forall k, p, k', p', tid :: At(s, k, p, tid) && At(s, k', p', tid) ==> k == k' && p == p')
  }

  /** The invariant when a thread makes a call: the caller is runnable. */
  ghost predicate Inv(s: Kernel) {
    Shaped(s) && TableOK(s) && SemsOK(s) && s.threads[s.cur].state == RUNNABLE
  }

  /** The thread that runs has given up its slot and is about to be scheduled away. */
  ghost predicate Dying(s: Kernel)
    requires Shaped(s)
  {
    s.threads[s.cur].state == DEAD
  }

  /** The invariant between any two steps. */
  ghost predicate Sound(s: Kernel) {
    Shaped(s) && TableOK(s) && SemsOK(s) && (s.threads[s.cur].state == RUNNABLE || Dying(s))
  }

  /** The tables as loaded, after `threads_init`: `tid_index_dict` is initialised in slot 0 only. */
  ghost predicate Unbooted(s: Kernel) {
    && Shaped(s) && s.cur == 0 && s.tidGlobal == 0 && s.dict[0] == -1
    && (forall i | 0 <= i < THREAD_NUM :: s.threads[i] == EMPTY_THREAD)
    && (forall i | 0 < i < THREAD_NUM :: s.dict[i] == 0)
    && (forall k | 0 <= k < NSEM :: !s.sems[k].used && s.sems[k].queue == [])
  }
}
