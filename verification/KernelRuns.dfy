/**
 Whole runs of the kernel: any interleaving of the calls that threads make and of timer ticks.
 The running thread makes the call; a tick just schedules.
 */
module KernelRuns {
  import opened KernelState
  import opened KernelInvariant
  import KernelCalls
  import Scheduler

  datatype Event =
    | CreateThread(sidPtr: int)
    | ForkRegister
    | ForkStart(child: int)
    | ExitSlot
    | ExitEntry
    | NewSem(initCount: int)
    | GenPipe
    | Wait(sid: int)
    | Signal(sid: int)
    | DeleteSem(sid: int)
    | Tick

  /**
   A step of the running thread or a tick. A call that finds nothing to schedule never returns,
   so it is not a step. `thread_end` and `fork_thread` run with interrupts on, so each is two
   steps with anything in between; a dying thread does nothing but finish or be scheduled away.
   */
  ghost predicate Step(s: Kernel, e: Event, s': Kernel)
    requires Shaped(s)
  {
    match e
    case ExitEntry => Dying(s) && s' == ClearEntry(s, s.cur)
    case Tick => Scheduled(s, s')
    case _ => !Dying(s) && Calls(s, e, s')
  }

  ghost predicate Calls(s: Kernel, e: Event, s': Kernel)
    requires Shaped(s)
  {
    match e
    case CreateThread(sidPtr) => s' == Register(s, RUNNABLE, sidPtr)
    case ForkRegister => FirstDead(s.threads) != -1 && s' == Register(s, SLEEP, s.threads[s.cur].sidPtr)
    case ForkStart(i) =>
      && 0 <= i < THREAD_NUM && s.threads[i].state == SLEEP && s.threads[i].ptid == s.threads[s.cur].tid
      && s' == StartChild(s, i)
    case ExitSlot => s' == ClearSlot(s, s.cur)
    case NewSem(initCount) => s' == CreateSem(s, initCount).0
    case GenPipe =>
      var (t, sid) := CreateSem(s, 0);
      s' == t.(cells := t.cells[s.threads[s.cur].sidPtr := sid])
    case Wait(sid) => exists r :: Waited(s, sid, s', r)
    case Signal(sid) =>
      && (UsedSem(s, sid) && s.sems[sid].count < 0 ==>
            s.sems[sid].queue != [] && Search(s.dict, s.sems[sid].queue[0]) != -1)
      && exists r :: Signalled(s, sid, s', r)
    case DeleteSem(sid) => !BadSem(sid) && s' == s   // both of its guards are inverted
    case _ => false
  }

  /** No `wait` of the run finds the queue full. */
  ghost predicate Roomy(s: Kernel, e: Event)
    requires Shaped(s)
  {
    e.Wait? ==> !QueueFull(s, e.sid)
  }

  ghost predicate Run(ss: seq<Kernel>, es: seq<Event>) {
    && |ss| == |es| + 1
    && (forall i | 0 <= i < |ss| :: Shaped(ss[i]))
    && forall i {:trigger es[i]} | 0 <= i < |es| :: Step(ss[i], es[i], ss[i + 1])
  }

  /** A call keeps the invariant exactly when it does not overfill a queue. */
  lemma CallKeepsSound(s: Kernel, e: Event, s': Kernel)
    requires Inv(s) && Calls(s, e, s')
    ensures Sound(s') <==> Roomy(s, e)
  {
    match e
    case CreateThread(sidPtr) => RegisterKeepsInv(s, RUNNABLE, sidPtr);
    case ForkRegister => RegisterKeepsInv(s, SLEEP, s.threads[s.cur].sidPtr);
    case ForkStart(i) => StartChildKeepsInv(s, i);
    case ExitSlot => ClearSlotKeepsSound(s);
    case NewSem(initCount) => CreateSemKeepsInv(s, initCount);
    case GenPipe =>
      CreateSemKeepsInv(s, 0);
      CellsDoNotMatter(CreateSem(s, 0).0, s');
    case Wait(sid) =>
      var r :| Waited(s, sid, s', r);
      WaitKeepsInv(s, sid, s', r);
    case Signal(sid) =>
      var r :| Signalled(s, sid, s', r);
      SignalKeepsInv(s, sid, s', r);
    case DeleteSem(sid) =>
  }

  lemma CellsDoNotMatter(s: Kernel, s': Kernel)
    requires Inv(s) && s' == s.(cells := s'.cells)
    ensures Inv(s')
  {
    forall j ensures Live(s', j) == Live(s, j) { }
    forall d ensures Stale(s', d) == Stale(s, d) { StaleAlike(s, s', d); }
    SameWaitersKeepSems(s, s');
  }

  /** One step keeps the invariant exactly when it does not overfill a queue. */
  lemma StepKeepsSound(s: Kernel, e: Event, s': Kernel)
    requires Sound(s) && Step(s, e, s')
    ensures Sound(s') <==> Roomy(s, e)
  {
    match e
    case ExitEntry => ClearEntryKeepsSound(s);
    case Tick => ScheduleKeepsInv(s, s');
    case _ => CallKeepsSound(s, e, s');
  }

  /** The system invariant holds throughout every run that never has too many waiters. */
  lemma {:induction false} RunKeepsSound(ss: seq<Kernel>, es: seq<Event>, k: nat)
    requires Run(ss, es) && Sound(ss[0]) && k < |ss|
    requires forall i | 0 <= i < k :: Roomy(ss[i], es[i])
    ensures Sound(ss[k])
  {
    if k != 0 {
      RunKeepsSound(ss, es, k - 1);
      NextIsSound(ss, es, k - 1);
    }
  }

  lemma NextIsSound(ss: seq<Kernel>, es: seq<Event>, i: nat)
    requires Run(ss, es) && i < |es| && Sound(ss[i]) && Roomy(ss[i], es[i])
    ensures Sound(ss[i + 1])
  {
    assert Step(ss[i], es[i], ss[i + 1]);
    StepKeepsSound(ss[i], es[i], ss[i + 1]);
  }

  // ---------------------------------------------------------------- who runs next

  /** After a `signal` that somebody waits for another thread runs: the next runnable one, going round. */
  lemma SignalSchedules(s: Kernel, sid: int, s': Kernel)
    requires Inv(s) && Shaped(s') && Step(s, Signal(sid), s')
    requires 0 <= sid < NSEM && s.sems[sid].used && s.sems[sid].count < 0
    ensures s'.cur != s.cur && s'.threads[s'.cur].state == RUNNABLE
    ensures forall t | 0 <= t < THREAD_NUM && (if s.cur < s'.cur then s.cur < t < s'.cur else s.cur < t || t < s'.cur) ::
      s'.threads[t].state != RUNNABLE
  {
    var r :| Signalled(s, sid, s', r);
    var w := KernelCalls.SignalMeans(s, sid, s', r);
  }

  /** The call or tick gives up the processor. */
  ghost predicate Yields(s: Kernel, e: Event)
    requires Shaped(s)
  {
    match e
    case Tick => true
    case Signal(sid) => 0 <= sid < NSEM && s.sems[sid].used && s.sems[sid].count < 0
    case Wait(sid) => 0 <= sid < NSEM && s.sems[sid].used && s.sems[sid].count <= 0 && |s.sems[sid].queue| < 30
    case _ => false
  }

  /** Nothing but those and the start of a child changes the running thread, and it is always the next that runs. */
  lemma ProcessorMoves(s: Kernel, e: Event, s': Kernel)
    requires Sound(s) && Shaped(s') && Step(s, e, s')
    ensures Yields(s, e) ==> Scheduler.Nearest(s'.threads, s.cur, s'.cur)
    ensures !Yields(s, e) ==> s'.cur == if e.ForkStart? then e.child else s.cur
  {
    match e
    case Tick =>
      var i :| IsNext(s.threads, s.cur, s'.cur, i);
      Scheduler.NextIsNearest(s.threads, s.cur, s'.cur, i);
    case Wait(sid) =>
      var r :| Waited(s, sid, s', r);
      KernelCalls.WaitMeans(s, sid, s', r);
    case Signal(sid) =>
      var r :| Signalled(s, sid, s', r);
      var w := KernelCalls.SignalMeans(s, sid, s', r);
    case _ =>
  }

  // ---------------------------------------------------------------- the ledger of one semaphore

  /** The caller of `wait(sid)` comes out of the step blocked. */
  ghost predicate Blocks(s: Kernel, e: Event, s': Kernel, sid: int)
    requires Shaped(s) && Shaped(s')
  {
    e == Wait(sid) && s'.threads[s.cur].state == WAIT
  }

  /** ... or not. */
  ghost predicate Passes(s: Kernel, e: Event, s': Kernel, sid: int)
    requires Shaped(s) && Shaped(s')
  {
    e == Wait(sid) && s'.threads[s.cur].state != WAIT
  }

  /** The threads that the step takes out of state WAIT. */
  ghost function Woken(s: Kernel, s': Kernel): (slots: set<int>)
    requires Shaped(s) && Shaped(s')
  {
    set i | 0 <= i < THREAD_NUM && s.threads[i].state == WAIT && s'.threads[i].state != WAIT :: s.threads[i].tid
  }

  ghost predicate Releases(s: Kernel, e: Event, sid: int)
    requires Shaped(s)
  {
    e == Signal(sid) && UsedSem(s, sid) && s.sems[sid].count < 0
  }

  ghost function Passed(ss: seq<Kernel>, es: seq<Event>, sid: int, i: nat, k: nat): (n: nat)
    requires Run(ss, es) && i <= k < |ss|
    decreases k
  {
    if k == i then 0
    else Passed(ss, es, sid, i, k - 1) + if Passes(ss[k - 1], es[k - 1], ss[k], sid) then 1 else 0
  }

  /** The tids that blocked on `sid`, in the order they did. */
  ghost function Blocked(ss: seq<Kernel>, es: seq<Event>, sid: int, i: nat, k: nat): (tids: seq<int>)
    requires Run(ss, es) && i <= k < |ss|
    decreases k
  {
    if k == i then []
    else if Blocks(ss[k - 1], es[k - 1], ss[k], sid) then
      Blocked(ss, es, sid, i, k - 1) + [ss[k - 1].dict[ss[k - 1].cur]]
    else
      Blocked(ss, es, sid, i, k - 1)
  }

  ghost function Released(ss: seq<Kernel>, es: seq<Event>, sid: int, i: nat, k: nat): (n: nat)
    requires Run(ss, es) && i <= k < |ss|
    decreases k
  {
    if k == i then 0
    else Released(ss, es, sid, i, k - 1) + if Releases(ss[k - 1], es[k - 1], sid) then 1 else 0
  }

  /** What one step does to the semaphore `sid`. */
  ghost predicate SemStep(s: Kernel, e: Event, s': Kernel, sid: int)
    requires Shaped(s) && Shaped(s') && UsedSem(s, sid)
  {
    var sem, sem' := s.sems[sid], s'.sems[sid];
    if Blocks(s, e, s', sid) then
      sem.count <= 0 && sem.count + |sem.queue| == 0 && sem' == Sem(true, sem.count - 1, sem.queue + [s.dict[s.cur]])
    else if Passes(s, e, s', sid) then
      sem.count > 0 && sem.queue == [] && sem' == Sem(true, sem.count - 1, [])
    else if Releases(s, e, sid) then
      sem.queue != [] && sem' == Sem(true, sem.count + 1, sem.queue[1..])
    else
      sem' == sem
  }

  lemma StepOnSem(s: Kernel, e: Event, s': Kernel, sid: int)
    requires Sound(s) && Step(s, e, s') && Shaped(s') && Roomy(s, e) && UsedSem(s, sid)
    ensures SemStep(s, e, s', sid)
  {
    match e
    case Wait(x) => WaitOnSem(s, x, s', sid);
    case Signal(x) => SignalOnSem(s, x, s', sid);
    case _ =>
  }

  lemma WaitOnSem(s: Kernel, x: int, s': Kernel, sid: int)
    requires Inv(s) && Calls(s, Wait(x), s') && Shaped(s') && !QueueFull(s, x) && UsedSem(s, sid)
    ensures SemStep(s, Wait(x), s', sid)
  {
    var r :| Waited(s, x, s', r);
    CallerIsFound(s);
  }

  lemma SignalOnSem(s: Kernel, x: int, s': Kernel, sid: int)
    requires Inv(s) && Calls(s, Signal(x), s') && Shaped(s') && UsedSem(s, sid)
    ensures SemStep(s, Signal(x), s', sid)
  {
    var r :| Signalled(s, x, s', r);
  }

  lemma StepOfRun(ss: seq<Kernel>, es: seq<Event>, sid: int, k: nat)
    requires Run(ss, es) && Sound(ss[0]) && k < |es| && UsedSem(ss[k], sid)
    requires forall j | 0 <= j <= k :: Roomy(ss[j], es[j])
    ensures SemStep(ss[k], es[k], ss[k + 1], sid)
  {
    RunKeepsSound(ss, es, k);
    assert Roomy(ss[k], es[k]) && Step(ss[k], es[k], ss[k + 1]);
    StepOnSem(ss[k], es[k], ss[k + 1], sid);
  }

  /** The semaphore's account: `c` at the start, `passed` waits that passed, and who blocked. */
  ghost predicate Balanced(sem: Sem, c: int, passed: int, blocked: seq<int>, released: int) {
    && 0 <= released <= |blocked| && sem.queue == blocked[released..]
    && sem.count == c - passed - |sem.queue|
    && passed <= c && (blocked != [] ==> passed == c)
  }

  /** One step keeps the account balanced. */
  lemma StepBalances(s: Kernel, e: Event, s': Kernel, sid: int, c: nat, passed: nat, blocked: seq<int>, released: nat)
    requires Shaped(s) && Shaped(s') && UsedSem(s, sid) && SemStep(s, e, s', sid)
    requires Balanced(s.sems[sid], c, passed, blocked, released)
    ensures Balanced(s'.sems[sid], c,
      passed + (if Passes(s, e, s', sid) then 1 else 0),
      if Blocks(s, e, s', sid) then blocked + [s.dict[s.cur]] else blocked,
      released + (if Releases(s, e, sid) then 1 else 0))
  {
    if Blocks(s, e, s', sid) {
      assert (blocked + [s.dict[s.cur]])[released..] == blocked[released..] + [s.dict[s.cur]];
    }
  }

  /**
   Accounting and order: from the creation of a semaphore with `c`, at most `c` waits pass and
   none passes once one has blocked; the queue is what has blocked and not been released, in
   the order of blocking; and the count is `c` less the passed and the queued.
   */
  lemma {:induction false} Ledger(ss: seq<Kernel>, es: seq<Event>, sid: int, i: nat, k: nat, c: nat)
    requires Run(ss, es) && Sound(ss[0]) && i <= k < |ss|
    requires forall j | 0 <= j < k :: Roomy(ss[j], es[j])
    requires !BadSem(sid) && ss[i].sems[sid] == Sem(true, c, [])
    ensures UsedSem(ss[k], sid)
    ensures Balanced(ss[k].sems[sid], c, Passed(ss, es, sid, i, k), Blocked(ss, es, sid, i, k), Released(ss, es, sid, i, k))
    decreases k
  {
    if i < k {
      Ledger(ss, es, sid, i, k - 1, c);
      RunBalances(ss, es, sid, i, k - 1, c);
    }
  }

  lemma RunBalances(ss: seq<Kernel>, es: seq<Event>, sid: int, i: nat, k: nat, c: nat)
    requires Run(ss, es) && Sound(ss[0]) && i <= k < |es| && UsedSem(ss[k], sid)
    requires forall j | 0 <= j <= k :: Roomy(ss[j], es[j])
    requires Balanced(ss[k].sems[sid], c, Passed(ss, es, sid, i, k), Blocked(ss, es, sid, i, k), Released(ss, es, sid, i, k))
    ensures UsedSem(ss[k + 1], sid)
    ensures Balanced(ss[k + 1].sems[sid], c,
      Passed(ss, es, sid, i, k + 1), Blocked(ss, es, sid, i, k + 1), Released(ss, es, sid, i, k + 1))
  {
    StepOfRun(ss, es, sid, k);
    StepBalances(ss[k], es[k], ss[k + 1], sid, c, Passed(ss, es, sid, i, k),
      Blocked(ss, es, sid, i, k), Released(ss, es, sid, i, k));
  }

  /** The account of a semaphore that step `i` of the run creates with the count `c`. */
  lemma LedgerFromCreation(ss: seq<Kernel>, es: seq<Event>, sid: int, i: nat, k: nat, c: nat)
    requires Run(ss, es) && Sound(ss[0]) && i < k < |ss| && es[i] == NewSem(c)
    requires forall j | 0 <= j < k :: Roomy(ss[j], es[j])
    requires 0 <= sid < NSEM && !ss[i].sems[sid].used && forall x | 0 <= x < sid :: ss[i].sems[x].used
    ensures var passed, blocked := Passed(ss, es, sid, i + 1, k), Blocked(ss, es, sid, i + 1, k);
      var released, sem := Released(ss, es, sid, i + 1, k), ss[k].sems[sid];
      && sem.used && released <= |blocked| && sem.queue == blocked[released..]
      && sem.count == c - passed - |sem.queue|
      && passed <= c && (blocked != [] ==> passed == c)
  {
    assert Step(ss[i], es[i], ss[i + 1]);
    KernelCalls.CreateMeans(ss[i], c);
    Ledger(ss, es, sid, i + 1, k, c);
  }

  /** Each effective `signal` wakes one thread: the k-th release is the k-th thread that blocked. */
  lemma ReleaseIsFifo(ss: seq<Kernel>, es: seq<Event>, sid: int, i: nat, k: nat, c: nat)
    requires Run(ss, es) && Sound(ss[0]) && i <= k < |es| && Releases(ss[k], es[k], sid)
    requires forall j | 0 <= j < k :: Roomy(ss[j], es[j])
    requires !BadSem(sid) && ss[i].sems[sid] == Sem(true, c, [])
    ensures Released(ss, es, sid, i, k) < |Blocked(ss, es, sid, i, k)|
    ensures Woken(ss[k], ss[k + 1]) == {Blocked(ss, es, sid, i, k)[Released(ss, es, sid, i, k)]}
  {
    Ledger(ss, es, sid, i, k, c);
    RunKeepsSound(ss, es, k);
    assert Step(ss[k], es[k], ss[k + 1]);
    SignalWakesHead(ss[k], ss[k + 1], sid);
  }

  lemma SignalWakesHead(s: Kernel, s': Kernel, sid: int)
    requires Sound(s) && Shaped(s') && Step(s, Signal(sid), s') && Releases(s, Signal(sid), sid)
    ensures s.sems[sid].queue != [] && Woken(s, s') == {s.sems[sid].queue[0]}
  {
    WaiterIsFound(s, sid);
    var slot := Search(s.dict, s.sems[sid].queue[0]);
    assert s.threads[slot].state == WAIT && s'.threads[slot].state == RUNNABLE;
  }

  /** Nothing else wakes anyone. */
  lemma OnlySignalWakes(s: Kernel, e: Event, s': Kernel)
    requires Sound(s) && Shaped(s') && Step(s, e, s')
    requires !exists sid :: Releases(s, e, sid)
    ensures Woken(s, s') == {}
  {
    match e
    case Wait(sid) =>
      CallerIsFound(s);
      var r :| Waited(s, sid, s', r);
    case Signal(sid) =>
      assert !Releases(s, e, sid);
      var r :| Signalled(s, sid, s', r);
    case _ =>
  }

  /** The count never exceeds where it started, and never rises above 0 after reaching it. */
  lemma {:induction false} CountNeverRises(ss: seq<Kernel>, es: seq<Event>, sid: int, i: nat, k: nat)
    requires Run(ss, es) && Sound(ss[0]) && i <= k < |ss|
    requires forall j | 0 <= j < k :: Roomy(ss[j], es[j])
    requires UsedSem(ss[i], sid)
    ensures UsedSem(ss[k], sid)
    ensures ss[k].sems[sid].count <= if ss[i].sems[sid].count <= 0 then 0 else ss[i].sems[sid].count
    decreases k
  {
    if i < k {
      CountNeverRises(ss, es, sid, i, k - 1);
      StepOfRun(ss, es, sid, k - 1);
    }
  }

  // ---------------------------------------------------------------- a run that overfills a queue

  /** The tables before anything has run. */
  ghost function Fresh(): (s: Kernel)
    ensures Unbooted(s)
  {
    Kernel(seq(THREAD_NUM, _ => EMPTY_THREAD), seq(THREAD_NUM, i => if i == 0 then -1 else 0), 0, 0,
           seq(NSEM, _ => Sem(false, 0, [])), map[])
  }

  /** The thread that the kernel starts with, and its `i`-th child. */
  function Member(i: int, waiting: bool): (t: Thread) {
    Thread(if waiting then WAIT else RUNNABLE, i, if i == 0 then -1 else 0, i, i)
  }

  function CrowdThreads(n: nat, w: nat): (r: seq<Thread>)
    ensures |r| == THREAD_NUM
    ensures forall i | 0 <= i < THREAD_NUM :: r[i] == if i <= n then Member(i, i < w) else EMPTY_THREAD
  {
    seq(THREAD_NUM, i => if i <= n then Member(i, i < w) else EMPTY_THREAD)
  }

  function CrowdDict(n: nat): (r: seq<int>)
    ensures |r| == THREAD_NUM && forall i | 0 <= i < THREAD_NUM :: r[i] == if i <= n then i else 0
  {
    seq(THREAD_NUM, i => if i <= n then i else 0)
  }

  function FirstTids(w: nat): (r: seq<int>)
    ensures |r| == w && forall i | 0 <= i < w :: r[i] == i
  {
    seq(w, i => i)
  }

  function CrowdSems(w: nat): (r: seq<Sem>)
    ensures |r| == NSEM
    ensures forall k | 0 <= k < NSEM ::
      r[k] == if k == 0 then Sem(true, -(w as int), FirstTids(w)) else Sem(false, 0, [])
  {
    seq(NSEM, k => if k == 0 then Sem(true, -(w as int), FirstTids(w)) else Sem(false, 0, []))
  }

  /** Each of the first `w` threads has stored the semaphore it waits for. */
  function CrowdCells(w: nat): (r: map<int, int>) {
    if w == 0 then map[] else CrowdCells(w - 1)[w - 1 := 0]
  }

  /** Threads 0 to `n`, of which the first `w` wait for semaphore 0 and the next one runs. */
  ghost function Crowd(n: nat, w: nat): (s: Kernel)
    requires w <= n < THREAD_NUM
    ensures Shaped(s)
  {
    Kernel(CrowdThreads(n, w), CrowdDict(n), w, n + 1, CrowdSems(w), CrowdCells(w))
  }

  /** The first thread comes up and creates semaphore 0. */
  lemma CrowdBegins(s: Kernel)
    requires s == Register(Fresh(), RUNNABLE, 0)
    ensures Shaped(s) && Step(s, NewSem(0), Crowd(0, 0))
  {
    assert FirstDead(Fresh().threads) == 0;
    assert FirstFree(s.sems) == 0;
    assert s.threads == CrowdThreads(0, 0);
    assert s.dict == CrowdDict(0);
    assert FirstTids(0) == [];
    assert CreateSem(s, 0).0.sems == CrowdSems(0);
  }

  /** It creates one thread more. */
  lemma CrowdGrows(n: nat)
    requires n + 1 < THREAD_NUM
    ensures Step(Crowd(n, 0), CreateThread(n + 1), Crowd(n + 1, 0))
  {
    var s := Crowd(n, 0);
    assert s.threads[n + 1].state == DEAD && forall j | 0 <= j <= n :: s.threads[j].state != DEAD;
    assert FirstDead(s.threads) == n + 1;
    var r := Register(s, RUNNABLE, n + 1);
    assert r.threads == CrowdThreads(n + 1, 0);
    assert r.dict == CrowdDict(n + 1);
  }

  /** The running thread waits for the semaphore; the next one runs. */
  lemma CrowdWaits(n: nat, w: nat)
    requires n < THREAD_NUM && w < n && w < NSEMQUEUE
    ensures Step(Crowd(n, w), Wait(0), Crowd(n, w + 1)) && Roomy(Crowd(n, w), Wait(0))
  {
    var s, t := Crowd(n, w), Crowd(n, w + 1);
    assert s.dict[w] == w && forall j | 0 <= j < w :: s.dict[j] != w;
    assert Search(s.dict, w) == w;
    var b := Block(s, 0);
    assert b.threads == CrowdThreads(n, w + 1);
    assert FirstTids(w) + [w] == FirstTids(w + 1);
    assert b.sems == CrowdSems(w + 1);
    assert Slot(w, 1) == w + 1 && IsNext(b.threads, b.cur, w + 1, 1);
    assert Waited(s, 0, t, 1);
  }

  /** A run from boot to `s` with no queue overfilled on the way. */
  ghost predicate LeadsTo(ss: seq<Kernel>, es: seq<Event>, s: Kernel) {
    && Run(ss, es) && ss[0] == Register(Fresh(), RUNNABLE, 0) && ss[|es|] == s
    && forall i | 0 <= i < |es| :: Roomy(ss[i], es[i])
  }

  lemma Extend(ss: seq<Kernel>, es: seq<Event>, s: Kernel, e: Event, s': Kernel)
    requires LeadsTo(ss, es, s) && Shaped(s) && Shaped(s') && Step(s, e, s') && Roomy(s, e)
    ensures LeadsTo(ss + [s'], es + [e], s')
  {
    var ss', es' := ss + [s'], es + [e];
    var n := |es|;
    assert forall i | 0 <= i <= n :: ss'[i] == ss[i];
    assert forall i | 0 <= i < n :: es'[i] == es[i];
    assert ss'[n + 1] == s' && es'[n] == e;
  }

  /** A crowd gathers one event after the other. */
  lemma {:induction false} CrowdGathers(n: nat, w: nat) returns (ss: seq<Kernel>, es: seq<Event>)
    requires n < THREAD_NUM && w <= n && w <= NSEMQUEUE
    ensures LeadsTo(ss, es, Crowd(n, w))
    decreases n + w
  {
    if w > 0 {
      ss, es := CrowdGathers(n, w - 1);
      CrowdWaits(n, w - 1);
      Extend(ss, es, Crowd(n, w - 1), Wait(0), Crowd(n, w));
      ss, es := ss + [Crowd(n, w)], es + [Wait(0)];
    } else if n > 0 {
      ss, es := CrowdGathers(n - 1, 0);
      CrowdGrows(n - 1);
      Extend(ss, es, Crowd(n - 1, 0), CreateThread(n), Crowd(n, 0));
      ss, es := ss + [Crowd(n, 0)], es + [CreateThread(n)];
    } else {
      var s := Register(Fresh(), RUNNABLE, 0);
      CrowdBegins(s);
      Extend([s], [], s, NewSem(0), Crowd(0, 0));
      ss, es := [s] + [Crowd(0, 0)], [] + [NewSem(0)];
    }
  }

  /**
   A run from boot in which the next `wait` finds the queue full: thirty threads wait and a
   thirty-first calls. The invariant holds up to there, and that call breaks it.
   */
  lemma QueueFillsUp() returns (ss: seq<Kernel>, es: seq<Event>)
    ensures |ss| == |es| + 1 && LeadsTo(ss, es, ss[|es|])
    ensures Inv(ss[|es|]) && QueueFull(ss[|es|], 0)
    ensures exists s' :: Step(ss[|es|], Wait(0), s')
    ensures forall s' | Step(ss[|es|], Wait(0), s') :: !Sound(s')
  {
    ss, es := CrowdGathers(NSEMQUEUE, NSEMQUEUE);
    BootEstablishesInv(Fresh(), 0);
    RunKeepsSound(ss, es, |es|);
    CrowdIsFull();
    OverfullBreaks(ss[|es|]);
  }

  lemma CrowdIsFull()
    ensures QueueFull(Crowd(NSEMQUEUE, NSEMQUEUE), 0)
    ensures Sound(Crowd(NSEMQUEUE, NSEMQUEUE)) ==> Inv(Crowd(NSEMQUEUE, NSEMQUEUE))
  {
  }

  lemma OverfullBreaks(s: Kernel)
    requires Inv(s) && QueueFull(s, 0)
    ensures exists s' :: Step(s, Wait(0), s')
    ensures forall s' | Step(s, Wait(0), s') :: !Sound(s')
  {
    CallerIsFound(s);
    assert Waited(s, 0, Block(s, 0), 0);
    assert Step(s, Wait(0), Block(s, 0));
    forall s' | Step(s, Wait(0), s') ensures !Sound(s') {
      StepKeepsSound(s, Wait(0), s');
    }
  }
}
