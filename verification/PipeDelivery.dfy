/**
 Parent and child over one pipe (kernel/stdcall/pipe.c, kernel/kernel.c): the parent calls
 `waitp` and then `pread`, the child `pwrite` and then `signalp`. The kernel underneath is
 `KernelState`; between any two steps, bytes of a copy included, other threads and the timer
 may do anything that leaves these two threads and their semaphore alone.
 */
module PipeDelivery {
  import opened KernelState
  import opened KernelInvariant
  import opened Pipe
  import KernelRuns

  /** `PWait` is between the test of `waitp` and its call of `wait`. */
  datatype ParentAt = PTest | PWait | PRead | PCopy(i: nat) | PDone | PFailed
  datatype ChildAt = CWrite | CCopy(i: nat) | CTest | CSignal | CDone

  /** The slots of the two threads, their semaphore and the message. */
  datatype Setup = Setup(p: int, c: int, sid: int, msg: seq<int>)

  /** `missed` records that the child signalled while the parent was at `PWait`. */
  datatype System = System(
    k: Kernel, pstate: PipeState, buf: seq<int>, parent: ParentAt, child: ChildAt, got: seq<int>, missed: bool)

  datatype Actor = Parent | Child | Others

  /** What everybody else may do. */
  ghost predicate Elsewhere(u: Setup, k: Kernel, k': Kernel)
    requires Shaped(k) && Live(k, u.p) && Live(k, u.c) && !BadSem(u.sid)
  {
    Sound(k') && k'.threads[u.p] == k.threads[u.p] && k'.threads[u.c] == k.threads[u.c] && k'.sems[u.sid] == k.sems[u.sid]
  }

  ghost predicate ParentStep(u: Setup, s: System, s': System)
    requires Shaped(s.k) && |s.buf| == NPIPEQUEUE && |u.msg| <= NPIPEQUEUE
  {
    match s.parent
    case PTest => s' == s.(parent := if s.pstate == EMPTY || s.pstate == SENDING then PWait else PRead)
    case PWait => exists r :: Waited(s.k, u.sid, s'.k, r) && s' == s.(k := s'.k, parent := if r == 1 then PRead else PFailed)
    case PRead => s' == if s.pstate == EXIST then s.(pstate := RECEIVING, parent := PCopy(0)) else s.(parent := PFailed)
    case PCopy(i) => s' ==
      if i < |u.msg| then s.(got := s.got + [s.buf[i]], parent := PCopy(i + 1)) else s.(pstate := EMPTY, parent := PDone)
    case _ => false
  }

  ghost predicate ChildStep(u: Setup, s: System, s': System)
    requires Shaped(s.k) && |s.buf| == NPIPEQUEUE && |u.msg| <= NPIPEQUEUE
  {
    match s.child
    case CWrite => s' == if s.pstate == EMPTY then s.(pstate := SENDING, child := CCopy(0)) else s.(child := CTest)
    case CCopy(i) => s' ==
      if i < |u.msg| then s.(buf := s.buf[i := u.msg[i]], child := CCopy(i + 1)) else s.(pstate := EXIST, child := CTest)
    case CTest => s' == s.(child := if s.pstate == EXIST then CSignal else CDone)
    case CSignal =>
      && (UsedSem(s.k, u.sid) && s.k.sems[u.sid].count < 0 ==>
            s.k.sems[u.sid].queue != [] && Search(s.k.dict, s.k.sems[u.sid].queue[0]) != -1)
      && (exists r :: Signalled(s.k, u.sid, s'.k, r))
      && s' == s.(k := s'.k, child := CDone, missed := s.missed || s.parent == PWait)
    case CDone => false
  }

  ghost predicate Step(u: Setup, s: System, a: Actor, s': System)
    requires Shaped(s.k) && Live(s.k, u.p) && Live(s.k, u.c) && !BadSem(u.sid)
    requires |s.buf| == NPIPEQUEUE && |u.msg| <= NPIPEQUEUE
  {
    match a
    case Parent => s.k.cur == u.p && ParentStep(u, s, s')
    case Child => s.k.cur == u.c && ChildStep(u, s, s')
    case Others => Elsewhere(u, s.k, s'.k) && s' == s.(k := s'.k)
  }

  // ---------------------------------------------------------------- the invariant

  /** The kernel's side: both threads live, and the parent waits exactly when it is queued. */
  ghost predicate KernelSide(u: Setup, k: Kernel) {
    && Sound(k) && Live(k, u.p) && Live(k, u.c) && u.p != u.c && UsedSem(k, u.sid)
    && k.threads[u.c].state == RUNNABLE
    && k.sems[u.sid] == (if k.threads[u.p].state == WAIT then Sem(true, -1, [k.threads[u.p].tid]) else Sem(true, 0, []))
    && (k.threads[u.p].state == WAIT || k.threads[u.p].state == RUNNABLE)
  }

  ghost predicate Asleep(u: Setup, s: System)
    requires Shaped(s.k) && Live(s.k, u.p)
  {
    s.k.threads[u.p].state == WAIT
  }

  /** Before the message is there, the parent has not passed its wait. */
  ghost predicate BeforeMessage(u: Setup, s: System)
    requires Shaped(s.k) && Live(s.k, u.p)
  {
    !s.missed && s.got == [] &&
    match s.parent
    case PTest => !Asleep(u, s)
    case PWait => !Asleep(u, s)
    case PRead => Asleep(u, s)
    case _ => false
  }

  /** Once it is there, it stays until the parent has copied it. */
  ghost predicate AfterMessage(u: Setup, s: System)
    requires Shaped(s.k) && Live(s.k, u.p) && |s.buf| == NPIPEQUEUE && |u.msg| <= NPIPEQUEUE
  {
    s.buf[..|u.msg|] == u.msg &&
    match s.parent
    case PTest => s.pstate == EXIST && s.got == [] && !Asleep(u, s)
    case PWait => s.pstate == EXIST && s.got == [] && !Asleep(u, s)
    case PRead => s.pstate == EXIST && s.got == []
    case PCopy(i) => s.pstate == RECEIVING && i <= |u.msg| && s.got == u.msg[..i] && !Asleep(u, s)
    case PDone => s.pstate == EMPTY && s.got == u.msg && !Asleep(u, s)
    case PFailed => false
  }

  ghost predicate PipeInv(u: Setup, s: System) {
    && KernelSide(u, s.k) && |s.buf| == NPIPEQUEUE && |u.msg| <= NPIPEQUEUE
    && match s.child
       case CWrite => s.pstate == EMPTY && BeforeMessage(u, s)
       case CCopy(i) => s.pstate == SENDING && BeforeMessage(u, s) && i <= |u.msg| && s.buf[..i] == u.msg[..i]
       case CTest => !s.missed && AfterMessage(u, s)
       case CSignal => !s.missed && AfterMessage(u, s)
       case CDone => AfterMessage(u, s) && (s.missed <==> s.parent == PWait || Asleep(u, s))
  }

  /** `gen_pipe` and `fork_thread` are done; neither program has started. */
  ghost predicate Start(u: Setup, s: System) {
    && KernelSide(u, s.k) && !Asleep(u, s) && |s.buf| == NPIPEQUEUE && |u.msg| <= NPIPEQUEUE
    && s.pstate == EMPTY && s.parent == PTest && s.child == CWrite && s.got == [] && !s.missed
  }

  lemma ElsewhereKeepsKernelSide(u: Setup, k: Kernel, k': Kernel)
    requires KernelSide(u, k) && Elsewhere(u, k, k')
    ensures KernelSide(u, k') && k'.threads[u.p].state == k.threads[u.p].state
  {
  }

  /** The parent's `wait` puts it to sleep: nobody has signalled a count of zero upwards. */
  lemma ParentFallsAsleep(u: Setup, k: Kernel, k': Kernel, r: int)
    requires KernelSide(u, k) && k.cur == u.p && Waited(k, u.sid, k', r)
    ensures KernelSide(u, k') && k'.threads[u.p].state == WAIT && r == 1
  {
    CallerIsFound(k);
    WaitKeepsInv(k, u.sid, k', r);
    assert Live(k, u.p);
  }

  /** The child's `signal` wakes the parent if it sleeps. */
  lemma ChildWakesParent(u: Setup, k: Kernel, k': Kernel, r: int)
    requires KernelSide(u, k) && k.cur == u.c
    requires k.sems[u.sid].count < 0 ==> k.sems[u.sid].queue != [] && Search(k.dict, k.sems[u.sid].queue[0]) != -1
    requires Signalled(k, u.sid, k', r)
    ensures KernelSide(u, k') && k'.threads[u.p].state == RUNNABLE && r == 1
  {
    SignalKeepsInv(k, u.sid, k', r);
    if k.threads[u.p].state == WAIT {
      SearchFindsLive(k, u.p);
    }
  }

  lemma ParentKeepsInv(u: Setup, s: System, s': System)
    requires PipeInv(u, s) && s.k.cur == u.p && ParentStep(u, s, s')
    ensures PipeInv(u, s')
  {
    assert !Asleep(u, s);
    if s.parent == PWait {
      var r :| Waited(s.k, u.sid, s'.k, r) && s' == s.(k := s'.k, parent := if r == 1 then PRead else PFailed);
      ParentFallsAsleep(u, s.k, s'.k, r);
    }
  }

  lemma ChildKeepsInv(u: Setup, s: System, s': System)
    requires PipeInv(u, s) && s.k.cur == u.c && ChildStep(u, s, s')
    ensures PipeInv(u, s')
  {
    match s.child
    case CSignal =>
      var r :| Signalled(s.k, u.sid, s'.k, r);
      ChildWakesParent(u, s.k, s'.k, r);
    case CCopy(i) =>
      if i < |u.msg| {
        assert s'.buf[..i + 1] == s.buf[..i] + [u.msg[i]];
      }
    case _ =>
  }

  lemma StepKeepsInv(u: Setup, s: System, a: Actor, s': System)
    requires PipeInv(u, s) && Step(u, s, a, s')
    ensures PipeInv(u, s')
  {
    match a
    case Parent => ParentKeepsInv(u, s, s');
    case Child => ChildKeepsInv(u, s, s');
    case Others => ElsewhereKeepsKernelSide(u, s.k, s'.k);
  }

  // ---------------------------------------------------------------- runs

  ghost predicate Run(u: Setup, ss: seq<System>, actors: seq<Actor>) {
    && |ss| == |actors| + 1
    && (forall i | 0 <= i < |ss| :: PipeShape(u, ss[i]))
    && forall i {:trigger actors[i]} | 0 <= i < |actors| :: Step(u, ss[i], actors[i], ss[i + 1])
  }

  ghost predicate PipeShape(u: Setup, s: System) {
    Shaped(s.k) && Live(s.k, u.p) && Live(s.k, u.c) && !BadSem(u.sid) && |s.buf| == NPIPEQUEUE && |u.msg| <= NPIPEQUEUE
  }

  lemma {:induction false} RunKeepsInv(u: Setup, ss: seq<System>, actors: seq<Actor>, k: nat)
    requires Run(u, ss, actors) && Start(u, ss[0]) && k < |ss|
    ensures PipeInv(u, ss[k])
  {
    if k != 0 {
      RunKeepsInv(u, ss, actors, k - 1);
      StepKeepsInv(u, ss[k - 1], actors[k - 1], ss[k]);
    }
  }

  /** Neither thread will move again by itself. */
  ghost predicate Settled(u: Setup, s: System)
    requires PipeShape(u, s)
  {
    s.child == CDone && (s.parent == PDone || s.parent == PFailed || Asleep(u, s))
  }

  /**
   Delivery over all interleavings: when both threads have settled, the parent has read exactly
   the child's bytes if the child's signal did not fall between the parent's test and its
   wait, and otherwise the parent sleeps for ever with nothing read.
   */
  lemma DeliveredUnlessMissed(u: Setup, ss: seq<System>, actors: seq<Actor>, k: nat)
    requires Run(u, ss, actors) && Start(u, ss[0]) && k < |ss| && Settled(u, ss[k])
    ensures ss[k].parent == PDone && ss[k].got == u.msg <==> !ss[k].missed
    ensures ss[k].missed ==> Asleep(u, ss[k]) && ss[k].got == []
  {
    RunKeepsInv(u, ss, actors, k);
  }

  /** `waitp` runs as one step: nobody else moves between its test and its call of `wait`. */
  ghost predicate Atomic(ss: seq<System>, actors: seq<Actor>)
    requires |ss| == |actors| + 1
  {
    forall i {:trigger actors[i]} | 0 <= i < |actors| :: ss[i].parent == PWait ==> actors[i] == Parent
  }

  /** With `waitp` atomic no signal is missed. */
  lemma {:induction false} AtomicNeverMisses(u: Setup, ss: seq<System>, actors: seq<Actor>, k: nat)
    requires Run(u, ss, actors) && Start(u, ss[0]) && Atomic(ss, actors) && k < |ss|
    ensures !ss[k].missed
  {
    if k != 0 {
      AtomicNeverMisses(u, ss, actors, k - 1);
      assert Step(u, ss[k - 1], actors[k - 1], ss[k]);
    }
  }

  /** ... so the parent is never left blocked, and reads exactly the child's bytes. */
  lemma AtomicDelivers(u: Setup, ss: seq<System>, actors: seq<Actor>, k: nat)
    requires Run(u, ss, actors) && Start(u, ss[0]) && Atomic(ss, actors) && k < |ss| && Settled(u, ss[k])
    ensures ss[k].parent == PDone && ss[k].got == u.msg
  {
    AtomicNeverMisses(u, ss, actors, k);
    DeliveredUnlessMissed(u, ss, actors, k);
  }

  // ---------------------------------------------------------------- progress

  function ParentLeft(n: nat, at: ParentAt): (k: nat) {
    match at
    case PTest => n + 4
    case PWait => n + 3
    case PRead => n + 2
    case PCopy(i) => if i <= n then n - i + 1 else 1
    case _ => 0
  }

  function ChildLeft(n: nat, at: ChildAt): (k: nat) {
    match at
    case CWrite => n + 4
    case CCopy(i) => if i <= n then n - i + 3 else 3
    case CTest => 2
    case CSignal => 1
    case CDone => 0
  }

  /** The steps the two threads still have to take. */
  function StepsLeft(u: Setup, s: System): (k: nat) {
    ParentLeft(|u.msg|, s.parent) + ChildLeft(|u.msg|, s.child)
  }

  /** Every step of parent or child is one fewer to take; nobody else adds any. */
  lemma StepsRunOut(u: Setup, s: System, a: Actor, s': System)
    requires PipeShape(u, s) && Step(u, s, a, s')
    ensures StepsLeft(u, s') + (if a == Others then 0 else 1) <= StepsLeft(u, s)
  {
    match a
    case Parent => ParentStepsRunOut(u, s, s');
    case Child => ChildStepsRunOut(u, s, s');
    case Others =>
  }

  lemma ParentStepsRunOut(u: Setup, s: System, s': System)
    requires PipeShape(u, s) && ParentStep(u, s, s')
    ensures s'.child == s.child && ParentLeft(|u.msg|, s'.parent) < ParentLeft(|u.msg|, s.parent)
  {
  }

  lemma ChildStepsRunOut(u: Setup, s: System, s': System)
    requires PipeShape(u, s) && ChildStep(u, s, s')
    ensures s'.parent == s.parent && ChildLeft(|u.msg|, s'.child) < ChildLeft(|u.msg|, s.child)
  {
  }

  /** With something runnable, the scheduler has a choice. */
  lemma SomeChoice(threads: seq<Thread>, cur: int) returns (next: int, i: int)
    requires |threads| == THREAD_NUM && 0 <= cur < THREAD_NUM && SomeRunnable(threads)
    ensures IsNext(threads, cur, next, i)
  {
    var t :| 0 <= t < THREAD_NUM && threads[t].state == RUNNABLE;
    var far := if t > cur then t - cur else t - cur + THREAD_NUM;
    assert Slot(cur, far) == t;
    i := 1;
    while threads[Slot(cur, i)].state != RUNNABLE
      invariant 1 <= i <= far
      invariant forall j | 1 <= j < i :: threads[Slot(cur, j)].state != RUNNABLE
      decreases far - i
    {
      i := i + 1;
    }
    next := Slot(cur, i);
  }

  lemma ParentMoves(u: Setup, s: System) returns (s': System)
    requires PipeInv(u, s) && s.k.cur == u.p && s.parent != PDone
    ensures ParentStep(u, s, s')
  {
    match s.parent
    case PTest => s' := s.(parent := if s.pstate == EMPTY || s.pstate == SENDING then PWait else PRead);
    case PWait =>
      CallerIsFound(s.k);
      var b := Block(s.k, u.sid);
      assert b.threads[u.c].state == RUNNABLE;
      var next, i := SomeChoice(b.threads, b.cur);
      assert Waited(s.k, u.sid, b.(cur := next), 1);
      s' := s.(k := b.(cur := next), parent := PRead);
    case PRead => s' := s.(pstate := RECEIVING, parent := PCopy(0));
    case PCopy(i) => s' :=
      if i < |u.msg| then s.(got := s.got + [s.buf[i]], parent := PCopy(i + 1)) else s.(pstate := EMPTY, parent := PDone);
  }

  lemma ChildMoves(u: Setup, s: System) returns (s': System)
    requires PipeInv(u, s) && s.k.cur == u.c && s.child != CDone
    ensures ChildStep(u, s, s')
  {
    match s.child
    case CWrite => s' := s.(pstate := SENDING, child := CCopy(0));
    case CCopy(i) => s' :=
      if i < |u.msg| then s.(buf := s.buf[i := u.msg[i]], child := CCopy(i + 1)) else s.(pstate := EXIST, child := CTest);
    case CTest => s' := s.(child := if s.pstate == EXIST then CSignal else CDone);
    case CSignal =>
      var k' := s.k;
      if Asleep(u, s) {
        SearchFindsLive(s.k, u.p);
        var b := Unblock(s.k, u.sid);
        assert b.threads[u.p].state == RUNNABLE;
        var next, i := SomeChoice(b.threads, b.cur);
        k' := b.(cur := next);
      }
      assert Signalled(s.k, u.sid, k', 1);
      s' := s.(k := k', child := CDone, missed := s.missed || s.parent == PWait);
  }

  /** The steps of parent and child among the first `k` of a run. */
  function OwnSteps(actors: seq<Actor>, k: nat): (n: nat)
    requires k <= |actors|
  {
    if k == 0 then 0 else OwnSteps(actors, k - 1) + if actors[k - 1] == Others then 0 else 1
  }

  lemma StepOfRun(u: Setup, ss: seq<System>, actors: seq<Actor>, i: nat)
    requires Run(u, ss, actors) && i < |actors|
    ensures PipeShape(u, ss[i]) && Step(u, ss[i], actors[i], ss[i + 1])
  {
  }

  /** `left[i]` steps are left after `i` steps of a run. */
  ghost predicate Falls(actors: seq<Actor>, left: seq<nat>, i: int)
    requires |left| == |actors| + 1 && 0 <= i < |actors|
  {
    left[i + 1] + (if actors[i] == Others then 0 else 1) <= left[i]
  }

  lemma {:induction false} FallsAddUp(actors: seq<Actor>, left: seq<nat>, k: nat)
    requires |left| == |actors| + 1 && k <= |actors|
    requires forall i {:trigger Falls(actors, left, i)} | 0 <= i < |actors| :: Falls(actors, left, i)
    ensures OwnSteps(actors, k) + left[k] <= left[0]
  {
    if k != 0 {
      FallsAddUp(actors, left, k - 1);
      assert Falls(actors, left, k - 1);
    }
  }

  function Lefts(u: Setup, ss: seq<System>): (left: seq<nat>)
    ensures |left| == |ss| && forall i | 0 <= i < |ss| :: left[i] == StepsLeft(u, ss[i])
  {
    seq(|ss|, i requires 0 <= i < |ss| => StepsLeft(u, ss[i]))
  }

  lemma OneStepFewer(u: Setup, ss: seq<System>, actors: seq<Actor>, i: nat)
    requires Run(u, ss, actors) && i < |actors|
    ensures Falls(actors, Lefts(u, ss), i)
  {
    StepOfRun(u, ss, actors, i);
    StepsRunOut(u, ss[i], actors[i], ss[i + 1]);
  }

  lemma StepsAddUp(u: Setup, ss: seq<System>, actors: seq<Actor>, k: nat)
    requires Run(u, ss, actors) && k < |ss|
    ensures OwnSteps(actors, k) + StepsLeft(u, ss[k]) <= StepsLeft(u, ss[0])
  {
    forall i {:trigger Falls(actors, Lefts(u, ss), i)} | 0 <= i < |actors| ensures Falls(actors, Lefts(u, ss), i) {
      OneStepFewer(u, ss, actors, i);
    }
    FallsAddUp(actors, Lefts(u, ss), k);
  }

  /** Over a whole run the two take at most eight steps and two for each byte. */
  lemma RunsAreShort(u: Setup, ss: seq<System>, actors: seq<Actor>, k: nat)
    requires Run(u, ss, actors) && Start(u, ss[0]) && k < |ss|
    ensures OwnSteps(actors, k) + StepsLeft(u, ss[k]) <= 2 * |u.msg| + 8
  {
    StepsAddUp(u, ss, actors, k);
  }

  /** The actor is runnable and, given the processor, has a step to take. */
  ghost predicate CanMove(u: Setup, s: System, a: Actor)
    requires PipeShape(u, s)
  {
    var slot := if a == Parent then u.p else u.c;
    s.k.threads[slot].state == RUNNABLE && exists s' :: Step(u, Scheduling(s, slot), a, s')
  }

  ghost function Scheduling(s: System, slot: int): (s': System) {
    s.(k := s.k.(cur := slot))
  }

  lemma SchedulingKeepsInv(u: Setup, s: System, slot: int)
    requires PipeInv(u, s) && 0 <= slot < THREAD_NUM && s.k.threads[slot].state == RUNNABLE
    ensures PipeInv(u, Scheduling(s, slot))
  {
    var k, k' := s.k, s.k.(cur := slot);
    forall j ensures Live(k', j) == Live(k, j) { }
    forall d ensures Stale(k', d) == Stale(k, d) { StaleAlike(k, k', d); }
    SameWaitersKeepSems(k, k');
  }

  lemma ParentCanMove(u: Setup, s: System)
    requires PipeInv(u, s) && s.parent != PDone && !Asleep(u, s)
    ensures CanMove(u, s, Parent)
  {
    SchedulingKeepsInv(u, s, u.p);
    var s' := ParentMoves(u, Scheduling(s, u.p));
    assert Step(u, Scheduling(s, u.p), Parent, s');
  }

  lemma ChildCanMove(u: Setup, s: System)
    requires PipeInv(u, s) && s.child != CDone
    ensures CanMove(u, s, Child)
  {
    SchedulingKeepsInv(u, s, u.c);
    var s' := ChildMoves(u, Scheduling(s, u.c));
    assert Step(u, Scheduling(s, u.c), Child, s');
  }

  /** Until both have settled one of the two can move; so when neither can, both have. */
  lemma NobodyIsStuck(u: Setup, s: System)
    requires PipeInv(u, s)
    ensures Settled(u, s) || CanMove(u, s, Parent) || CanMove(u, s, Child)
  {
    if s.child != CDone {
      ChildCanMove(u, s);
    } else if s.parent != PDone && !Asleep(u, s) {
      ParentCanMove(u, s);
    }
  }

  /**
   So with `waitp` atomic every run that goes on while parent or child can move delivers: at
   the latest after eight steps and two for each byte neither can, and then the parent has
   exactly the child's bytes.
   */
  lemma AtomicRunsEndDelivered(u: Setup, ss: seq<System>, actors: seq<Actor>, k: nat)
    requires Run(u, ss, actors) && Start(u, ss[0]) && Atomic(ss, actors) && k < |ss|
    ensures OwnSteps(actors, k) <= 2 * |u.msg| + 8
    ensures !CanMove(u, ss[k], Parent) && !CanMove(u, ss[k], Child) ==> ss[k].parent == PDone && ss[k].got == u.msg
    ensures OwnSteps(actors, k) == 2 * |u.msg| + 8 ==> ss[k].parent == PDone && ss[k].got == u.msg
  {
    RunKeepsInv(u, ss, actors, k);
    RunsAreShort(u, ss, actors, k);
    NobodyIsStuck(u, ss[k]);
    if Settled(u, ss[k]) {
      AtomicDelivers(u, ss, actors, k);
    }
  }

  // ---------------------------------------------------------------- the lost wake-up

  /** Parent and child in slots 0 and 1, and semaphore 0 as `gen_pipe` creates it. */
  ghost function TwoThreads(cur: int): (k: Kernel) {
    Kernel(seq(THREAD_NUM, i => if i == 0 then Thread(RUNNABLE, 0, -1, 0, 0)
                                else if i == 1 then Thread(RUNNABLE, 1, 0, 1, 0) else EMPTY_THREAD),
           seq(THREAD_NUM, i => if i == 1 then 1 else 0), cur, 2,
           seq(NSEM, k => Sem(k == 0, 0, [])), map[0 := 0])
  }

  /** The kernel comes to this by itself: the first thread makes the pipe and forks. */
  lemma TwoThreadsComeFromBoot() returns (ks: seq<Kernel>)
    ensures KernelRuns.Run(ks, [KernelRuns.GenPipe, KernelRuns.ForkRegister, KernelRuns.ForkStart(1)])
    ensures ks[0] == Register(KernelRuns.Fresh(), RUNNABLE, 0) && ks[3] == TwoThreads(1)
  {
    var blank := KernelRuns.Fresh();
    assert FirstDead(blank.threads) == 0;
    var k0 := Register(blank, RUNNABLE, 0);
    var k1 := PipeMade(k0);
    var k2 := Forking(k1);
    var k3 := StartChild(k2, 1);
    assert k3.threads == TwoThreads(1).threads;
    assert k3.dict == TwoThreads(1).dict;
    assert k3.sems == TwoThreads(1).sems;
    ks := [k0, k1, k2, k3];
  }

  lemma PipeMade(k: Kernel) returns (k': Kernel)
    requires Shaped(k) && k == Register(KernelRuns.Fresh(), RUNNABLE, 0) && FirstDead(KernelRuns.Fresh().threads) == 0
    ensures Shaped(k') && KernelRuns.Step(k, KernelRuns.GenPipe, k')
    ensures k' == k.(sems := k'.sems, cells := map[0 := 0])
    ensures forall i | 0 <= i < NSEM :: k'.sems[i] == Sem(i == 0, 0, [])
  {
    assert FirstFree(k.sems) == 0;
    var t := CreateSem(k, 0).0;
    k' := t.(cells := t.cells[0 := 0]);
  }

  lemma Forking(k: Kernel) returns (k': Kernel)
    requires Shaped(k) && k.cur == 0 && k.threads[0] == Thread(RUNNABLE, 0, -1, 0, 0) && k.dict[0] == 0 && k.tidGlobal == 1
    requires forall i | 0 < i < THREAD_NUM :: k.threads[i] == EMPTY_THREAD
    ensures Shaped(k') && KernelRuns.Step(k, KernelRuns.ForkRegister, k')
    ensures k' == k.(threads := k.threads[1 := Thread(SLEEP, 1, 0, 1, 0)], dict := k.dict[1 := 1], tidGlobal := 2)
    ensures KernelRuns.Step(k', KernelRuns.ForkStart(1), StartChild(k', 1))
  {
    assert FirstDead(k.threads) == 1;
    k' := Register(k, SLEEP, 0);
  }

  /** A kernel that runs the parent and one that runs the child, otherwise alike, nobody waiting. */
  ghost predicate Twins(u: Setup, kp: Kernel, kc: Kernel) {
    KernelSide(u, kp) && KernelSide(u, kc) && kp.cur == u.p && kc == kp.(cur := u.c) && kp.sems[u.sid].count == 0
  }

  lemma TwoThreadsAreTwins(u: Setup)
    requires u.p == 0 && u.c == 1 && u.sid == 0
    ensures Twins(u, TwoThreads(0), TwoThreads(1))
  {
    TwoThreadsAreFine(u, 0);
    TwoThreadsAreFine(u, 1);
  }

  lemma TwoThreadsAreFine(u: Setup, cur: int)
    requires u.p == 0 && u.c == 1 && u.sid == 0 && 0 <= cur < 2
    ensures KernelSide(u, TwoThreads(cur)) && TwoThreads(cur).threads[0].state == RUNNABLE
  {
    var k := TwoThreads(cur);
    assert forall i :: Live(k, i) <==> 0 <= i < 2;
  }

  lemma Extend(u: Setup, ss: seq<System>, actors: seq<Actor>, a: Actor, s': System)
    requires Run(u, ss, actors) && PipeShape(u, s') && Step(u, ss[|actors|], a, s')
    ensures Run(u, ss + [s'], actors + [a])
  {
  }

  /** The parent sees an empty pipe and is interrupted. */
  lemma TestedTooEarly(u: Setup, kp: Kernel, kc: Kernel) returns (ss: seq<System>, actors: seq<Actor>)
    requires Twins(u, kp, kc) && |u.msg| == 1
    ensures Run(u, ss, actors) && |actors| == 2 && Start(u, ss[0])
    ensures ss[2].k == kc && ss[2].pstate == EMPTY && ss[2].parent == PWait && ss[2].child == CWrite && ss[2].got == []
  {
    var s0 := System(kp, EMPTY, seq(NPIPEQUEUE, _ => 0), PTest, CWrite, [], false);
    var s1 := s0.(parent := PWait);
    var s2 := s1.(k := kc);
    ss, actors := [s0], [];
    Extend(u, ss, actors, Parent, s1);
    Extend(u, ss + [s1], [Parent], Others, s2);
    ss, actors := ss + [s1] + [s2], [Parent] + [Others];
  }

  /** The child writes and signals, with nobody waiting yet. */
  lemma SignalledTooEarly(u: Setup, kp: Kernel, s2: System) returns (ss: seq<System>, actors: seq<Actor>)
    requires Twins(u, kp, s2.k) && PipeShape(u, s2) && |u.msg| == 1
    requires s2.pstate == EMPTY && s2.parent == PWait && s2.child == CWrite && s2.got == []
    ensures Run(u, ss, actors) && |actors| == 5 && ss[0] == s2
    ensures ss[5].child == CDone && ss[5].parent == PWait && ss[5].k == s2.k && ss[5].got == []
  {
    var s3 := s2.(pstate := SENDING, child := CCopy(0));
    var s4 := s3.(buf := s3.buf[0 := u.msg[0]], child := CCopy(1));
    var s5 := s4.(pstate := EXIST, child := CTest);
    var s6 := s5.(child := CSignal);
    var s7 := s6.(child := CDone, missed := true);
    assert Signalled(s6.k, u.sid, s7.k, 1);
    ss, actors := [s2], [];
    Extend(u, ss, actors, Child, s3);
    Extend(u, ss + [s3], [Child], Child, s4);
    Extend(u, ss + [s3] + [s4], [Child] + [Child], Child, s5);
    Extend(u, ss + [s3] + [s4] + [s5], [Child] + [Child] + [Child], Child, s6);
    Extend(u, ss + [s3] + [s4] + [s5] + [s6], [Child] + [Child] + [Child] + [Child], Child, s7);
    ss, actors := ss + [s3] + [s4] + [s5] + [s6] + [s7], [Child] + [Child] + [Child] + [Child] + [Child];
  }

  lemma Join(u: Setup, ss: seq<System>, actors: seq<Actor>, tt: seq<System>, more: seq<Actor>)
    requires Run(u, ss, actors) && Run(u, tt, more) && tt[0] == ss[|actors|]
    ensures Run(u, ss + tt[1..], actors + more)
    ensures (ss + tt[1..])[|actors| + |more|] == tt[|more|] && (ss + tt[1..])[0] == ss[0]
  {
    var all, who := ss + tt[1..], actors + more;
    forall i {:trigger who[i]} | 0 <= i < |who| ensures Step(u, all[i], who[i], all[i + 1]) {
      if i >= |actors| {
        assert all[i] == tt[i - |actors|] && who[i] == more[i - |actors|];
      }
    }
  }

  /**
   The run that loses the wake-up when `waitp` is not atomic: the parent, back from its
   interruption, goes to sleep on a pipe that is full and has been signalled.
   */
  lemma LostWakeUp() returns (u: Setup, ss: seq<System>, actors: seq<Actor>)
    ensures Run(u, ss, actors) && Start(u, ss[0])
    ensures Settled(u, ss[|actors|]) && Asleep(u, ss[|actors|]) && ss[|actors|].got == []
  {
    u := Setup(0, 1, 0, [7]);
    var kp, kc := TwoThreads(0), TwoThreads(1);
    TwoThreadsAreTwins(u);
    ss, actors := MissedRun(u, kp, kc);
  }

  lemma MissedRun(u: Setup, kp: Kernel, kc: Kernel) returns (ss: seq<System>, actors: seq<Actor>)
    requires Twins(u, kp, kc) && |u.msg| == 1
    ensures Run(u, ss, actors) && Start(u, ss[0])
    ensures Settled(u, ss[|actors|]) && Asleep(u, ss[|actors|]) && ss[|actors|].got == []
  {
    ss, actors := TestedTooEarly(u, kp, kc);
    var tt, more := SignalledTooEarly(u, kp, ss[2]);
    Join(u, ss, actors, tt, more);
    ss, actors := SleptTooLate(u, kp, ss + tt[1..], actors + more);
  }

  /** The parent runs again and goes to wait for a signal that has been given. */
  lemma SleptTooLate(u: Setup, kp: Kernel, ss: seq<System>, actors: seq<Actor>)
    returns (ss': seq<System>, actors': seq<Actor>)
    requires Run(u, ss, actors) && Start(u, ss[0]) && Twins(u, kp, ss[|actors|].k)
    requires var s := ss[|actors|]; s.child == CDone && s.parent == PWait && s.got == []
    ensures Run(u, ss', actors') && ss'[0] == ss[0]
    ensures var s' := ss'[|actors'|]; Settled(u, s') && Asleep(u, s') && s'.got == []
  {
    var s := ss[|actors|].(k := kp);
    RunKeepsInv(u, ss, actors, |actors|);
    StepKeepsInv(u, ss[|actors|], Others, s);
    var s' := FallsAsleep(u, s);
    Extend(u, ss, actors, Others, s);
    Extend(u, ss + [s], actors + [Others], Parent, s');
    ss', actors' := ss + [s] + [s'], actors + [Others] + [Parent];
  }

  lemma FallsAsleep(u: Setup, s: System) returns (s': System)
    requires PipeInv(u, s) && s.k.cur == u.p && s.child == CDone && s.parent == PWait && s.got == []
    ensures PipeShape(u, s') && Step(u, s, Parent, s')
    ensures Settled(u, s') && Asleep(u, s') && s'.got == []
  {
    s' := ParentMoves(u, s);
    StepKeepsInv(u, s, Parent, s');
  }
}
