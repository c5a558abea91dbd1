/**
 The context switch of kernel/task_asm.S as a register and stack machine, and what threads on
 disjoint stacks see of it. Addresses count 8-byte words.
 */
module ContextSwitch {
  // the saved registers, in the order `switch_context` pops them
  const RAX := 0
  const RBX := 1
  const RCX := 2
  const RDX := 3
  const RSI := 4
  const RDI := 5
  const R8 := 6
  const R9 := 7
  const R10 := 8
  const R11 := 9
  const R12 := 10
  const R13 := 11
  const R14 := 12
  const R15 := 13
  const RBP := 14
  const NREGS := 15

  datatype Machine = Machine(mem: seq<int>, regs: seq<int>, rsp: int, rip: int)

  /** What a thread has at its own call site: registers, stack position and where to go on. */
  datatype Context = Context(regs: seq<int>, rsp: int, rip: int)

  /** `mem` with `frame` written at `at`. */
  ghost function Write(mem: seq<int>, at: int, frame: seq<int>): (r: seq<int>)
    requires 0 <= at && at + |frame| <= |mem|
    ensures |r| == |mem|
    ensures forall a | 0 <= a < |mem| :: r[a] == if at <= a < at + |frame| then frame[a - at] else mem[a]
  {
    seq(|mem|, a requires 0 <= a < |mem| => if at <= a < at + |frame| then frame[a - at] else mem[a])
  }

  /** A stack frame at `at` that `switch_context` can resume: registers, then the return address. */
  ghost predicate Resumable(mem: seq<int>, at: int, c: Context) {
    && 0 <= at && at + NREGS + 1 <= |mem| && c.rsp == at + NREGS + 1 && |c.regs| == NREGS
    && (forall r | 0 <= r < NREGS :: mem[at + r] == c.regs[r])
    && mem[at + NREGS] == c.rip
  }

  ghost predicate CanSwitch(m: Machine) {
    && |m.regs| == NREGS && NREGS <= m.rsp < |m.mem|
    && 0 <= m.regs[RDI] < |m.mem| && 0 <= m.regs[RSI] && m.regs[RSI] + NREGS < |m.mem|
  }

  /** The memory after the pushes and the store of `rsp` through `rdi`. */
  ghost function Saved(m: Machine): (mem: seq<int>)
    requires CanSwitch(m)
  {
    Write(m.mem, m.rsp - NREGS, m.regs)[m.regs[RDI] := m.rsp - NREGS]
  }

  /** `switch_context`, entered with the return address on top of the stack. */
  ghost function SwitchContext(m: Machine): (m': Machine)
    requires CanSwitch(m)
  {
    var mem := Saved(m);
    var next := m.regs[RSI];
    Machine(mem, mem[next..next + NREGS], next + NREGS + 1, mem[next + NREGS])
  }

  /** Word by word: what is stored where, what is loaded from where, and that no other word changes. */
  lemma SwitchMeans(m: Machine)
    requires CanSwitch(m) && !(m.rsp - NREGS <= m.regs[RDI] < m.rsp)
    ensures var (m', next) := (SwitchContext(m), m.regs[RSI]);
      && |m'.mem| == |m.mem| && m'.mem[m.regs[RDI]] == m.rsp - NREGS
      && (forall a | m.rsp - NREGS <= a < m.rsp :: m'.mem[a] == m.regs[a - (m.rsp - NREGS)])
      && (forall a | 0 <= a < |m.mem| && !(m.rsp - NREGS <= a < m.rsp) && a != m.regs[RDI] :: m'.mem[a] == m.mem[a])
      && |m'.regs| == NREGS && (forall r | 0 <= r < NREGS :: m'.regs[r] == m'.mem[next + r])
      && m'.rip == m'.mem[next + NREGS] && m'.rsp == next + NREGS + 1
  {
  }

  /** The C side: the call pushes the address it returns to. */
  ghost function Called(m: Machine, returnTo: int): (m': Machine)
    requires 0 < m.rsp <= |m.mem|
  {
    m.(mem := m.mem[m.rsp - 1 := returnTo], rsp := m.rsp - 1)
  }

  /** The caller of `switch_context`, as it expects to be resumed. */
  function Caller(m: Machine, returnTo: int): (c: Context) {
    Context(m.regs, m.rsp, returnTo)
  }

  ghost predicate Runs(m: Machine, c: Context) {
    m.regs == c.regs && m.rsp == c.rsp && m.rip == c.rip
  }

  /** The call leaves a frame that resumes the caller, provided `rdi` points elsewhere. */
  lemma CallerIsSaved(m: Machine, returnTo: int)
    requires 0 < m.rsp <= |m.mem| && CanSwitch(Called(m, returnTo))
    requires !(m.rsp - NREGS - 1 <= m.regs[RDI] < m.rsp)
    ensures Resumable(Saved(Called(m, returnTo)), m.rsp - NREGS - 1, Caller(m, returnTo))
  {
  }

  /** ... and the new stack pointer in the cell at `rdi`. */
  lemma CellIsSaved(m: Machine, returnTo: int)
    requires 0 < m.rsp <= |m.mem| && CanSwitch(Called(m, returnTo))
    ensures Saved(Called(m, returnTo))[m.regs[RDI]] == m.rsp - NREGS - 1
  {
  }

  /** Switching to a stack pointer with a resumable frame runs its owner. */
  lemma FrameIsResumed(m: Machine, c: Context)
    requires CanSwitch(m) && Resumable(Saved(m), m.regs[RSI], c)
    ensures Runs(SwitchContext(m), c)
  {
  }

  lemma SwitchSetsStack(m: Machine)
    requires CanSwitch(m)
    ensures SwitchContext(m).rsp == m.regs[RSI] + NREGS + 1
  {
  }

  /**
   When the scheduler finds no other thread it switches the caller to itself, with the stack
   pointer saved the last time. The caller goes on where it was exactly when that is where
   this call leaves it too.
   */
  lemma SelfSwitch(m: Machine, returnTo: int)
    requires 0 < m.rsp <= |m.mem| && CanSwitch(Called(m, returnTo))
    requires !(m.rsp - NREGS - 1 <= m.regs[RDI] < m.rsp)
    ensures Runs(SwitchContext(Called(m, returnTo)), Caller(m, returnTo)) <==> m.regs[RSI] == m.rsp - NREGS - 1
  {
    CallerIsSaved(m, returnTo);
    SwitchSetsStack(Called(m, returnTo));
    if m.regs[RSI] == m.rsp - NREGS - 1 {
      FrameIsResumed(Called(m, returnTo), Caller(m, returnTo));
    }
  }

  // ---------------------------------------------------------------- threads

  /** Thread `k` has the stack `lo[k] <= a < hi[k]` and its saved `rsp` in the word `cell[k]`. */
  datatype Layout = Layout(lo: seq<int>, hi: seq<int>, cell: seq<int>)
  {
    ghost predicate Thread(k: int) {
      0 <= k < |cell|
    }

    ghost predicate OnStack(k: int, a: int)
      requires |lo| == |hi| == |cell| && Thread(k)
    {
      lo[k] <= a < hi[k]
    }

    /** Stacks do not overlap, and the cells are distinct and on no stack. */
    ghost predicate Valid(size: nat) {
      && |lo| == |hi| == |cell|
      && (forall k | Thread(k) :: 0 <= lo[k] <= hi[k] <= size && 0 <= cell[k] < size)
      && (forall j, k, a | Thread(j) && Thread(k) && OnStack(j, a) && OnStack(k, a) :: j == k)
      && (forall j, k | Thread(j) && Thread(k) :: !OnStack(j, cell[k]))
      && (forall j, k | Thread(j) && Thread(k) && cell[j] == cell[k] :: j == k)
    }
  }

  /** The machine with the running thread, the threads there are, and where each parked one left off. */
  datatype System = System(m: Machine, cur: int, alive: set<int>, left: seq<Context>)

  /** Thread `k` has left a resumable frame on its own stack. */
  ghost predicate Parked(l: Layout, s: System, k: int)
    requires l.Valid(|s.m.mem|) && l.Thread(k) && |s.left| == |l.cell|
  {
    var at := s.m.mem[l.cell[k]];
    Resumable(s.m.mem, at, s.left[k]) && l.lo[k] <= at && at + NREGS + 1 <= l.hi[k]
  }

  ghost predicate Waits(l: Layout, s: System, k: int) {
    l.Thread(k) && k in s.alive && k != s.cur
  }

  /**
   The running thread's cell still holds the stack pointer of the last time it was saved; every
   other thread there is has a frame to resume.
   */
  ghost predicate Inv(l: Layout, s: System) {
    && l.Valid(|s.m.mem|) && |s.left| == |l.cell| && l.Thread(s.cur) && s.cur in s.alive && |s.m.regs| == NREGS
    && s.m.mem[l.cell[s.cur]] == s.left[s.cur].rsp - NREGS - 1
    && forall k | Waits(l, s, k) :: Parked(l, s, k)
  }

  /** Other threads' stacks and every saved stack pointer, which only a switch writes, are as before. */
  ghost predicate LeavesAlone(l: Layout, s: System, s': System)
    requires l.Valid(|s.m.mem|) && l.Thread(s.cur)
  {
    && s'.cur == s.cur && |s'.m.mem| == |s.m.mem| && |s'.m.regs| == NREGS
    && (forall k, a | Waits(l, s, k) && l.OnStack(k, a) :: s'.m.mem[a] == s.m.mem[a])
    && (forall k | l.Thread(k) && k in s.alive :: s'.m.mem[l.cell[k]] == s.m.mem[l.cell[k]])
  }

  /** The running thread computes: anything that leaves the others alone. */
  ghost predicate Computes(l: Layout, s: System, s': System)
    requires l.Valid(|s.m.mem|) && l.Thread(s.cur)
  {
    LeavesAlone(l, s, s') && s'.alive == s.alive && s'.left == s.left
  }

  /** The running thread creates thread `t`, with the frame of `init_stack` at the bottom of its stack. */
  ghost predicate Spawns(l: Layout, s: System, t: int, rip: int, thread: int, s': System)
    requires l.Valid(|s.m.mem|) && l.Thread(s.cur) && |s.left| == |l.cell|
  {
    && LeavesAlone(l, s, s') && l.Thread(t) && t !in s.alive
    && s'.alive == s.alive + {t} && s'.left == s.left[t := Entry(l.hi[t], rip, thread)]
    && Parked(l, s', t)
  }

  /** How a new thread is entered: at `rip`, with `rdi` the thread and an empty stack. */
  function Entry(bottom: int, rip: int, thread: int): (c: Context) {
    Context(seq(NREGS, r => if r == RDI then thread else 0), bottom, rip)
  }

  /** `switch_context(&threads[cur]->rsp, threads[next]->rsp)`, with room for the frame on the stack. */
  ghost predicate Switches(l: Layout, s: System, next: int, returnTo: int, s': System)
    requires l.Valid(|s.m.mem|) && l.Thread(s.cur) && |s.left| == |l.cell|
  {
    && Waits(l, s, next) && |s.m.regs| == NREGS
    && l.lo[s.cur] <= s.m.rsp - NREGS - 1 && s.m.rsp <= l.hi[s.cur]
    && s.m.regs[RDI] == l.cell[s.cur] && s.m.regs[RSI] == s.m.mem[l.cell[next]]
    && CanSwitch(Called(s.m, returnTo))
    && s' == System(SwitchContext(Called(s.m, returnTo)), next, s.alive, s.left[s.cur := Caller(s.m, returnTo)])
  }

  /** A thread that is switched to has its registers and stack back and goes on at its call site. */
  lemma SwitchIsTransparent(l: Layout, s: System, next: int, returnTo: int, s': System)
    requires Inv(l, s) && Switches(l, s, next, returnTo, s')
    ensures Inv(l, s') && Runs(s'.m, s.left[next])
  {
    ParkedSurvives(l, s, returnTo, next);
    FrameIsResumed(Called(s.m, returnTo), s.left[next]);
    forall k | Waits(l, s', k) ensures Parked(l, s', k) {
      StaysParked(l, s, next, returnTo, s', k);
    }
  }

  lemma StaysParked(l: Layout, s: System, next: int, returnTo: int, s': System, k: int)
    requires Inv(l, s) && Switches(l, s, next, returnTo, s') && Waits(l, s', k)
    ensures Parked(l, s', k)
  {
    if k == s.cur {
      CallerParks(l, s, next, returnTo, s');
    } else {
      ParkedSurvives(l, s, returnTo, k);
      assert Parked(l, s, k);
    }
  }

  lemma CallerParks(l: Layout, s: System, next: int, returnTo: int, s': System)
    requires l.Valid(|s.m.mem|) && l.Thread(s.cur) && |s.left| == |l.cell| && Switches(l, s, next, returnTo, s')
    ensures Parked(l, s', s.cur)
  {
    assert !l.OnStack(s.cur, l.cell[s.cur]);
    CallerIsSaved(s.m, returnTo);
    CellIsSaved(s.m, returnTo);
    assert s'.m.mem == Saved(Called(s.m, returnTo)) && s'.left[s.cur] == Caller(s.m, returnTo);
  }

  /** In the memory `mem` thread `k` is parked as it was in `s`. */
  ghost predicate Survives(l: Layout, s: System, mem: seq<int>, k: int)
    requires l.Valid(|s.m.mem|) && l.Thread(k) && |s.left| == |l.cell| && |mem| == |s.m.mem|
  {
    Resumable(mem, s.m.mem[l.cell[k]], s.left[k]) && mem[l.cell[k]] == s.m.mem[l.cell[k]]
  }

  /** The pushes stay on the caller's stack and the store goes to its cell. */
  lemma ParkedSurvives(l: Layout, s: System, returnTo: int, k: int)
    requires Inv(l, s) && Waits(l, s, k)
    requires l.lo[s.cur] <= s.m.rsp - NREGS - 1 && s.m.rsp <= l.hi[s.cur] && s.m.regs[RDI] == l.cell[s.cur]
    requires CanSwitch(Called(s.m, returnTo))
    ensures Survives(l, s, Saved(Called(s.m, returnTo)), k)
  {
    var mem := Saved(Called(s.m, returnTo));
    forall a {:trigger mem[a]} | l.OnStack(k, a) ensures mem[a] == s.m.mem[a] {
      assert !l.OnStack(s.cur, a) && a != l.cell[s.cur];
    }
    assert !l.OnStack(s.cur, l.cell[k]);
    assert Parked(l, s, k);
  }

  lemma LeftAloneStaysParked(l: Layout, s: System, s': System, k: int)
    requires Inv(l, s) && LeavesAlone(l, s, s') && Waits(l, s, k) && |s'.left| == |s.left| && s'.left[k] == s.left[k]
    ensures Parked(l, s', k)
  {
    assert Parked(l, s, k);
    var at := s.m.mem[l.cell[k]];
    forall a {:trigger s'.m.mem[a]} | at <= a <= at + NREGS ensures s'.m.mem[a] == s.m.mem[a] {
      assert l.OnStack(k, a);
    }
  }

  lemma OthersKeepInv(l: Layout, s: System, s': System)
    requires Inv(l, s) && (Computes(l, s, s') || exists t, rip, thread :: Spawns(l, s, t, rip, thread, s'))
    ensures Inv(l, s')
  {
    forall k | Waits(l, s', k) ensures Parked(l, s', k) {
      if Waits(l, s, k) {
        LeftAloneStaysParked(l, s, s', k);
      }
    }
  }

  /** `switch_context(&threads[cur]->rsp, threads[cur]->rsp)`: the second argument is read before the call. */
  ghost predicate SelfSwitches(l: Layout, s: System, returnTo: int, s': System)
    requires l.Valid(|s.m.mem|) && l.Thread(s.cur) && |s.left| == |l.cell|
  {
    && |s.m.regs| == NREGS
    && l.lo[s.cur] <= s.m.rsp - NREGS - 1 && s.m.rsp <= l.hi[s.cur]
    && s.m.regs[RDI] == l.cell[s.cur] && s.m.regs[RSI] == s.m.mem[l.cell[s.cur]]
    && CanSwitch(Called(s.m, returnTo))
    && s' == System(SwitchContext(Called(s.m, returnTo)), s.cur, s.alive, s.left[s.cur := Caller(s.m, returnTo)])
  }

  /**
   A thread that is switched to itself goes on where it was exactly when its stack is as deep
   as the last time it was saved.
   */
  lemma SelfSwitchOfThread(l: Layout, s: System, returnTo: int, s': System)
    requires Inv(l, s) && SelfSwitches(l, s, returnTo, s')
    ensures Inv(l, s')
    ensures Runs(s'.m, Caller(s.m, returnTo)) <==> s.m.rsp == s.left[s.cur].rsp
  {
    assert !l.OnStack(s.cur, l.cell[s.cur]);
    SelfSwitch(s.m, returnTo);
    forall k | Waits(l, s', k) ensures Parked(l, s', k) {
      ParkedSurvives(l, s, returnTo, k);
      assert Parked(l, s, k);
    }
  }

  /** The frame that `init_stack` lays out and the store of its result make a new thread. */
  lemma InitStackSpawns(l: Layout, s: System, t: int, rip: int, thread: int, mem: seq<int>, regs: seq<int>, s': System)
    requires Inv(l, s) && l.Thread(t) && t !in s.alive && l.lo[t] <= l.hi[t] - NREGS - 1 && |regs| == NREGS
    requires |mem| == |s.m.mem| && Resumable(mem, l.hi[t] - NREGS - 1, Entry(l.hi[t], rip, thread))
    requires forall a | 0 <= a < |mem| && !(l.hi[t] - NREGS - 1 <= a < l.hi[t]) :: mem[a] == s.m.mem[a]
    requires s' == System(s.m.(mem := mem[l.cell[t] := l.hi[t] - NREGS - 1], regs := regs), s.cur,
                          s.alive + {t}, s.left[t := Entry(l.hi[t], rip, thread)])
    ensures Spawns(l, s, t, rip, thread, s')
  {
    assert !l.OnStack(t, l.cell[t]);
    forall k, a | Waits(l, s, k) && l.OnStack(k, a) ensures s'.m.mem[a] == s.m.mem[a] {
      assert !l.OnStack(t, a) && a != l.cell[t];
    }
    forall k | l.Thread(k) && k in s.alive ensures s'.m.mem[l.cell[k]] == s.m.mem[l.cell[k]] {
      assert !l.OnStack(t, l.cell[k]);
    }
  }

  // ---------------------------------------------------------------- whole runs

  datatype Move =
    | Compute
    | Spawn(t: int, rip: int, thread: int)
    | Switch(next: int, returnTo: int)
    | SwitchToSelf(returnTo: int)

  ghost predicate Moves(l: Layout, s: System, move: Move, s': System)
    requires l.Valid(|s.m.mem|) && l.Thread(s.cur) && |s.left| == |l.cell|
  {
    match move
    case Compute => Computes(l, s, s')
    case Spawn(t, rip, thread) => Spawns(l, s, t, rip, thread, s')
    case Switch(next, returnTo) => Switches(l, s, next, returnTo, s')
    case SwitchToSelf(returnTo) => SelfSwitches(l, s, returnTo, s')
  }

  ghost predicate Run(l: Layout, ss: seq<System>, moves: seq<Move>) {
    && |ss| == |moves| + 1
    && (forall i | 0 <= i < |ss| :: l.Valid(|ss[i].m.mem|) && l.Thread(ss[i].cur) && |ss[i].left| == |l.cell|)
    && forall i {:trigger moves[i]} | 0 <= i < |moves| :: Moves(l, ss[i], moves[i], ss[i + 1])
  }

  lemma {:induction false} RunKeepsInv(l: Layout, ss: seq<System>, moves: seq<Move>, k: nat)
    requires Run(l, ss, moves) && Inv(l, ss[0]) && k < |ss|
    ensures Inv(l, ss[k])
  {
    if k != 0 {
      RunKeepsInv(l, ss, moves, k - 1);
      match moves[k - 1]
      case Compute => OthersKeepInv(l, ss[k - 1], ss[k]);
      case Spawn(t, rip, thread) => OthersKeepInv(l, ss[k - 1], ss[k]);
      case Switch(next, returnTo) => SwitchIsTransparent(l, ss[k - 1], next, returnTo, ss[k]);
      case SwitchToSelf(returnTo) => SelfSwitchOfThread(l, ss[k - 1], returnTo, ss[k]);
    }
  }

  /** While a thread does not run, where it left off does not change. */
  lemma {:induction false} LeftStays(l: Layout, ss: seq<System>, moves: seq<Move>, t: int, i: nat, j: nat)
    requires Run(l, ss, moves) && i <= j < |ss| && l.Thread(t) && t in ss[i].alive
    requires forall k | i <= k < j :: ss[k].cur != t
    ensures t in ss[j].alive && ss[j].left[t] == ss[i].left[t]
    decreases j
  {
    if i < j {
      LeftStays(l, ss, moves, t, i, j - 1);
      assert Moves(l, ss[j - 1], moves[j - 1], ss[j]);
    }
  }

  /**
   Transparency over whole runs: a thread that switches away at step `i` and is next switched
   to at step `j` goes on at step `j` with the registers, the stack position and the return
   address it had at step `i`, whatever ran in between.
   */
  lemma ResumesWhereItLeft(l: Layout, ss: seq<System>, moves: seq<Move>, i: nat, j: nat)
    requires Run(l, ss, moves) && Inv(l, ss[0]) && i < j < |moves|
    requires moves[i].Switch? && moves[j].Switch? && moves[j].next == ss[i].cur
    requires forall k | i < k <= j :: ss[k].cur != ss[i].cur
    ensures Runs(ss[j + 1].m, Caller(ss[i].m, moves[i].returnTo))
  {
    var t := ss[i].cur;
    assert Moves(l, ss[i], moves[i], ss[i + 1]) && Moves(l, ss[j], moves[j], ss[j + 1]);
    RunKeepsInv(l, ss, moves, i);
    LeftStays(l, ss, moves, t, i + 1, j);
    RunKeepsInv(l, ss, moves, j);
    SwitchIsTransparent(l, ss[j], t, moves[j].returnTo, ss[j + 1]);
  }

  /** The first switch to a thread enters it at the `rip` it was created with, `rdi` holding the thread. */
  lemma FirstSwitchEnters(l: Layout, ss: seq<System>, moves: seq<Move>, i: nat, j: nat)
    requires Run(l, ss, moves) && Inv(l, ss[0]) && i < j < |moves|
    requires moves[i].Spawn? && moves[j].Switch? && moves[j].next == moves[i].t
    requires forall k | i < k <= j :: ss[k].cur != moves[i].t
    ensures Runs(ss[j + 1].m, Entry(l.hi[moves[i].t], moves[i].rip, moves[i].thread))
    ensures ss[j + 1].m.rip == moves[i].rip && ss[j + 1].m.rsp == l.hi[moves[i].t]
    ensures var regs := ss[j + 1].m.regs;
      |regs| == NREGS && forall r | 0 <= r < NREGS :: regs[r] == if r == RDI then moves[i].thread else 0
  {
    var t := moves[i].t;
    assert Moves(l, ss[i], moves[i], ss[i + 1]) && Moves(l, ss[j], moves[j], ss[j + 1]);
    LeftStays(l, ss, moves, t, i + 1, j);
    RunKeepsInv(l, ss, moves, j);
    SwitchIsTransparent(l, ss[j], t, moves[j].returnTo, ss[j + 1]);
  }

  /** While a thread runs without switching, where it was last saved does not change either. */
  lemma {:induction false} LeftStaysWhileRunning(l: Layout, ss: seq<System>, moves: seq<Move>, t: int, i: nat, j: nat)
    requires Run(l, ss, moves) && i <= j < |ss| && ss[i].cur == t && t in ss[i].alive
    requires forall k | i <= k < j :: moves[k].Compute? || moves[k].Spawn?
    ensures ss[j].cur == t && t in ss[j].alive && ss[j].left[t] == ss[i].left[t]
    decreases j
  {
    if i < j {
      LeftStaysWhileRunning(l, ss, moves, t, i, j - 1);
      assert Moves(l, ss[j - 1], moves[j - 1], ss[j]);
    }
  }

  /**
   A thread that is created at step `i`, runs first from step `j` on, and is the only runnable
   one when the scheduler is called at step `k` from anywhere below the bottom of its stack,
   does not come back to where it was.
   */
  lemma FirstSelfSwitchLosesThread(l: Layout, ss: seq<System>, moves: seq<Move>, i: nat, j: nat, k: nat)
    requires Run(l, ss, moves) && Inv(l, ss[0]) && i < j < k < |moves|
    requires moves[i].Spawn? && moves[j].Switch? && moves[j].next == moves[i].t
    requires forall n | i < n <= j :: ss[n].cur != moves[i].t
    requires (forall n | j < n < k :: moves[n].Compute? || moves[n].Spawn?) && moves[k].SwitchToSelf?
    requires ss[k].m.rsp < l.hi[moves[i].t]
    ensures !Runs(ss[k + 1].m, Caller(ss[k].m, moves[k].returnTo))
  {
    StillAsCreated(l, ss, moves, i, j, k);
    MoveOfRun(l, ss, moves, k);
    RunKeepsInv(l, ss, moves, k);
    SelfSwitchOfThread(l, ss[k], moves[k].returnTo, ss[k + 1]);
  }

  lemma MoveOfRun(l: Layout, ss: seq<System>, moves: seq<Move>, i: nat)
    requires Run(l, ss, moves) && i < |moves|
    ensures l.Valid(|ss[i].m.mem|) && l.Thread(ss[i].cur) && |ss[i].left| == |l.cell|
    ensures Moves(l, ss[i], moves[i], ss[i + 1])
  {
  }

  lemma StillAsCreated(l: Layout, ss: seq<System>, moves: seq<Move>, i: nat, j: nat, k: nat)
    requires Run(l, ss, moves) && i < j < k < |moves|
    requires moves[i].Spawn? && moves[j].Switch? && moves[j].next == moves[i].t
    requires forall n | i < n <= j :: ss[n].cur != moves[i].t
    requires forall n | j < n < k :: moves[n].Compute? || moves[n].Spawn?
    ensures ss[k].cur == moves[i].t && l.Thread(moves[i].t) && |ss[k].left| == |l.cell| == |l.hi|
    ensures ss[k].left[moves[i].t] == Entry(l.hi[moves[i].t], moves[i].rip, moves[i].thread)
  {
    var t := moves[i].t;
    MoveOfRun(l, ss, moves, i);
    MoveOfRun(l, ss, moves, j);
    LeftStays(l, ss, moves, t, i + 1, j);
    LeftStaysWhileRunning(l, ss, moves, t, j + 1, k);
  }

  /** The running thread sets its stack pointer and loads the arguments of `switch_context`. */
  lemma LoadArguments(l: Layout, s: System, rsp: int, next: int) returns (s': System)
    requires Inv(l, s) && l.Thread(next)
    ensures Inv(l, s') && Computes(l, s, s')
    ensures s'.m.mem == s.m.mem && s'.m.rsp == rsp && s'.cur == s.cur && s'.left == s.left && s'.alive == s.alive
    ensures s'.m.regs[RDI] == l.cell[s.cur] && s'.m.regs[RSI] == s.m.mem[l.cell[next]]
  {
    s' := s.(m := s.m.(regs := s.m.regs[RDI := l.cell[s.cur]][RSI := s.m.mem[l.cell[next]]], rsp := rsp));
    OthersKeepInv(l, s, s');
  }

  /** With arguments loaded and room on its stack, a thread can switch to another. */
  lemma SwitchesTo(l: Layout, s: System, t: int) returns (s': System)
    requires Inv(l, s) && Waits(l, s, t)
    requires l.lo[s.cur] <= s.m.rsp - NREGS - 1 && s.m.rsp <= l.hi[s.cur]
    requires s.m.regs[RDI] == l.cell[s.cur] && s.m.regs[RSI] == s.m.mem[l.cell[t]]
    ensures Switches(l, s, t, 0, s') && Inv(l, s') && s'.cur == t && s'.left[t] == s.left[t]
  {
    assert Parked(l, s, t);
    s' := System(SwitchContext(Called(s.m, 0)), t, s.alive, s.left[s.cur := Caller(s.m, 0)]);
    SwitchIsTransparent(l, s, t, 0, s');
  }

  /** ... or to itself, when the frame it was saved in last is still on its stack. */
  lemma SwitchesToItself(l: Layout, s: System) returns (s': System)
    requires Inv(l, s) && l.lo[s.cur] <= s.m.rsp - NREGS - 1 && s.m.rsp < s.left[s.cur].rsp <= l.hi[s.cur]
    requires s.m.regs[RDI] == l.cell[s.cur] && s.m.regs[RSI] == s.m.mem[l.cell[s.cur]]
    ensures SelfSwitches(l, s, 0, s') && Inv(l, s') && !Runs(s'.m, Caller(s.m, 0))
  {
    s' := System(SwitchContext(Called(s.m, 0)), s.cur, s.alive, s.left[s.cur := Caller(s.m, 0)]);
    SelfSwitchOfThread(l, s, 0, s');
  }

  lemma Extend(l: Layout, ss: seq<System>, moves: seq<Move>, s: System, move: Move, s': System)
    requires Run(l, ss, moves) && ss[|moves|] == s && Inv(l, s) && Inv(l, s') && Moves(l, s, move, s')
    ensures Run(l, ss + [s'], moves + [move])
  {
  }

  /**
   Any parked thread with a word of stack to spare can be lost: the running thread switches to
   it, it calls something, and the scheduler then finds no other thread.
   */
  lemma AnyThreadCanBeLost(l: Layout, s: System, t: int) returns (ss: seq<System>, moves: seq<Move>)
    requires Inv(l, s) && Waits(l, s, t)
    requires l.lo[s.cur] + NREGS + 1 <= l.hi[s.cur] && l.lo[t] + NREGS + 2 <= s.left[t].rsp
    ensures Run(l, ss, moves) && |moves| == 4 && ss[0] == s
    ensures moves[3].SwitchToSelf? && ss[3].cur == t && !Runs(ss[4].m, Caller(ss[3].m, moves[3].returnTo))
  {
    assert Parked(l, s, t);
    var s1 := LoadArguments(l, s, l.hi[s.cur], t);
    var s2 := SwitchesTo(l, s1, t);
    var s3 := LoadArguments(l, s2, s.left[t].rsp - 1, t);
    var s4 := SwitchesToItself(l, s3);
    Extend(l, [s], [], s, Compute, s1);
    Extend(l, [s] + [s1], [] + [Compute], s1, Switch(t, 0), s2);
    Extend(l, [s] + [s1] + [s2], [] + [Compute] + [Switch(t, 0)], s2, Compute, s3);
    ss, moves := [s] + [s1] + [s2] + [s3], [] + [Compute] + [Switch(t, 0)] + [Compute];
    Extend(l, ss, moves, s3, SwitchToSelf(0), s4);
    ss, moves := ss + [s4], moves + [SwitchToSelf(0)];
  }

  // ---------------------------------------------------------------- the machine itself

  class Cpu {
    var regs: seq<int>
    var rsp: int
    var rip: int
    const mem: array<int>

    ghost predicate Valid()
      reads this
    {
      |regs| == NREGS
    }

    ghost function State(): (s: Machine)
      reads this, mem
    {
      Machine(mem[..], regs, rsp, rip)
    }

    method Push(x: int)
      requires 0 < rsp <= mem.Length
      modifies this`rsp, mem
      ensures rsp == old(rsp) - 1 && mem[..] == old(mem[..])[rsp := x]
    {
      rsp := rsp - 1;
      mem[rsp] := x;
    }

    method Pop() returns (x: int)
      requires 0 <= rsp < mem.Length
      modifies this`rsp
      ensures rsp == old(rsp) + 1 && x == old(mem[rsp])
    {
      x := mem[rsp];
      rsp := rsp + 1;
    }

    /** Five pushes in a row, `e` first. */
    method PushFive(e: int, d: int, c: int, b: int, a: int)
      requires 5 <= rsp <= mem.Length
      modifies this`rsp, mem
      ensures rsp == old(rsp) - 5 && mem[..] == Write(old(mem[..]), rsp, [a, b, c, d, e])
    {
      Push(e);
      Push(d);
      Push(c);
      Push(b);
      Push(a);
    }

    /** Five pops in a row, into the registers from `r` on. */
    method PopFive(r: int)
      requires Valid() && 0 <= r && r + 5 <= NREGS && 0 <= rsp && rsp + 5 <= mem.Length
      modifies this`rsp, this`regs
      ensures Valid() && rsp == old(rsp) + 5
      ensures regs == Write(old(regs), r, mem[old(rsp)..rsp])
    {
      var a := Pop();
      var b := Pop();
      var c := Pop();
      var d := Pop();
      var e := Pop();
      regs := regs[r := a][r + 1 := b][r + 2 := c][r + 3 := d][r + 4 := e];
    }

    /** The first ten of the fifteen pushes. */
    method PushUpper(frame: seq<int>)
      requires |frame| == NREGS <= rsp <= mem.Length
      modifies this`rsp, mem
      ensures rsp == old(rsp) - 10 && mem[..] == Write(old(mem[..]), rsp, frame[RDI..])
    {
      PushFive(frame[RBP], frame[R15], frame[R14], frame[R13], frame[R12]);
      PushFive(frame[R11], frame[R10], frame[R9], frame[R8], frame[RDI]);
    }

    /** The fifteen pushes of a register frame. */
    method PushFrame(frame: seq<int>)
      requires |frame| == NREGS <= rsp <= mem.Length
      modifies this`rsp, mem
      ensures rsp == old(rsp) - NREGS && mem[..] == Write(old(mem[..]), rsp, frame)
    {
      PushUpper(frame);
      PushFive(frame[RSI], frame[RDX], frame[RCX], frame[RBX], frame[RAX]);
    }

    /** The fifteen pops, `rax` first. */
    method PopFrame()
      requires Valid() && 0 <= rsp && rsp + NREGS <= mem.Length
      modifies this`rsp, this`regs
      ensures Valid() && rsp == old(rsp) + NREGS
      ensures regs == mem[..][old(rsp)..rsp]
    {
      ghost var before := regs;
      PopFive(RAX);
      PopFive(RDI);
      assert regs == Write(before, RAX, mem[old(rsp)..rsp]);
      PopFive(R12);
      assert regs == Write(before, RAX, mem[old(rsp)..rsp]);
    }

    /** The first half of the switch: the registers are pushed and `rsp` stored through `rdi`. */
    method Save()
      requires Valid() && CanSwitch(State())
      modifies this`rsp, mem
      ensures Valid() && mem[..] == Saved(old(State()))
    {
      PushFrame(regs);
      mem[regs[RDI]] := rsp;
    }

    /** Entered by a call, so with the return address on top of the stack. */
    method Switch()
      requires Valid() && CanSwitch(State())
      modifies this, mem
      ensures Valid() && State() == SwitchContext(old(State()))
    {
      ghost var m := State();
      Save();
      rsp := regs[RSI];
      PopFrame();
      rip := Pop();
    }

    /** `init_stack(bottom, entry, thread)`; the stack pointer to start from is returned in `rax`. */
    method InitStack(bottom: int, entry: int, thread: int) returns (top: int)
      requires Valid() && NREGS + 1 <= bottom <= mem.Length
      modifies this`regs, this`rsp, mem
      ensures Valid() && rsp == old(rsp) && top == bottom - NREGS - 1
      ensures regs == old(regs)[RCX := old(rsp)][RAX := top]
      ensures Resumable(mem[..], top, Entry(bottom, entry, thread))
      ensures mem[bottom - 1] == entry && mem[top + RDI] == thread
      ensures forall a | top <= a < bottom - 1 && a != top + RDI :: mem[a] == 0
      ensures forall a | 0 <= a < mem.Length && !(top <= a < bottom) :: mem[a] == old(mem[a])
    {
      regs := regs[RCX := rsp];
      rsp := bottom;
      Push(entry);
      PushFrame([0, 0, 0, 0, 0, thread, 0, 0, 0, 0, 0, 0, 0, 0, 0]);
      regs := regs[RAX := rsp];
      top := rsp;
      rsp := regs[RCX];
    }
  }
}
