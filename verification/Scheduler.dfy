/**
 Bounded waiting under the round-robin scheduler (kernel/task.c) driven by the timer
 (kernel/int_handler.c). Between calls the other threads may do anything but fork.
 */
module Scheduler {
  import opened KernelState

  /** Calls of the scheduler, at most, until the thread in slot `t` is chosen. */
  function Distance(cur: int, t: int): (d: int) {
    if cur < t then t - cur else t - cur + THREAD_NUM
  }

  ghost predicate RunnableAt(threads: seq<Thread>, t: int) {
    |threads| == THREAD_NUM && 0 <= t < THREAD_NUM && threads[t].state == RUNNABLE
  }

  /** Each call chooses the thread or brings the scheduler closer to it. */
  lemma ScheduleApproaches(threads: seq<Thread>, cur: int, next: int, i: int, t: int)
    requires RunnableAt(threads, t) && 0 <= cur < THREAD_NUM && IsNext(threads, cur, next, i)
    ensures 0 <= next < THREAD_NUM
    ensures next == t || 1 <= Distance(next, t) < Distance(cur, t)
  {
    assert Slot(cur, Distance(cur, t)) == t;
  }

  /** `next` is runnable, and nothing strictly between `cur` and it is, going round. */
  ghost predicate Nearest(threads: seq<Thread>, cur: int, next: int)
    requires |threads| == THREAD_NUM
  {
    && 0 <= next < THREAD_NUM && threads[next].state == RUNNABLE
    && forall t | 0 <= t < THREAD_NUM && (if cur < next then cur < t < next else cur < t || t < next) ::
         threads[t].state != RUNNABLE
  }

  /** That is what the loop finds. */
  lemma NextIsNearest(threads: seq<Thread>, cur: int, next: int, i: int)
    requires |threads| == THREAD_NUM && 0 <= cur < THREAD_NUM && IsNext(threads, cur, next, i)
    ensures Nearest(threads, cur, next)
  {
    forall t | 0 <= t < THREAD_NUM && (if cur < next then cur < t < next else cur < t || t < next)
      ensures threads[t].state != RUNNABLE
    {
      if threads[t].state == RUNNABLE {
        ScheduleApproaches(threads, cur, next, i, t);
      }
    }
  }

  /** The test of the scheduler's loop never succeeds exactly when nothing is runnable; then it spins for ever. */
  lemma SpinsForever(threads: seq<Thread>, cur: int)
    requires |threads| == THREAD_NUM && 0 <= cur < THREAD_NUM
    ensures (forall i: nat :: threads[Slot(cur, i)].state != RUNNABLE) <==> !SomeRunnable(threads)
  {
    if SomeRunnable(threads) {
      var t :| 0 <= t < THREAD_NUM && threads[t].state == RUNNABLE;
      assert Slot(cur, Distance(cur, t)) == t;
    }
  }

  /** The choice is determined by the table: it is the nearest runnable slot. */
  lemma ChoiceIsUnique(threads: seq<Thread>, cur: int, n: int, i: int, n': int, i': int)
    requires |threads| == THREAD_NUM && IsNext(threads, cur, n, i) && IsNext(threads, cur, n', i')
    ensures n == n' && i == i'
  {
    assert Slot(cur, i) == n && Slot(cur, i') == n';
  }

  /** The caller is chosen again exactly when nothing else is runnable: the scheduler switches it to itself. */
  lemma ChoosesItself(threads: seq<Thread>, cur: int, next: int, i: int)
    requires |threads| == THREAD_NUM && 0 <= cur < THREAD_NUM && IsNext(threads, cur, next, i)
    ensures next == cur <==> forall t | 0 <= t < THREAD_NUM && t != cur :: threads[t].state != RUNNABLE
  {
    forall t | 0 <= t < THREAD_NUM && t != cur && threads[t].state == RUNNABLE ensures next != cur {
      ScheduleApproaches(threads, cur, next, i, t);
      assert Slot(cur, Distance(cur, t)) == t;
    }
  }

  // ---------------------------------------------------------------- the timer

  /** `tick`, `previous_interrupt` and `cur_thread_index`. */
  datatype Clock = Clock(tick: int, previous: int, cur: int)

  /** Either a timer interrupt, or a thread gives way in `wait`, `signal` or at its end. */
  datatype Occasion = Interrupt | GiveWay

  ghost predicate Chosen(threads: seq<Thread>, cur: int, cur': int)
    requires |threads| == THREAD_NUM
  {
    exists i :: IsNext(threads, cur, cur', i)
  }

  /** `timer_handler`: count the tick, and schedule when the period has gone by. */
  ghost predicate Handled(c: Clock, c': Clock, threads: seq<Thread>, period: nat)
    requires |threads| == THREAD_NUM
  {
    var tick := c.tick + 1;
    if tick > c.previous + period && tick > 90
    then c'.tick == tick && c'.previous == tick && Chosen(threads, c.cur, c'.cur)
    else c' == c.(tick := tick)
  }

  ghost predicate Occurs(o: Occasion, c: Clock, c': Clock, threads: seq<Thread>, period: nat)
    requires |threads| == THREAD_NUM
  {
    match o
    case Interrupt => Handled(c, c', threads, period)
    case GiveWay => c' == c.(cur := c'.cur) && Chosen(threads, c.cur, c'.cur)
  }

  /** A run of the timer and of calls that give way, over tables that change at will. */
  ghost predicate Clocks(cs: seq<Clock>, os: seq<Occasion>, tables: seq<seq<Thread>>, period: nat) {
    && |cs| == |os| + 1 && |tables| == |os|
    && (forall k {:trigger tables[k]} | 0 <= k < |os| :: |tables[k]| == THREAD_NUM)
    && forall k {:trigger os[k]} | 0 <= k < |os| :: Occurs(os[k], cs[k], cs[k + 1], tables[k], period)
  }

  /** A run in which the thread in slot `t` stays runnable while the tables change at will. */
  ghost predicate Run(cs: seq<Clock>, os: seq<Occasion>, tables: seq<seq<Thread>>, period: nat, t: int) {
    && Clocks(cs, os, tables, period) && 0 <= t < THREAD_NUM
    && 0 <= cs[0].cur < THREAD_NUM && cs[0].previous <= cs[0].tick && 90 <= cs[0].tick
    && forall k {:trigger tables[k]} | 0 <= k < |os| :: RunnableAt(tables[k], t)
  }

  /** The scheduler is called at step `k` and chooses `t`. */
  ghost predicate Picks(cs: seq<Clock>, os: seq<Occasion>, k: int, t: int)
    requires |cs| == |os| + 1
  {
    0 <= k < |os| && cs[k + 1].cur == t && (os[k].Interrupt? ==> cs[k + 1].previous == cs[k + 1].tick)
  }

  function Ticks(os: seq<Occasion>, k: nat): (n: nat)
    requires k <= |os|
  {
    if k == 0 then 0 else Ticks(os, k - 1) + if os[k - 1].Interrupt? then 1 else 0
  }

  // ---------------------------------------------------------------- a thread keeps its period

  /** Two consecutive clocks: every interrupt is a tick, and `previous_interrupt` is when the timer last scheduled. */
  lemma ClockSteps(cs: seq<Clock>, os: seq<Occasion>, tables: seq<seq<Thread>>, period: nat, k: nat)
    requires Clocks(cs, os, tables, period) && k < |os|
    ensures cs[k + 1].tick == cs[k].tick + if os[k].Interrupt? then 1 else 0
    ensures cs[k + 1].previous != cs[k].previous <==>
      os[k].Interrupt? && cs[k + 1].tick > cs[k].previous + period && cs[k + 1].tick > 90
    ensures cs[k + 1].previous != cs[k].previous ==> cs[k + 1].previous == cs[k + 1].tick
    ensures cs[k + 1].previous != cs[k].previous && 0 <= cs[k].cur < THREAD_NUM ==>
      Nearest(tables[k], cs[k].cur, cs[k + 1].cur)
    ensures os[k].Interrupt? && (cs[k + 1].previous == cs[k].previous || cs[k + 1].tick <= 90) ==>
      cs[k + 1].cur == cs[k].cur
  {
    assert Occurs(os[k], cs[k], cs[k + 1], tables[k], period);
    if cs[k + 1].previous != cs[k].previous && 0 <= cs[k].cur < THREAD_NUM {
      var i :| IsNext(tables[k], cs[k].cur, cs[k + 1].cur, i);
      NextIsNearest(tables[k], cs[k].cur, cs[k + 1].cur, i);
    }
  }

  /** After the timer has scheduled at step `j`, it lets the period go by. */
  lemma {:induction false} PeriodGoesBy(cs: seq<Clock>, os: seq<Occasion>, tables: seq<seq<Thread>>, period: nat, j: nat, k: nat)
    requires Clocks(cs, os, tables, period) && j < k <= |os| && cs[j + 1].previous != cs[j].previous
    requires forall m | j < m < k :: cs[m + 1].previous == cs[m].previous
    ensures cs[k].previous == cs[j + 1].tick && 90 < cs[j + 1].tick && cs[k].tick <= cs[j + 1].tick + period
    ensures cs[k].tick - cs[j + 1].tick == Ticks(os, k) - Ticks(os, j + 1)
    decreases k
  {
    if k == j + 1 {
      ClockSteps(cs, os, tables, period, j);
    } else {
      PeriodGoesBy(cs, os, tables, period, j, k - 1);
      ClockSteps(cs, os, tables, period, k - 1);
      assert cs[k - 1 + 1].previous == cs[k - 1].previous;
    }
  }

  /**
   From one time the timer schedules to the next, exactly `period + 1` ticks go by: no thread
   loses the processor to the timer earlier, and none keeps it longer.
   */
  lemma ThreadKeepsItsPeriod(cs: seq<Clock>, os: seq<Occasion>, tables: seq<seq<Thread>>, period: nat, j: nat, k: nat)
    requires Clocks(cs, os, tables, period) && j < k < |os|
    requires cs[j + 1].previous != cs[j].previous && cs[k + 1].previous != cs[k].previous
    requires forall m | j < m < k :: cs[m + 1].previous == cs[m].previous
    ensures cs[k + 1].tick - cs[j + 1].tick == Ticks(os, k + 1) - Ticks(os, j + 1) == period + 1
    ensures forall m | j < m < k && os[m].Interrupt? :: cs[m + 1].cur == cs[m].cur
  {
    PeriodGoesBy(cs, os, tables, period, j, k);
    ClockSteps(cs, os, tables, period, k);
    forall m | j < m < k && os[m].Interrupt? ensures cs[m + 1].cur == cs[m].cur {
      ClockSteps(cs, os, tables, period, m);
    }
  }

  /** The ticks of `d` whole periods. */
  function Periods(d: nat, period: nat): (n: nat) {
    if d == 0 then 0 else Periods(d - 1, period) + period + 1
  }

  lemma {:induction false} PeriodsMultiply(d: nat, period: nat)
    ensures Periods(d, period) == d * (period + 1)
  {
    if d != 0 {
      PeriodsMultiply(d - 1, period);
    }
  }

  lemma {:induction false} PeriodsGrow(a: nat, b: nat, period: nat)
    requires a < b
    ensures Periods(a, period) + period + 1 <= Periods(b, period)
  {
    if a + 1 < b {
      PeriodsGrow(a, b - 1, period);
    }
  }

  /** Ticks, at most, until `t` is chosen: whole periods for the slots before it, and the rest of this one. */
  function TicksLeft(c: Clock, period: nat, t: int): (n: int)
    requires 0 <= c.cur < THREAD_NUM && 0 <= t < THREAD_NUM
  {
    var rest := c.previous + period + 1 - c.tick;
    Periods(Distance(c.cur, t) - 1, period) + if rest < 1 then 1 else rest
  }

  lemma OccasionApproaches(o: Occasion, c: Clock, c': Clock, threads: seq<Thread>, period: nat, t: int)
    requires RunnableAt(threads, t) && 0 <= c.cur < THREAD_NUM && c.previous <= c.tick && 90 <= c.tick
    requires Occurs(o, c, c', threads, period)
    ensures 0 <= c'.cur < THREAD_NUM && c'.previous <= c'.tick && 90 <= c'.tick
    ensures (c'.cur == t && (o.Interrupt? ==> c'.previous == c'.tick))
      || (TicksLeft(c', period, t) + (if o.Interrupt? then 1 else 0) <= TicksLeft(c, period, t) && 1 <= TicksLeft(c', period, t))
  {
    var scheduled := o.GiveWay? || (c.tick + 1 > c.previous + period && c.tick + 1 > 90);
    if scheduled {
      var i :| IsNext(threads, c.cur, c'.cur, i);
      ScheduleApproaches(threads, c.cur, c'.cur, i, t);
      if c'.cur != t {
        PeriodsGrow(Distance(c'.cur, t) - 1, Distance(c.cur, t) - 1, period);
      }
    }
  }

  /** Until the thread is chosen, every tick uses up one of the ticks left. */
  lemma {:induction false} TicksRunOut(cs: seq<Clock>, os: seq<Occasion>, tables: seq<seq<Thread>>, period: nat, t: int, k: nat)
    requires Run(cs, os, tables, period, t) && k <= |os|
    requires forall j | 0 <= j < k :: !Picks(cs, os, j, t)
    ensures 0 <= cs[k].cur < THREAD_NUM && cs[k].previous <= cs[k].tick && 90 <= cs[k].tick
    ensures k != 0 ==> 1 <= TicksLeft(cs[k], period, t)
    ensures TicksLeft(cs[k], period, t) + Ticks(os, k) <= TicksLeft(cs[0], period, t)
  {
    if k != 0 {
      TicksRunOut(cs, os, tables, period, t, k - 1);
      assert !Picks(cs, os, k - 1, t) && RunnableAt(tables[k - 1], t);
      assert Occurs(os[k - 1], cs[k - 1], cs[k], tables[k - 1], period);
      OccasionApproaches(os[k - 1], cs[k - 1], cs[k], tables[k - 1], period, t);
    }
  }

  /** A runnable thread runs within `THREAD_NUM * (period + 1)` ticks, whatever the others do. */
  lemma RunsWithinTicks(cs: seq<Clock>, os: seq<Occasion>, tables: seq<seq<Thread>>, period: nat, t: int)
    requires Run(cs, os, tables, period, t)
    requires Ticks(os, |os|) >= THREAD_NUM * (period + 1)
    ensures exists k :: Picks(cs, os, k, t)
  {
    if forall k :: !Picks(cs, os, k, t) {
      TicksRunOut(cs, os, tables, period, t, |os|);
      PeriodsGrow(Distance(cs[0].cur, t) - 1, THREAD_NUM, period);
      PeriodsMultiply(THREAD_NUM, period);
    }
  }

  /** ... and within `THREAD_NUM` calls of the scheduler. */
  lemma RunsWithinCalls(curs: seq<int>, tables: seq<seq<Thread>>, t: int) returns (k: nat)
    requires |curs| == |tables| + 1 && |tables| >= THREAD_NUM
    requires 0 <= t < THREAD_NUM && 0 <= curs[0] < THREAD_NUM
    requires forall j | 0 <= j < |tables| :: RunnableAt(tables[j], t) && Chosen(tables[j], curs[j], curs[j + 1])
    ensures 1 <= k <= Distance(curs[0], t) && curs[k] == t
  {
    k := 0;
    while k == 0 || curs[k] != t
      invariant 0 <= k <= Distance(curs[0], t) && 0 <= curs[k] < THREAD_NUM
      invariant (k != 0 && curs[k] == t) || k + Distance(curs[k], t) <= Distance(curs[0], t)
      decreases Distance(curs[0], t) - k
    {
      assert RunnableAt(tables[k], t) && Chosen(tables[k], curs[k], curs[k + 1]);
      var i :| IsNext(tables[k], curs[k], curs[k + 1], i);
      ScheduleApproaches(tables[k], curs[k], curs[k + 1], i, t);
      k := k + 1;
    }
  }
}
