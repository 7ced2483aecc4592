/** The task state machine of kernel/task.c, interleaved with the timer interrupt of
    drivers/timer.c. Tasks are numbered by creation, so the list head is the last one and a
    scan of the list visits the numbers downwards. */
module Scheduling {
  import opened Machine

  const NONE := -1

  datatype TaskState = Running | Ready | Blocked | Sleeping | Zombie | Stopped

  datatype Task = Task(pid: int, state: TaskState, sleepTicks: int, priority: int, exitCode: int)

  predicate Eligible(t: Task) {
    t.state.Ready? || t.state.Running?
  }

  /** What one timer tick, or one visit of the scheduler's scan, does to a task. */
  function Countdown(t: Task): Task {
    if t.state.Sleeping? && t.sleepTicks > 0 then
      if t.sleepTicks == 1 then t.(sleepTicks := 0, state := Ready) else t.(sleepTicks := t.sleepTicks - 1)
    else t
  }

  function CountdownFrom(ts: seq<Task>, from: int): (r: seq<Task>) {
    seq(|ts|, i requires 0 <= i < |ts| => if i >= from then Countdown(ts[i]) else ts[i])
  }

  /** Task i goes before task j: higher priority, or equal priority and created later. */
  predicate Beats(ts: seq<Task>, i: int, j: int)
    requires 0 <= i < |ts| && 0 <= j < |ts|
  {
    ts[i].priority > ts[j].priority || (ts[i].priority == ts[j].priority && i > j)
  }

  /** b is the greatest eligible task among those numbered `from` and up, or NONE. */
  ghost predicate IsBest(ts: seq<Task>, from: int, b: int)
    requires 0 <= from
  {
    if b == NONE then forall i :: from <= i < |ts| ==> !Eligible(ts[i])
    else
      && from <= b < |ts| && Eligible(ts[b])
      && forall i :: from <= i < |ts| && i != b && Eligible(ts[i]) ==> Beats(ts, b, i)
  }

  /** Idle: no schedule call is under way. Scanning: `task_schedule` has visited the tasks
      numbered pos and up. Halted: "No tasks to run". */
  datatype Mode = Idle | Scanning(pos: int, best: int) | Halted

  datatype System = System(tasks: seq<Task>, cur: int, nextPid: int, mode: Mode)

  const BOOT := System([], NONE, 1, Idle)

  datatype Event =
    | Create(priority: int) | Fork | Yield | Sleep(ticks: int) | Wake(task: int) | Exit(code: int)
    | Tick | Scan | Switch

  predicate Enabled(s: System, e: Event) {
    match e
    case Tick => true
    case Scan => s.mode.Scanning? && 0 < s.mode.pos <= |s.tasks|
    case Switch => s.mode.Scanning? && s.mode.pos == 0
    case Wake(i) => s.mode.Idle? && 0 <= i < |s.tasks|
    case Sleep(n) => s.mode.Idle? && 0 <= n < WORD
    case _ => s.mode.Idle?
  }

  predicate InRange(s: System) {
    && NONE <= s.cur < |s.tasks|
    && (s.mode.Scanning? ==>
         0 <= s.mode.pos <= |s.tasks| && (s.mode.best == NONE || s.mode.pos <= s.mode.best < |s.tasks|))
  }

  function StartScan(s: System): System { s.(mode := Scanning(|s.tasks|, NONE)) }

  function Visit(s: System): System
    requires InRange(s) && Enabled(s, Scan)
  {
    var i, best := s.mode.pos - 1, s.mode.best;
    var better := Eligible(s.tasks[i]) && (best == NONE || s.tasks[i].priority > s.tasks[best].priority);
    s.(tasks := s.tasks[i := Countdown(s.tasks[i])], mode := Scanning(i, if better then i else best))
  }

  function SwitchTo(tasks: seq<Task>, cur: int, next: int): seq<Task>
    requires NONE <= cur < |tasks| && 0 <= next < |tasks|
  {
    var marked := tasks[next := tasks[next].(state := Running)];
    if cur != NONE && marked[cur].state.Running? then marked[cur := marked[cur].(state := Ready)] else marked
  }

  function Decide(s: System, best: int): System
    requires NONE <= s.cur < |s.tasks| && NONE <= best < |s.tasks|
  {
    if best == NONE then s.(mode := Halted)
    else if best == s.cur then s.(mode := Idle)
    else s.(tasks := SwitchTo(s.tasks, s.cur, best), cur := best, mode := Idle)
  }

  function Next(s: System, e: Event): System
    requires InRange(s) && Enabled(s, e)
  {
    match e
    case Create(priority) =>
      s.(tasks := s.tasks + [Task(s.nextPid, Ready, 0, priority, 0)], nextPid := (s.nextPid + 1) % WORD)
    case Fork =>
      if s.cur == NONE then s
      else s.(tasks := s.tasks + [s.tasks[s.cur].(pid := s.nextPid, state := Ready)],
              nextPid := (s.nextPid + 1) % WORD)
    case Yield => StartScan(s)
    case Sleep(n) =>
      if s.cur == NONE then s
      else StartScan(s.(tasks := s.tasks[s.cur := s.tasks[s.cur].(sleepTicks := n, state := Sleeping)]))
    case Exit(code) =>
      if s.cur == NONE then s
      else StartScan(s.(tasks := s.tasks[s.cur := s.tasks[s.cur].(state := Zombie, exitCode := code)]))
    case Wake(i) =>
      if s.tasks[i].state.Sleeping? then s.(tasks := s.tasks[i := s.tasks[i].(state := Ready, sleepTicks := 0)]) else s
    case Tick => s.(tasks := CountdownFrom(s.tasks, 0))
    case Scan => Visit(s)
    case Switch => Decide(s, s.mode.best)
  }

  // ---------------------------------------------------------------- invariants of every run

  ghost predicate Inv(s: System) {
    && InRange(s)
    && (forall i :: 0 <= i < |s.tasks| && s.tasks[i].state.Running? ==> i == s.cur)
    && (s.mode.Scanning? && s.mode.best != NONE ==> Eligible(s.tasks[s.mode.best]))
    && (s.mode.Idle? && s.cur != NONE ==> Eligible(s.tasks[s.cur]))
    && (forall i :: 0 <= i < |s.tasks| ==> s.tasks[i].pid == (i + 1) % WORD)
    && s.nextPid == (|s.tasks| + 1) % WORD
  }

  ghost predicate IsRun(ss: seq<System>, es: seq<Event>) {
    && |ss| == |es| + 1
    && ss[0] == BOOT
    && forall k :: 0 <= k < |es| ==> InRange(ss[k]) && Enabled(ss[k], es[k]) && ss[k + 1] == Next(ss[k], es[k])
  }

  lemma StepKeepsInv(s: System, e: Event)
    requires Inv(s) && Enabled(s, e)
    ensures Inv(Next(s, e))
  {
    match e
    case Tick => TickKeepsInv(s);
    case Scan => ScanKeepsInv(s);
    case Switch => SwitchKeepsInv(s);
    case Create(priority) => CreateKeepsInv(s, priority);
    case Fork => ForkKeepsInv(s);
    case Sleep(_) => SuspendKeepsInv(s, e);
    case Exit(_) => SuspendKeepsInv(s, e);
    case Wake(i) => WakeKeepsInv(s, i);
    case Yield =>
  }

  lemma CreateKeepsInv(s: System, priority: int)
    requires Inv(s) && s.mode.Idle?
    ensures Inv(Next(s, Create(priority)))
  {
  }

  lemma ForkKeepsInv(s: System)
    requires Inv(s) && s.mode.Idle?
    ensures Inv(Next(s, Fork))
  {
  }

  lemma SuspendKeepsInv(s: System, e: Event)
    requires Inv(s) && Enabled(s, e) && (e.Sleep? || e.Exit?)
    ensures Inv(Next(s, e))
  {
  }

  lemma WakeKeepsInv(s: System, i: int)
    requires Inv(s) && Enabled(s, Wake(i))
    ensures Inv(Next(s, Wake(i)))
  {
  }

  lemma TickKeepsInv(s: System)
    requires Inv(s)
    ensures Inv(Next(s, Tick))
  {
  }

  lemma ScanKeepsInv(s: System)
    requires Inv(s) && Enabled(s, Scan)
    ensures Inv(Visit(s))
  {
  }

  lemma SwitchKeepsInv(s: System)
    requires Inv(s) && Enabled(s, Switch)
    ensures Inv(Decide(s, s.mode.best))
  {
  }

  /** Under every interleaving, at most one task is RUNNING and it is the current one;
      between schedule calls the current task is eligible, so neither zombie nor asleep. */
  lemma {:induction false} RunKeepsInv(ss: seq<System>, es: seq<Event>, k: int)
    requires IsRun(ss, es) && 0 <= k <= |es|
    ensures Inv(ss[k])
    decreases k
  {
    if k > 0 {
      RunKeepsInv(ss, es, k - 1);
      StepKeepsInv(ss[k - 1], es[k - 1]);
      assert ss[k - 1 + 1] == Next(ss[k - 1], es[k - 1]);
    }
  }

  lemma TasksOnlyGrow(s: System, e: Event)
    requires InRange(s) && Enabled(s, e)
    ensures |s.tasks| <= |Next(s, e).tasks|
  {
  }

  lemma ZombieStep(s: System, e: Event, i: int)
    requires Inv(s) && Enabled(s, e) && 0 <= i < |s.tasks| && s.tasks[i].state.Zombie?
    ensures i < |Next(s, e).tasks| && Next(s, e).tasks[i] == s.tasks[i]
  {
  }

  /** No event changes a zombie: its state and exit code are final. */
  lemma {:induction false} ZombiesAreFinal(ss: seq<System>, es: seq<Event>, a: int, b: int, i: int)
    requires IsRun(ss, es) && 0 <= a <= b <= |es| && 0 <= i < |ss[a].tasks| && ss[a].tasks[i].state.Zombie?
    ensures i < |ss[b].tasks| && ss[b].tasks[i] == ss[a].tasks[i]
    decreases b
  {
    if a < b {
      ZombiesAreFinal(ss, es, a, b - 1, i);
      RunKeepsInv(ss, es, b - 1);
      ZombieStep(ss[b - 1], es[b - 1], i);
      assert ss[b - 1 + 1] == Next(ss[b - 1], es[b - 1]);
    }
  }

  // ---------------------------------------------------------------- the life of a task

  /** The caller of the event asks to sleep or exits. */
  predicate GivesUp(e: Event) { e.Sleep? || e.Exit? }

  /** The changes of state that an event can bring, each exactly when it happens: a task stops
      being eligible only by its own sleep or exit, a preempted task is READY, only a switch
      makes a task RUNNING, and a sleeper becomes READY by its last countdown or a wake. */
  lemma StateChanges(ss: seq<System>, es: seq<Event>, k: int, i: int)
    requires IsRun(ss, es) && 0 <= k < |es| && 0 <= i < |ss[k].tasks|
    ensures i < |ss[k + 1].tasks|
    ensures var before, after := ss[k].tasks[i].state, ss[k + 1].tasks[i].state;
            var awake := before.Ready? || before.Running?;
            && (awake && !(after.Ready? || after.Running?) <==> i == ss[k].cur && GivesUp(es[k]))
            && (!before.Running? && after.Running? <==> es[k] == Switch && i == ss[k + 1].cur && i != ss[k].cur)
            && (before.Running? && after.Ready? <==>
                 before.Running? && es[k] == Switch && i == ss[k].cur && i != ss[k + 1].cur)
            && (before.Sleeping? && after.Ready? <==>
                 && before.Sleeping?
                 && (es[k] == Wake(i) || (CountsDown(ss[k], es[k], i) && ss[k].tasks[i].sleepTicks == 1)))
            && (!awake && !before.Sleeping? ==> after == before)
            && (before.Sleeping? ==> after.Sleeping? || after.Ready?)
    ensures ss[k + 1].tasks[i].pid == ss[k].tasks[i].pid && ss[k + 1].tasks[i].priority == ss[k].tasks[i].priority
  {
    RunKeepsInv(ss, es, k);
    assert ss[k + 1] == Next(ss[k], es[k]);
  }

  /** The caller of `task_sleep` is SLEEPING with the ticks asked for, that of `task_exit` a
      ZOMBIE with its code, and a woken sleeper is READY with no ticks; nobody else changes. */
  lemma CallsChangeOne(ss: seq<System>, es: seq<Event>, k: int)
    requires IsRun(ss, es) && 0 <= k < |es| && (es[k].Sleep? || es[k].Exit? || es[k].Wake? || es[k].Yield?)
    ensures |ss[k + 1].tasks| == |ss[k].tasks| && ss[k + 1].cur == ss[k].cur && NONE <= ss[k].cur < |ss[k].tasks|
    ensures forall i :: 0 <= i < |ss[k].tasks| ==>
              var t, u := ss[k].tasks[i], ss[k + 1].tasks[i];
              if es[k].Sleep? && i == ss[k].cur then u == Task(t.pid, Sleeping, es[k].ticks, t.priority, t.exitCode)
              else if es[k].Exit? && i == ss[k].cur then u == Task(t.pid, Zombie, t.sleepTicks, t.priority, es[k].code)
              else if es[k] == Wake(i) && t.state.Sleeping? then u == Task(t.pid, Ready, 0, t.priority, t.exitCode)
              else u == t
    ensures ss[k + 1].mode.Scanning? <==> es[k].Yield? || ((es[k].Sleep? || es[k].Exit?) && ss[k].cur != NONE)
  {
    RunKeepsInv(ss, es, k);
    assert ss[k + 1] == Next(ss[k], es[k]);
  }

  /** A switch marks the picked task RUNNING and an old current one that was RUNNING becomes
      READY; no other record changes, and none does when the current task is picked again or
      the system halts. */
  lemma SwitchChangesTwo(ss: seq<System>, es: seq<Event>, k: int)
    requires IsRun(ss, es) && 0 <= k < |es| && es[k] == Switch
    ensures |ss[k + 1].tasks| == |ss[k].tasks|
    ensures forall i :: 0 <= i < |ss[k].tasks| ==>
              var t, u := ss[k].tasks[i], ss[k + 1].tasks[i];
              if ss[k + 1].cur == ss[k].cur then u == t
              else if i == ss[k + 1].cur then u == Task(t.pid, Running, t.sleepTicks, t.priority, t.exitCode)
              else if i == ss[k].cur && t.state.Running? then
                u == Task(t.pid, Ready, t.sleepTicks, t.priority, t.exitCode)
              else u == t
  {
    RunKeepsInv(ss, es, k);
    assert ss[k + 1] == Next(ss[k], es[k]);
  }

  /** `task_create` adds one READY task with the given priority and `task_fork` a READY copy of
      the current one; the n-th task has pid n, modulo 2^32, and no other record changes. */
  lemma NewTasks(ss: seq<System>, es: seq<Event>, k: int)
    requires IsRun(ss, es) && 0 <= k < |es| && (es[k].Create? || es[k].Fork?)
    ensures NONE <= ss[k].cur < |ss[k].tasks| && ss[k + 1].cur == ss[k].cur
    ensures var n := |ss[k].tasks|;
            if es[k].Fork? && ss[k].cur == NONE then ss[k + 1].tasks == ss[k].tasks
            else
              && |ss[k + 1].tasks| == n + 1 && ss[k + 1].tasks[..n] == ss[k].tasks
              && ss[k + 1].tasks[n] ==
                 if es[k].Create? then Task((n + 1) % 0x1_0000_0000, Ready, 0, es[k].priority, 0)
                 else
                   var parent := ss[k].tasks[ss[k].cur];
                   Task((n + 1) % 0x1_0000_0000, Ready, parent.sleepTicks, parent.priority, parent.exitCode)
  {
    RunKeepsInv(ss, es, k);
    assert ss[k + 1] == Next(ss[k], es[k]);
  }

  /** Ticks and visits change nothing but sleepers with ticks to go, by one tick. */
  lemma CountdownsChangeSleepers(ss: seq<System>, es: seq<Event>, k: int)
    requires IsRun(ss, es) && 0 <= k < |es| && (es[k].Tick? || es[k].Scan?)
    ensures |ss[k + 1].tasks| == |ss[k].tasks| && ss[k + 1].cur == ss[k].cur
    ensures forall i :: 0 <= i < |ss[k].tasks| ==>
              var t, u := ss[k].tasks[i], ss[k + 1].tasks[i];
              if CountsDown(ss[k], es[k], i) && t.state.Sleeping? && t.sleepTicks > 0 then
                (u == Task(t.pid, u.state, t.sleepTicks - 1, t.priority, t.exitCode) &&
                 u.state == if t.sleepTicks == 1 then Ready else Sleeping)
              else u == t
  {
    RunKeepsInv(ss, es, k);
    assert ss[k + 1] == Next(ss[k], es[k]);
  }

  // ---------------------------------------------------------------- sleeping

  /** Event e counts task i down: a timer tick, or the scan's visit of i. */
  predicate CountsDown(s: System, e: Event, i: int) {
    e.Tick? || (e.Scan? && s.mode.Scanning? && s.mode.pos == i + 1)
  }

  ghost function Countdowns(ss: seq<System>, es: seq<Event>, a: int, b: int, i: int): nat
    requires |ss| == |es| + 1 && 0 <= a <= b <= |es|
    decreases b
  {
    if a == b then 0
    else Countdowns(ss, es, a, b - 1, i) + (if CountsDown(ss[b - 1], es[b - 1], i) then 1 else 0)
  }

  lemma SleeperStep(s: System, e: Event, i: int)
    requires Inv(s) && Enabled(s, e) && 0 <= i < |s.tasks| && s.tasks[i].state.Sleeping? && e != Wake(i)
    ensures Next(s, e).tasks[i] == if CountsDown(s, e, i) then Countdown(s.tasks[i]) else s.tasks[i]
  {
  }

  /** A sleeper that nobody wakes is still asleep, with n - c ticks to go, after c < n
      countdown events, and the n-th one makes it READY. A sleep of 0 never ends by itself. */
  lemma {:induction false} SleepsExactly(ss: seq<System>, es: seq<Event>, a: int, b: int, i: int)
    requires IsRun(ss, es) && 0 <= a <= b <= |es| && 0 <= i < |ss[a].tasks|
    requires ss[a].tasks[i].state.Sleeping? && ss[a].tasks[i].sleepTicks >= 0
    requires forall k :: a <= k < b ==> es[k] != Wake(i)
    ensures i < |ss[b].tasks|
    ensures var n, c := ss[a].tasks[i].sleepTicks, Countdowns(ss, es, a, b, i);
            && (c < n ==> ss[b].tasks[i] == ss[a].tasks[i].(sleepTicks := n - c))
            && (n == 0 ==> ss[b].tasks[i] == ss[a].tasks[i])
            && (n > 0 && c == n && CountsDown(ss[b - 1], es[b - 1], i) ==>
                ss[b].tasks[i] == ss[a].tasks[i].(sleepTicks := 0, state := Ready))
    decreases b
  {
    if a < b {
      SleepsExactly(ss, es, a, b - 1, i);
      RunKeepsInv(ss, es, b - 1);
      TasksOnlyGrow(ss[b - 1], es[b - 1]);
      assert ss[b - 1 + 1] == Next(ss[b - 1], es[b - 1]);
      if ss[b - 1].tasks[i].state.Sleeping? {
        SleeperStep(ss[b - 1], es[b - 1], i);
      }
    }
  }

  /** `task_sleep(n)` with n >= 1 puts the caller to sleep for exactly n countdown events,
      its own scan's visit among them; `task_sleep(0)` leaves it asleep until it is woken. */
  lemma SleepCallLasts(ss: seq<System>, es: seq<Event>, a: int, b: int, n: int)
    requires IsRun(ss, es) && 0 <= a < b <= |es| && es[a] == Sleep(n) && ss[a].cur != NONE
    requires forall k :: a < k < b ==> es[k] != Wake(ss[a].cur)
    ensures 0 <= ss[a].cur < |ss[b].tasks|
    ensures var t, c := ss[b].tasks[ss[a].cur], Countdowns(ss, es, a + 1, b, ss[a].cur);
            && (n == 0 || c < n ==> t.state.Sleeping? && t.sleepTicks == (if n == 0 then 0 else n - c))
            && (n > 0 && c == n && CountsDown(ss[b - 1], es[b - 1], ss[a].cur) ==> t.state.Ready?)
  {
    RunKeepsInv(ss, es, a);
    assert ss[a + 1] == Next(ss[a], es[a]);
    SleepsExactly(ss, es, a + 1, b, ss[a].cur);
  }

  // ---------------------------------------------------------------- what a schedule call picks

  /** The system part-way through an undisturbed scan that started from `start`. */
  ghost predicate ScanFrom(start: System, s: System) {
    && s.mode.Scanning? && 0 <= s.mode.pos <= |start.tasks|
    && s == start.(tasks := CountdownFrom(start.tasks, s.mode.pos), mode := s.mode)
    && IsBest(start.tasks, s.mode.pos, s.mode.best)
  }

  /** A visit keeps the candidate the best of what was eligible when the scan started: tasks
      woken by the scan itself come too late. */
  lemma VisitKeepsBest(start: System, s: System)
    requires Inv(start) && ScanFrom(start, s) && s.mode.pos > 0
    ensures InRange(s) && ScanFrom(start, Visit(s)) && Visit(s).mode.pos == s.mode.pos - 1
  {
    var i := s.mode.pos - 1;
    assert s.tasks[i] == start.tasks[i];
    var t := Visit(s);
    assert t.tasks == CountdownFrom(start.tasks, i);
  }

  /** Finish the scan without interruption and switch. */
  ghost function Finish(s: System): System
    requires InRange(s) && s.mode.Scanning?
    decreases if s.mode.Scanning? then s.mode.pos else 0
  {
    if s.mode.pos == 0 then Decide(s, s.mode.best) else Finish(Visit(s))
  }

  lemma FinishGoesOn(s: System)
    requires InRange(s) && Enabled(s, Scan)
    ensures InRange(Visit(s)) && Visit(s).mode.Scanning? && Finish(Visit(s)) == Finish(s)
  {
  }

  /** `task_schedule` as one step: count everybody down, run the best task of before. */
  ghost predicate Schedules(s: System, s': System)
    requires NONE <= s.cur < |s.tasks|
  {
    exists b :: NONE <= b < |s.tasks| && IsBest(s.tasks, 0, b) &&
                s' == Decide(s.(tasks := CountdownFrom(s.tasks, 0)), b)
  }

  lemma {:induction false} FinishSchedules(start: System, s: System)
    requires Inv(start) && ScanFrom(start, s)
    ensures InRange(s) && Schedules(start, Finish(s))
    decreases s.mode.pos
  {
    if s.mode.pos > 0 {
      VisitKeepsBest(start, s);
      FinishSchedules(start, Visit(s));
    } else {
      assert Decide(s, s.mode.best) == Decide(start.(tasks := CountdownFrom(start.tasks, 0)), s.mode.best);
    }
  }

  /** An undisturbed schedule call runs the eligible task with the greatest (priority, number). */
  lemma ScanPicksBest(s: System)
    requires Inv(s) && s.mode == Scanning(|s.tasks|, NONE)
    ensures Schedules(s, Finish(s))
  {
    assert CountdownFrom(s.tasks, |s.tasks|) == s.tasks;
    FinishSchedules(s, s);
  }

  lemma BestIsUnique(ts: seq<Task>, b: int, c: int)
    requires IsBest(ts, 0, b) && IsBest(ts, 0, c) && NONE <= b && NONE <= c
    ensures b == c
  {
  }

  /** Before pid numbers wrap, "created later" and "larger pid" are the same thing. */
  lemma BeatsByPid(s: System, i: int, j: int)
    requires Inv(s) && |s.tasks| < WORD && 0 <= i < |s.tasks| && 0 <= j < |s.tasks|
    ensures i > j <==> s.tasks[i].pid > s.tasks[j].pid
    ensures Beats(s.tasks, i, j) <==>
              s.tasks[i].priority > s.tasks[j].priority ||
              (s.tasks[i].priority == s.tasks[j].priority && s.tasks[i].pid > s.tasks[j].pid)
  {
  }

  // ---------------------------------------------------------------- atomic operations

  /** An operation with its schedule call, if it makes one, undisturbed. */
  ghost function AtomicNext(s: System, e: Event): System
    requires Inv(s) && s.mode.Idle? && Enabled(s, e)
  {
    var t := Next(s, e);
    if t.mode.Scanning? then Finish(t) else t
  }

  lemma {:induction false} FinishKeepsInv(s: System)
    requires Inv(s) && s.mode.Scanning?
    ensures Inv(Finish(s)) && !Finish(s).mode.Scanning?
    decreases s.mode.pos
  {
    if s.mode.pos == 0 {
      StepKeepsInv(s, Switch);
    } else {
      StepKeepsInv(s, Scan);
      FinishKeepsInv(Visit(s));
    }
  }

  lemma AtomicKeepsInv(s: System, e: Event)
    requires Inv(s) && s.mode.Idle? && Enabled(s, e)
    ensures Inv(AtomicNext(s, e)) && !AtomicNext(s, e).mode.Scanning?
  {
    StepKeepsInv(s, e);
    if Next(s, e).mode.Scanning? {
      FinishKeepsInv(Next(s, e));
    }
  }

  lemma AtomicSchedules(s: System, e: Event)
    requires Inv(s) && s.mode.Idle? && Enabled(s, e) && Next(s, e).mode.Scanning?
    ensures Schedules(Next(s, e), AtomicNext(s, e))
  {
    StepKeepsInv(s, e);
    ScanPicksBest(Next(s, e));
  }

  ghost predicate CurrentRuns(s: System) {
    s.mode.Idle? && s.cur != NONE ==> 0 <= s.cur < |s.tasks| && s.tasks[s.cur].state.Running?
  }

  lemma AtomicKeepsCurrentRunning(s: System, e: Event)
    requires Inv(s) && s.mode.Idle? && Enabled(s, e) && CurrentRuns(s)
    ensures CurrentRuns(AtomicNext(s, e))
  {
    if Next(s, e).mode.Scanning? {
      AtomicSchedules(s, e);
    }
  }

  ghost predicate IsAtomicRun(ss: seq<System>, es: seq<Event>) {
    && |ss| == |es| + 1
    && ss[0] == BOOT
    && forall k :: 0 <= k < |es| ==>
         Inv(ss[k]) && ss[k].mode.Idle? && Enabled(ss[k], es[k]) && ss[k + 1] == AtomicNext(ss[k], es[k])
  }

  /** With atomic operations and no halt, a current task is always RUNNING. */
  lemma {:induction false} AtomicCurrentAlwaysRuns(ss: seq<System>, es: seq<Event>, k: int)
    requires IsAtomicRun(ss, es) && 0 <= k <= |es|
    ensures Inv(ss[k]) && CurrentRuns(ss[k])
    decreases k
  {
    if k > 0 {
      AtomicCurrentAlwaysRuns(ss, es, k - 1);
      assert ss[k - 1 + 1] == AtomicNext(ss[k - 1], es[k - 1]);
      AtomicKeepsInv(ss[k - 1], es[k - 1]);
      AtomicKeepsCurrentRunning(ss[k - 1], es[k - 1]);
    }
  }
}
