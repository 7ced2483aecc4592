/** The scheduler of kernel/task.c and the timer handler of drivers/timer.c as they run:
    a linked list of task records changed in place. Every operation is proved to be the
    step of the state machine in Scheduling. */
module Scheduler {
  import opened Machine
  import opened Scheduling
  import opened ScheduleCalls

  class TaskNode {
    ghost const no: int
    const pid: int
    var state: TaskState
    var sleepTicks: int
    var priority: int
    var exitCode: int
    const next: TaskNode?  // written once, when the record is put in front of the list
    const parent: TaskNode?

    constructor (ghost no: int, pid: int, state: TaskState, sleepTicks: int, priority: int, exitCode: int,
                 next: TaskNode?, parent: TaskNode?)
      ensures View() == Task(pid, state, sleepTicks, priority, exitCode)
      ensures this.next == next && this.parent == parent && this.no == no
    {
      this.no, this.pid, this.state, this.sleepTicks := no, pid, state, sleepTicks;
      this.priority, this.exitCode, this.next, this.parent := priority, exitCode, next, parent;
    }

    ghost function View(): Task
      reads this
    {
      Task(pid, state, sleepTicks, priority, exitCode)
    }

    /** One countdown event, the same code in the scan and in the timer handler. */
    method CountDown()
      modifies this`state, this`sleepTicks
      ensures View() == Countdown(old(View()))
    {
      if state.Sleeping? && sleepTicks > 0 {
        sleepTicks := sleepTicks - 1;
        if sleepTicks == 0 {
          state := Ready;
        }
      }
    }
  }

  function At(list: seq<TaskNode>, i: int): TaskNode?
    requires i < |list|
  {
    if i >= 0 then list[i] else null
  }

  ghost predicate LinkedAt(list: seq<TaskNode>, i: int)
    requires 0 <= i < |list|
  {
    list[i].next == At(list, i - 1)
  }

  /** The list runs from the newest record down to the first one, without repetition. */
  ghost predicate Chain(list: seq<TaskNode>, head: TaskNode?) {
    && head == At(list, |list| - 1)
    && (forall i :: 0 <= i < |list| ==> LinkedAt(list, i))
    && (forall i :: 0 <= i < |list| ==> list[i].no == i)
  }

  lemma ChainGrows(list: seq<TaskNode>, head: TaskNode?, task: TaskNode)
    requires Chain(list, head) && task.no == |list| && task.next == head
    ensures Chain(list + [task], task)
  {
    forall i | 0 <= i < |list| + 1 ensures LinkedAt(list + [task], i) {
      if i < |list| { assert LinkedAt(list, i); }
    }
  }

  ghost predicate Shows(list: seq<TaskNode>, tasks: seq<Task>)
    reads list
  {
    |list| == |tasks| && forall i :: 0 <= i < |list| ==> list[i].View() == tasks[i]
  }

  lemma Visited(now: System) returns (after: System)
    requires InRange(now) && Enabled(now, Scan)
    ensures after == Visit(now) && InRange(after) && after.mode.Scanning? && Finish(after) == Finish(now)
    ensures after.mode.pos == now.mode.pos - 1 && |after.tasks| == |now.tasks|
  {
    FinishGoesOn(now);
    after := Visit(now);
  }

  /** One round of the scan: compare the task with the candidate, count it down, go on. */
  method VisitOne(task: TaskNode, nextTask: TaskNode?, ghost list: seq<TaskNode>, ghost now: System)
      returns (next: TaskNode?, chosen: TaskNode?, ghost after: System)
    requires Chain(list, At(list, |list| - 1)) && InRange(now) && Enabled(now, Scan) && Shows(list, now.tasks)
    requires task == list[now.mode.pos - 1] && nextTask == At(list, now.mode.best)
    modifies task`state, task`sleepTicks
    ensures after == Visit(now) && InRange(after) && after.mode.Scanning? && Finish(after) == Finish(now)
    ensures Shows(list, after.tasks) && after.mode.pos == now.mode.pos - 1
    ensures next == At(list, after.mode.pos - 1) && chosen == At(list, after.mode.best)
  {
    chosen := nextTask;
    if task.state.Ready? || task.state.Running? {
      if nextTask == null || task.priority > nextTask.priority {
        chosen := task;
      }
    }
    task.CountDown();
    assert LinkedAt(list, now.mode.pos - 1);
    next := task.next;
    after := Visited(now);
  }

  /** The scan of `task_schedule`: the chosen task is the one `Finish` switches to. */
  method ScanList(head: TaskNode?, ghost list: seq<TaskNode>, ghost start: System)
      returns (nextTask: TaskNode?, ghost end: System)
    requires Chain(list, head) && InRange(start) && start.mode == Scanning(|list|, NONE) && Shows(list, start.tasks)
    modifies list
    ensures InRange(end) && end.mode.Scanning? && Shows(list, end.tasks) && nextTask == At(list, end.mode.best)
    ensures end.cur == start.cur && end.nextPid == start.nextPid
    ensures Finish(start) == Decide(end, end.mode.best)
  {
    nextTask := null;
    var task := head;
    end := start;
    while task != null
      invariant InRange(end) && end.mode.Scanning? && Shows(list, end.tasks)
      invariant end.cur == start.cur && end.nextPid == start.nextPid
      invariant task == At(list, end.mode.pos - 1) && nextTask == At(list, end.mode.best)
      invariant Finish(end) == Finish(start)
      decreases end.mode.pos
    {
      task, nextTask, end := VisitOne(task, nextTask, list, end);
    }
  }

  /** The loop of the timer handler. */
  method TickList(head: TaskNode?, ghost list: seq<TaskNode>, ghost tasks: seq<Task>)
    requires Chain(list, head) && Shows(list, tasks)
    modifies list
    ensures Shows(list, CountdownFrom(tasks, 0))
  {
    var task := head;
    ghost var pos := |list|;
    assert CountdownFrom(tasks, pos) == tasks;
    while task != null
      invariant 0 <= pos <= |list| && task == At(list, pos - 1)
      invariant Shows(list, CountdownFrom(tasks, pos))
      decreases pos
    {
      task := TickOne(task, list, tasks, pos);
      pos := pos - 1;
    }
  }

  method TickOne(task: TaskNode, ghost list: seq<TaskNode>, ghost tasks: seq<Task>, ghost pos: int)
      returns (next: TaskNode?)
    requires Chain(list, At(list, |list| - 1)) && 0 < pos <= |list| && task == list[pos - 1]
    requires |tasks| == |list| && Shows(list, CountdownFrom(tasks, pos))
    modifies task`state, task`sleepTicks
    ensures Shows(list, CountdownFrom(tasks, pos - 1)) && next == At(list, pos - 2)
  {
    assert task.View() == tasks[pos - 1];
    task.CountDown();
    assert LinkedAt(list, pos - 1);
    next := task.next;
  }

  class Kernel {
    var head: TaskNode?
    var current: TaskNode?
    var nextPid: int
    var taskCount: int
    var timerTicks: int
    /** The records in creation order, what they hold, and the number of the current one. */
    ghost var list: seq<TaskNode>
    ghost var tasks: seq<Task>
    ghost var cur: int

    constructor ()
      ensures Valid() && View(Idle) == BOOT
    {
      head, current, nextPid, taskCount, timerTicks := null, null, 1, 0, 0;
      list, tasks, cur := [], [], NONE;
    }

    ghost predicate Valid()
      reads this, list
    {
      && Chain(list, head)
      && Shows(list, tasks)
      && NONE <= cur < |list|
      && current == At(list, cur)
      && taskCount == |list| % WORD
    }

    ghost function View(mode: Mode): System
      reads this
    {
      System(tasks, cur, nextPid, mode)
    }

    method Create(priority: int) returns (task: TaskNode)
      requires Valid()
      modifies this
      ensures Valid() && View(Idle) == Next(old(View(Idle)), Event.Create(priority))
      ensures fresh(task) && list == old(list) + [task] && task.parent == null
    {
      task := new TaskNode(|list|, nextPid, Ready, 0, priority, 0, head, null);
      nextPid := (nextPid + 1) % WORD;
      Push(task);
    }

    method Push(task: TaskNode)
      requires Valid() && task.no == |list| && task.next == head
      modifies this`head, this`taskCount, this`list, this`tasks
      ensures Valid() && list == old(list) + [task] && tasks == old(tasks) + [task.View()]
    {
      ChainGrows(list, head, task);
      head := task;
      taskCount := (taskCount + 1) % WORD;
      list := list + [task];
      tasks := tasks + [task.View()];
    }

    method Fork() returns (child: TaskNode?)
      requires Valid()
      modifies this
      ensures Valid() && View(Idle) == Next(old(View(Idle)), Event.Fork)
      ensures child == null <==> old(current) == null
      ensures child != null ==> fresh(child) && list == old(list) + [child] && child.parent == old(current)
    {
      if current == null {
        return null;
      }
      child := new TaskNode(|list|, nextPid, Ready, current.sleepTicks, current.priority, current.exitCode,
                            head, current);
      nextPid := (nextPid + 1) % WORD;
      Push(child);
    }

    method Wake(task: TaskNode, ghost i: int)
      requires Valid() && 0 <= i < |list| && task == list[i]
      modifies task`state, task`sleepTicks, this`tasks
      ensures Valid() && View(Idle) == Next(old(View(Idle)), Event.Wake(i))
    {
      if task.state.Sleeping? {
        task.state := Ready;
        task.sleepTicks := 0;
        tasks := tasks[i := task.View()];
      }
    }

    method TimerTick()
      requires Valid()
      modifies list, this`tasks, this`timerTicks
      ensures Valid() && View(Idle) == Next(old(View(Idle)), Event.Tick)
      ensures timerTicks == (old(timerTicks) + 1) % WORD
    {
      timerTicks := (timerTicks + 1) % WORD;
      TickList(head, list, tasks);
      tasks := CountdownFrom(tasks, 0);
    }

    /** The scan, then the switch. Returns true when there is no task to run. */
    method Schedule() returns (halted: bool)
      requires Valid()
      modifies this`current, this`cur, this`tasks, list
      ensures Valid() && list == old(list)
      ensures View(if halted then Halted else Idle) == Finish(old(View(Scanning(|list|, NONE))))
    {
      var nextTask;
      ghost var end;
      nextTask, end := ScanList(head, list, View(Scanning(|list|, NONE)));
      tasks := end.tasks;
      halted := Dispatch(nextTask, end.mode.best);
    }

    /** The kernel is in the state `now` in the middle of a schedule call. */
    ghost predicate Stands(now: System)
      reads this, list
    {
      Valid() && InRange(now) && now.mode.Scanning? && now == View(now.mode)
    }

    /** The same with the timer interrupts that fall into it: ticks[k] of them before visit k
        of the scan, the last ones before the switch. */
    method InterruptedSchedule(ticks: seq<nat>) returns (halted: bool)
      requires Valid() && |ticks| == |list| + 1
      modifies this`current, this`cur, this`tasks, this`timerTicks, list
      ensures Valid() && list == old(list)
      ensures Leads(old(View(Scanning(|list|, NONE))), CallEvents(ticks), View(if halted then Halted else Idle))
    {
      ghost var start := View(Scanning(|list|, NONE));
      var last := ticks[|ticks| - 1];
      var nextTask;
      ghost var now, es := start, ScanEvents(ticks[..|ticks| - 1]);
      nextTask, now := InterruptedScan(ticks[..|ticks| - 1], start);
      now := TakeTicks(last, start, es, now);
      LeadsOn(start, es + Ticks(last), now, Switch);
      halted := Dispatch(nextTask, now.mode.best);
    }

    method InterruptedScan(ticks: seq<nat>, ghost start: System) returns (nextTask: TaskNode?, ghost now: System)
      requires Stands(start) && start.mode == Scanning(|list|, NONE) && |ticks| == |list|
      modifies this`tasks, this`timerTicks, list
      ensures Stands(now) && now.mode.pos == 0 && nextTask == At(list, now.mode.best)
      ensures Leads(start, ScanEvents(ticks), now)
    {
      nextTask, now := null, start;
      var task, k := head, 0;
      while task != null
        invariant Stands(now) && 0 <= k <= |ticks| && now.mode.pos == |ticks| - k
        invariant task == At(list, now.mode.pos - 1) && nextTask == At(list, now.mode.best)
        invariant Leads(start, ScanEvents(ticks[..k]), now)
        decreases |ticks| - k
      {
        task, nextTask, now := InterruptedRound(task, nextTask, ticks, k, start, now);
        k := k + 1;
      }
      assert ticks[..k] == ticks;
    }

    method InterruptedRound(task: TaskNode, nextTask: TaskNode?, ticks: seq<nat>, k: int, ghost start: System,
                            ghost now: System) returns (next: TaskNode?, chosen: TaskNode?, ghost after: System)
      requires Stands(now) && now.mode.pos > 0 && 0 <= k < |ticks| && Leads(start, ScanEvents(ticks[..k]), now)
      requires task == list[now.mode.pos - 1] && nextTask == At(list, now.mode.best)
      modifies this`tasks, this`timerTicks, list
      ensures Stands(after) && after.mode.pos == now.mode.pos - 1 && Leads(start, ScanEvents(ticks[..k + 1]), after)
      ensures next == At(list, after.mode.pos - 1) && chosen == At(list, after.mode.best)
    {
      ghost var es := ScanEventsGrow(ticks, k);
      after := TakeTicks(ticks[k], start, es, now);
      next, chosen, after := VisitNow(task, nextTask, start, es + Ticks(ticks[k]), after);
    }

    method VisitNow(task: TaskNode, nextTask: TaskNode?, ghost start: System, ghost es: seq<Event>, ghost now: System)
        returns (next: TaskNode?, chosen: TaskNode?, ghost after: System)
      requires Stands(now) && now.mode.pos > 0 && Leads(start, es, now)
      requires task == list[now.mode.pos - 1] && nextTask == At(list, now.mode.best)
      modifies this`tasks, list
      ensures Stands(after) && after.mode.pos == now.mode.pos - 1 && Leads(start, es + [Scan], after)
      ensures next == At(list, after.mode.pos - 1) && chosen == At(list, after.mode.best)
    {
      LeadsOn(start, es, now, Scan);
      next, chosen, after := VisitOne(task, nextTask, list, now);
      tasks := after.tasks;
    }

    method TakeTick(ghost start: System, ghost es: seq<Event>, ghost now: System) returns (ghost after: System)
      requires Stands(now) && Leads(start, es, now)
      modifies list, this`tasks, this`timerTicks
      ensures Stands(after) && after.mode == now.mode && Leads(start, es + [Tick], after)
    {
      LeadsOn(start, es, now, Tick);
      TimerTick();
      after := Next(now, Tick);
    }

    method TakeTicks(n: nat, ghost start: System, ghost es: seq<Event>, ghost now: System) returns (ghost after: System)
      requires Stands(now) && Leads(start, es, now)
      modifies list, this`tasks, this`timerTicks
      ensures Stands(after) && after.mode == now.mode && Leads(start, es + Ticks(n), after)
    {
      assert es + Ticks(0) == es;
      after := now;
      for i := 0 to n
        invariant Stands(after) && after.mode == now.mode && Leads(start, es + Ticks(i), after)
      {
        after := TakeTick(start, es + Ticks(i), after);
        assert es + Ticks(i) + [Tick] == es + Ticks(i + 1);
      }
    }

    /** What `task_schedule` does once the scan has chosen `nextTask`. */
    method Dispatch(nextTask: TaskNode?, ghost best: int) returns (halted: bool)
      requires Valid() && NONE <= best < |list| && nextTask == At(list, best)
      modifies this`current, this`cur, this`tasks, list
      ensures Valid() && list == old(list)
      ensures View(if halted then Halted else Idle) == Decide(old(View(Idle)), best)
    {
      if nextTask == null {
        return true;
      }
      if nextTask == current {
        return false;
      }
      nextTask.state := Running;
      tasks := tasks[best := nextTask.View()];
      if current != null && current.state.Running? {
        current.state := Ready;
        tasks := tasks[cur := current.View()];
      }
      current := nextTask;
      cur := best;
      return false;
    }

    method Yield() returns (halted: bool)
      requires Valid() && Inv(View(Idle))
      modifies this`current, this`cur, this`tasks, list
      ensures Valid() && View(if halted then Halted else Idle) == AtomicNext(old(View(Idle)), Event.Yield)
    {
      halted := Schedule();
    }

    method Sleep(ticks: int) returns (halted: bool)
      requires Valid() && Inv(View(Idle)) && 0 <= ticks < WORD
      modifies this`current, this`cur, this`tasks, list
      ensures Valid() && View(if halted then Halted else Idle) == AtomicNext(old(View(Idle)), Event.Sleep(ticks))
    {
      if current == null {
        return false;
      }
      current.sleepTicks := ticks;
      current.state := Sleeping;
      tasks := tasks[cur := current.View()];
      assert View(Scanning(|list|, NONE)) == Next(old(View(Idle)), Event.Sleep(ticks));
      halted := Schedule();
    }

    method Exit(code: int) returns (halted: bool)
      requires Valid() && Inv(View(Idle))
      modifies this`current, this`cur, this`tasks, list
      ensures Valid() && View(if halted then Halted else Idle) == AtomicNext(old(View(Idle)), Event.Exit(code))
    {
      if current == null {
        return false;
      }
      current.state := Zombie;
      current.exitCode := code;
      tasks := tasks[cur := current.View()];
      assert View(Scanning(|list|, NONE)) == Next(old(View(Idle)), Event.Exit(code));
      halted := Schedule();
    }

    /** The record with this pid; before pids wrap there is at most one. */
    method GetByPid(pid: int) returns (task: TaskNode?)
      requires Valid()
      ensures task == null <==> forall i :: 0 <= i < |list| ==> list[i].pid != pid
      ensures task != null ==> task in list && task.pid == pid
      ensures Inv(View(Idle)) && |list| < WORD && 1 <= pid <= |list| ==> task == list[pid - 1]
    {
      task := head;
      ghost var pos := |list|;
      while task != null
        invariant 0 <= pos <= |list| && task == At(list, pos - 1)
        invariant forall i :: pos <= i < |list| ==> list[i].pid != pid
        decreases pos
      {
        if task.pid == pid {
          assert tasks[pos - 1] == task.View();
          return task;
        }
        assert LinkedAt(list, pos - 1);
        task := task.next;
        pos := pos - 1;
      }
      if 1 <= pid <= |list| {
        assert tasks[pid - 1] == list[pid - 1].View();
      }
    }
  }
}
