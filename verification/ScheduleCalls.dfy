/** Schedule calls as they run on the machine: timer ticks may fall between any two visits of
    the scan. Which task such a call picks, and what that means for fork, yield and sleep. */
module ScheduleCalls {
  import opened Scheduling

  /** The schedule call whose scan starts in state b has not switched yet in state d. */
  ghost predicate InScan(ss: seq<System>, es: seq<Event>, b: int, d: int) {
    && IsRun(ss, es)
    && 0 <= b <= d <= |es|
    && ss[b].mode == Scanning(|ss[b].tasks|, NONE)
    && forall k :: b <= k < d ==> es[k] != Switch
  }

  /** A run and one more event. */
  lemma RunGrows(ss: seq<System>, es: seq<Event>, e: Event) returns (ss': seq<System>, es': seq<Event>)
    requires IsRun(ss, es) && InRange(ss[|es|]) && Enabled(ss[|es|], e)
    ensures IsRun(ss', es') && es' == es + [e] && ss' == ss + [Next(ss[|es|], e)]
  {
    ss', es' := ss + [Next(ss[|es|], e)], es + [e];
  }

  // ---------------------------------------------------------------- the tasks as the scan finds them

  function CountdownBelow(ts: seq<Task>, pos: int): seq<Task> {
    seq(|ts|, i requires 0 <= i < |ts| => if i < pos then Countdown(ts[i]) else ts[i])
  }

  /** Every task as the scan found it on its visit, or would find it now: ticks count while a
      task is still unvisited, the scan's own countdown never does. */
  ghost function Found(ss: seq<System>, es: seq<Event>, b: int, d: int): seq<Task>
    requires |ss| == |es| + 1 && 0 <= b <= d <= |es|
    decreases d
  {
    if b == d then ss[b].tasks
    else if es[d - 1].Tick? && ss[d - 1].mode.Scanning? then
      CountdownBelow(Found(ss, es, b, d - 1), ss[d - 1].mode.pos)
    else Found(ss, es, b, d - 1)
  }

  /** The ticks that fell while task i was unvisited. */
  ghost function TicksAhead(ss: seq<System>, es: seq<Event>, b: int, d: int, i: int): nat
    requires |ss| == |es| + 1 && 0 <= b <= d <= |es|
    decreases d
  {
    if b == d then 0
    else
      TicksAhead(ss, es, b, d - 1, i) +
      (if es[d - 1].Tick? && ss[d - 1].mode.Scanning? && i < ss[d - 1].mode.pos then 1 else 0)
  }

  /** A task after n countdown events. */
  function Worn(t: Task, n: nat): Task {
    if t.state.Sleeping? && t.sleepTicks > 0 then
      if n < t.sleepTicks then t.(sleepTicks := t.sleepTicks - n) else t.(sleepTicks := 0, state := Ready)
    else t
  }

  lemma {:induction false} FoundIsWorn(ss: seq<System>, es: seq<Event>, b: int, d: int, i: int)
    requires |ss| == |es| + 1 && 0 <= b <= d <= |es| && 0 <= i < |ss[b].tasks|
    ensures |Found(ss, es, b, d)| == |ss[b].tasks|
    ensures Found(ss, es, b, d)[i] == Worn(ss[b].tasks[i], TicksAhead(ss, es, b, d, i))
    decreases d
  {
    if b < d {
      FoundIsWorn(ss, es, b, d - 1, i);
    }
  }

  /** Task i is eligible when the scan visits it: it was at the start, or enough ticks woke it
      before its visit. */
  ghost predicate EligibleAtVisit(ss: seq<System>, es: seq<Event>, b: int, d: int, i: int)
    requires |ss| == |es| + 1 && 0 <= b <= d <= |es| && 0 <= i < |ss[b].tasks|
  {
    var t := ss[b].tasks[i];
    Eligible(t) || (t.state.Sleeping? && 0 < t.sleepTicks <= TicksAhead(ss, es, b, d, i))
  }

  // ---------------------------------------------------------------- the candidate

  /** The system s part-way through a scan that started from `start`, with `found` as above. */
  ghost predicate MidScan(start: System, found: seq<Task>, s: System) {
    && InRange(s) && s.mode.Scanning? && s.cur == start.cur
    && |found| == |s.tasks| == |start.tasks|
    && (forall i :: 0 <= i < |found| ==> found[i].priority == s.tasks[i].priority == start.tasks[i].priority)
    && (forall i :: 0 <= i < s.mode.pos ==> s.tasks[i] == found[i])
    && (forall i :: 0 <= i < |found| && Eligible(found[i]) ==> s.tasks[i] == found[i])
    && IsBest(found, s.mode.pos, s.mode.best)
  }

  lemma TickInScan(start: System, found: seq<Task>, s: System)
    requires MidScan(start, found, s)
    ensures MidScan(start, CountdownBelow(found, s.mode.pos), Next(s, Tick))
  {
  }

  lemma VisitInScan(start: System, found: seq<Task>, s: System)
    requires MidScan(start, found, s) && s.mode.pos > 0
    ensures MidScan(start, found, Visit(s))
  {
  }

  /** Whatever ticks fall into it, a scan's candidate is the greatest (priority, number) among
      the visited tasks that were eligible on their own visit. */
  lemma {:induction false} ScanFinds(ss: seq<System>, es: seq<Event>, b: int, d: int)
    requires InScan(ss, es, b, d)
    ensures MidScan(ss[b], Found(ss, es, b, d), ss[d])
    decreases d
  {
    RunKeepsInv(ss, es, b);
    if b < d {
      ScanFinds(ss, es, b, d - 1);
      var s := ss[d - 1];
      assert ss[d - 1 + 1] == Next(s, es[d - 1]);
      if es[d - 1].Tick? {
        TickInScan(ss[b], Found(ss, es, b, d - 1), s);
      } else {
        VisitInScan(ss[b], Found(ss, es, b, d - 1), s);
      }
    }
  }

  /** best is the greatest of the tasks that the scan finds eligible, or NONE. */
  ghost predicate IsPick(ss: seq<System>, es: seq<Event>, b: int, d: int, best: int)
    requires |ss| == |es| + 1 && 0 <= b <= d <= |es|
  {
    var n := |ss[b].tasks|;
    if best == NONE then forall i :: 0 <= i < n ==> !EligibleAtVisit(ss, es, b, d, i)
    else
      && 0 <= best < n && EligibleAtVisit(ss, es, b, d, best)
      && forall i :: 0 <= i < n && i != best && EligibleAtVisit(ss, es, b, d, i) ==> Beats(ss[b].tasks, best, i)
  }

  /** The pick of a schedule call under any interleaving: the greatest task eligible on its own
      visit, which beats or is every task eligible when the scan started. A task that only
      the scan's own countdown wakes is never picked. */
  lemma CallPicks(ss: seq<System>, es: seq<Event>, b: int, d: int)
    requires InScan(ss, es, b, d) && d < |es| && es[d] == Switch
    ensures ss[d].mode.Scanning? && IsPick(ss, es, b, d, ss[d].mode.best)
    ensures var best := ss[d].mode.best;
            if best == NONE then ss[d + 1].mode.Halted? else ss[d + 1].mode.Idle? && ss[d + 1].cur == best
  {
    ScanFinds(ss, es, b, d);
    assert ss[d + 1] == Next(ss[d], es[d]);
    forall i | 0 <= i < |ss[b].tasks|
      ensures Eligible(Found(ss, es, b, d)[i]) <==> EligibleAtVisit(ss, es, b, d, i)
    {
      FoundIsWorn(ss, es, b, d, i);
    }
  }

  /** Task c beats every other task that the scan finds eligible. */
  ghost predicate BeatsOthers(ss: seq<System>, es: seq<Event>, b: int, d: int, c: int)
    requires |ss| == |es| + 1 && 0 <= b <= d <= |es| && 0 <= c < |ss[b].tasks|
  {
    forall j :: 0 <= j < |ss[b].tasks| && j != c && EligibleAtVisit(ss, es, b, d, j) ==> Beats(ss[b].tasks, c, j)
  }

  lemma PickedIff(ss: seq<System>, es: seq<Event>, b: int, d: int, pick: int, c: int)
    requires |ss| == |es| + 1 && 0 <= b <= d <= |es| && IsPick(ss, es, b, d, pick) && 0 <= c < |ss[b].tasks|
    ensures pick == c <==> EligibleAtVisit(ss, es, b, d, c) && BeatsOthers(ss, es, b, d, c)
  {
    if pick != c && pick != NONE && EligibleAtVisit(ss, es, b, d, c) {
      assert EligibleAtVisit(ss, es, b, d, pick) && Beats(ss[b].tasks, pick, c);
    }
  }

  /** The best task of scan start is still the pick exactly when every task that ticks woke
      ahead of the scan is beaten by it. */
  lemma StartBestIsPickedIff(ss: seq<System>, es: seq<Event>, b: int, d: int, best: int)
    requires InScan(ss, es, b, d) && d < |es| && es[d] == Switch
    requires NONE <= best < |ss[b].tasks| && IsBest(ss[b].tasks, 0, best)
    ensures ss[d].mode.Scanning?
    ensures ss[d].mode.best == best <==>
            forall i :: 0 <= i < |ss[b].tasks| && EligibleAtVisit(ss, es, b, d, i) && !Eligible(ss[b].tasks[i]) ==>
              best != NONE && Beats(ss[b].tasks, best, i)
  {
    CallPicks(ss, es, b, d);
    var pick := ss[d].mode.best;
    if pick == NONE && best != NONE { assert EligibleAtVisit(ss, es, b, d, best); }
    if pick != NONE && best != NONE && pick != best {
      assert EligibleAtVisit(ss, es, b, d, best) && EligibleAtVisit(ss, es, b, d, pick);
      assert Beats(ss[b].tasks, pick, best);
    }
  }

  /** It can lose: a tick in mid-scan wakes the better task 0 just before its visit. */
  lemma WokenTaskOvertakes(s: System)
    requires s == System([Task(1, Sleeping, 1, 5, 0), Task(2, Running, 0, 0, 0)], 1, 3, Scanning(2, NONE))
    ensures Inv(s) && IsBest(s.tasks, 0, 1)
    ensures var t := Next(Next(Next(s, Scan), Tick), Scan);
            Inv(t) && Enabled(t, Switch) && Next(t, Switch).cur == 0
  {
    var u := Next(s, Scan);
    assert u.mode == Scanning(1, 1);
    var v := Next(u, Tick);
    assert v.tasks[0] == Task(1, Ready, 0, 5, 0);
  }

  // ---------------------------------------------------------------- continuing a run

  /** The events lead from s to t. */
  ghost predicate Leads(s: System, es: seq<Event>, t: System)
    decreases |es|
  {
    if es == [] then s == t
    else
      exists u :: Leads(s, es[..|es| - 1], u) && InRange(u) && Enabled(u, es[|es| - 1]) && t == Next(u, es[|es| - 1])
  }

  lemma LeadsOn(s: System, es: seq<Event>, u: System, e: Event)
    requires Leads(s, es, u) && InRange(u) && Enabled(u, e)
    ensures Leads(s, es + [e], Next(u, e))
  {
    assert (es + [e])[..|es|] == es;
  }

  lemma {:induction false} RunContinues(ss: seq<System>, es: seq<Event>, more: seq<Event>, t: System)
      returns (ss': seq<System>)
    requires IsRun(ss, es) && Leads(ss[|es|], more, t)
    ensures IsRun(ss', es + more) && ss'[..|ss|] == ss && ss'[|es| + |more|] == t
    decreases |more|
  {
    if more == [] {
      assert es + more == es;
      ss' := ss;
    } else {
      var init, e := more[..|more| - 1], more[|more| - 1];
      var u :| Leads(ss[|es|], init, u) && InRange(u) && Enabled(u, e) && t == Next(u, e);
      ss' := RunContinues(ss, es, init, u);
      var es';
      ss', es' := RunGrows(ss', es + init, e);
      assert es' == es + more;
    }
  }

  function Ticks(n: nat): seq<Event> { seq(n, i => Tick) }

  /** A scan of |ticks| visits, with ticks[k] timer ticks before visit k. */
  function ScanEvents(ticks: seq<nat>): (r: seq<Event>)
    ensures Switch !in r
  {
    if ticks == [] then [] else ScanEvents(ticks[..|ticks| - 1]) + Ticks(ticks[|ticks| - 1]) + [Scan]
  }

  lemma ScanEventsGrow(ticks: seq<nat>, k: int) returns (es: seq<Event>)
    requires 0 <= k < |ticks|
    ensures es == ScanEvents(ticks[..k]) && ScanEvents(ticks[..k + 1]) == es + Ticks(ticks[k]) + [Scan]
  {
    es := ScanEvents(ticks[..k]);
    assert ticks[..k + 1][..k] == ticks[..k];
  }

  /** A schedule call: the scan, then the last of the ticks and the switch. */
  function CallEvents(ticks: seq<nat>): seq<Event>
    requires ticks != []
  {
    ScanEvents(ticks[..|ticks| - 1]) + Ticks(ticks[|ticks| - 1]) + [Switch]
  }

  /** A run that stands at the start of a schedule call goes on with the call, whose pick is as
      above. */
  lemma InterruptedCallPicks(ss: seq<System>, es: seq<Event>, ticks: seq<nat>, t: System)
      returns (ss': seq<System>, best: int)
    requires IsRun(ss, es) && ss[|es|].mode == Scanning(|ss[|es|].tasks|, NONE) && ticks != []
    requires Leads(ss[|es|], CallEvents(ticks), t)
    ensures IsRun(ss', es + CallEvents(ticks)) && ss'[..|ss|] == ss && ss'[|es| + |CallEvents(ticks)|] == t
    ensures IsPick(ss', es + CallEvents(ticks), |es|, |es| + |CallEvents(ticks)| - 1, best)
    ensures if best == NONE then t.mode.Halted? else t.mode.Idle? && t.cur == best
  {
    var all, d := es + CallEvents(ticks), |es| + |CallEvents(ticks)| - 1;
    ss' := RunContinues(ss, es, CallEvents(ticks), t);
    assert ss'[|es|] == ss'[..|ss|][|es|];
    assert all[d] == Switch && forall k :: |es| <= k < d ==> all[k] != Switch;
    CallPicks(ss', all, |es|, d);
    best := ss'[d].mode.best;
  }

  // ---------------------------------------------------------------- yield and fork

  /** A yield keeps the current task exactly when it beats every other task eligible on its
      visit, wherever ticks fall. */
  lemma YieldKeepsCurrentIff(ss: seq<System>, es: seq<Event>, a: int, d: int)
    requires IsRun(ss, es) && 0 <= a < d < |es| && es[a] == Yield && ss[a].cur != NONE
    requires InScan(ss, es, a + 1, d) && es[d] == Switch
    ensures ss[d + 1].mode.Idle? && 0 <= ss[a].cur < |ss[a].tasks| && ss[a + 1].tasks == ss[a].tasks
    ensures ss[d + 1].cur == ss[a].cur <==> BeatsOthers(ss, es, a + 1, d, ss[a].cur)
  {
    RunKeepsInv(ss, es, a);
    assert ss[a + 1] == Next(ss[a], es[a]);
    CallPicks(ss, es, a + 1, d);
    assert EligibleAtVisit(ss, es, a + 1, d, ss[a].cur);
    PickedIff(ss, es, a + 1, d, ss[d].mode.best, ss[a].cur);
  }

  predicate LeavesProcessorAlone(e: Event) {
    e.Create? || e.Fork? || e.Wake? || e.Tick?
  }

  /** Until the next schedule call the forked child waits, READY, with the parent's priority. */
  lemma {:induction false} ForkedChildWaits(ss: seq<System>, es: seq<Event>, a: int, b: int)
    requires IsRun(ss, es) && 0 <= a < b <= |es| && es[a] == Fork && ss[a].cur != NONE
    requires forall k :: a < k < b ==> LeavesProcessorAlone(es[k])
    ensures var child, parent := |ss[a].tasks|, ss[a].cur;
            && ss[b].mode.Idle? && ss[b].cur == parent && 0 <= parent < child < |ss[b].tasks|
            && ss[b].tasks[child].state.Ready? && ss[b].tasks[child].priority == ss[b].tasks[parent].priority
    decreases b
  {
    RunKeepsInv(ss, es, b - 1);
    assert ss[b - 1 + 1] == Next(ss[b - 1], es[b - 1]);
    if a < b - 1 {
      ForkedChildWaits(ss, es, a, b - 1);
    }
  }

  /** The first schedule call after a fork, whatever ticks fall before it or into it, does not
      halt and never selects the parent. */
  lemma ForkLosesTheProcessor(ss: seq<System>, es: seq<Event>, a: int, b: int, d: int)
    requires IsRun(ss, es) && 0 <= a < b < d < |es| && es[a] == Fork && ss[a].cur != NONE
    requires forall k :: a < k < b ==> LeavesProcessorAlone(es[k])
    requires es[b].Yield? || es[b].Exit? || es[b].Sleep?
    requires (forall k :: b < k < d ==> es[k].Tick? || es[k].Scan?) && es[d] == Switch
    ensures ss[d + 1].mode.Idle? && ss[d + 1].cur != ss[a].cur
  {
    ForkedChildWaits(ss, es, a, b);
    var child, parent := |ss[a].tasks|, ss[a].cur;
    assert ss[b + 1] == Next(ss[b], es[b]);
    CallPicks(ss, es, b + 1, d);
    assert EligibleAtVisit(ss, es, b + 1, d, child);
    assert !Beats(ss[b + 1].tasks, parent, child);
  }

  // ---------------------------------------------------------------- is the current task RUNNING?

  /** A schedule call made by the current task: the call's event is a, its switch is d. */
  ghost predicate IsCall(ss: seq<System>, es: seq<Event>, a: int, d: int) {
    && IsRun(ss, es) && 0 <= a < d < |es|
    && (es[a].Yield? || es[a].Sleep? || es[a].Exit?)
    && es[d] == Switch && ss[a].mode.Idle? && ss[a].cur != NONE
    && forall k :: a < k < d ==> es[k] != Switch
  }

  /** How a call leaves the task that is current after it: RUNNING if it was switched to; a
      yielder picked again as it was; a sleeper picked again READY. */
  lemma CallLeaves(ss: seq<System>, es: seq<Event>, a: int, d: int)
    requires IsCall(ss, es, a, d) && !ss[d + 1].mode.Halted?
    ensures InScan(ss, es, a + 1, d) && ss[d + 1].mode.Idle?
    ensures 0 <= ss[a].cur < |ss[a].tasks| && 0 <= ss[d + 1].cur < |ss[d + 1].tasks|
    ensures IsPick(ss, es, a + 1, d, ss[d + 1].cur)
    ensures ss[d + 1].tasks[ss[d + 1].cur].state ==
            if ss[d + 1].cur != ss[a].cur then Running
            else if es[a].Yield? then ss[a].tasks[ss[a].cur].state
            else Ready
    ensures ss[d + 1].cur == ss[a].cur ==> !es[a].Exit?
  {
    RunKeepsInv(ss, es, a);
    assert ss[a + 1] == Next(ss[a], es[a]);
    CallPicks(ss, es, a + 1, d);
    ScanFinds(ss, es, a + 1, d);
    assert ss[d + 1] == Next(ss[d], es[d]);
    FoundIsWorn(ss, es, a + 1, d, ss[a].cur);
  }

  /** After a sleep call that does not halt the current task is READY instead of RUNNING
      exactly when the caller slept for 1 <= n ticks that all fell before its own visit and it
      beats every other task eligible on its visit. */
  lemma SleepLeavesReadyIff(ss: seq<System>, es: seq<Event>, a: int, d: int, n: int)
    requires IsCall(ss, es, a, d) && es[a] == Sleep(n) && !ss[d + 1].mode.Halted?
    ensures InScan(ss, es, a + 1, d) && 0 <= ss[a].cur < |ss[a + 1].tasks| && 0 <= ss[d + 1].cur < |ss[d + 1].tasks|
    ensures ss[d + 1].tasks[ss[d + 1].cur].state.Ready? <==>
            1 <= n <= TicksAhead(ss, es, a + 1, d, ss[a].cur) && BeatsOthers(ss, es, a + 1, d, ss[a].cur)
    ensures ss[d + 1].tasks[ss[d + 1].cur].state.Ready? || ss[d + 1].tasks[ss[d + 1].cur].state.Running?
  {
    RunKeepsInv(ss, es, a);
    assert ss[a + 1] == Next(ss[a], es[a]);
    CallLeaves(ss, es, a, d);
    assert EligibleAtVisit(ss, es, a + 1, d, ss[a].cur) <==> 1 <= n <= TicksAhead(ss, es, a + 1, d, ss[a].cur);
    PickedIff(ss, es, a + 1, d, ss[d + 1].cur, ss[a].cur);
  }

  /** One task and its four states: created, running, asleep for one tick, and READY again. */
  function OneTask(state: TaskState, sleepTicks: int, cur: int, mode: Mode): System {
    System([Task(1, state, sleepTicks, 0, 0)], cur, 2, mode)
  }

  lemma OneTaskScan(cur: int)
    requires NONE <= cur < 1
    ensures Next(OneTask(Ready, 0, cur, Scanning(1, NONE)), Scan) == OneTask(Ready, 0, cur, Scanning(0, 0))
  {
  }

  lemma OneTaskTick()
    ensures Next(OneTask(Sleeping, 1, 0, Scanning(1, NONE)), Tick) == OneTask(Ready, 0, 0, Scanning(1, NONE))
  {
  }

  lemma FirstTaskRuns() returns (ss: seq<System>, es: seq<Event>)
    ensures IsRun(ss, es) && es == [Create(0), Yield, Scan, Switch]
    ensures ss[4] == OneTask(Running, 0, 0, Idle)
  {
    ss, es := RunGrows([BOOT], [], Create(0));
    assert ss[1] == OneTask(Ready, 0, NONE, Idle);
    ss, es := RunGrows(ss, es, Yield);
    OneTaskScan(NONE);
    ss, es := RunGrows(ss, es, Scan);
    ss, es := RunGrows(ss, es, Switch);
  }

  /** Such a run from boot: the only task sleeps for one tick, which falls before its visit. */
  lemma SleeperLeftReady() returns (ss: seq<System>, es: seq<Event>)
    ensures IsRun(ss, es) && es == [Create(0), Yield, Scan, Switch, Sleep(1), Tick, Scan, Switch]
    ensures ss[8].mode.Idle? && ss[8].cur == 0 && |ss[8].tasks| == 1 && ss[8].tasks[0].state.Ready?
  {
    ss, es := FirstTaskRuns();
    ss, es := RunGrows(ss, es, Sleep(1));
    OneTaskTick();
    ss, es := RunGrows(ss, es, Tick);
    OneTaskScan(0);
    ss, es := RunGrows(ss, es, Scan);
    ss, es := RunGrows(ss, es, Switch);
  }

  /** No sleep call is overtaken by its own n ticks before its caller's visit. */
  ghost predicate CalmSleeps(ss: seq<System>, es: seq<Event>) {
    forall a, d :: IsCall(ss, es, a, d) && es[a].Sleep? ==>
      es[a].ticks == 0 || TicksAhead(ss, es, a + 1, d, ss[a].cur) < es[a].ticks
  }

  /** The event that started the scan under way in state k. */
  lemma {:induction false} CallBehind(ss: seq<System>, es: seq<Event>, k: int) returns (a: int)
    requires IsRun(ss, es) && 0 <= k <= |es| && ss[k].mode.Scanning?
    ensures 0 <= a < k && (es[a].Yield? || es[a].Sleep? || es[a].Exit?) && ss[a].mode.Idle?
    ensures forall i :: a < i < k ==> es[i] != Switch
    ensures ss[k].cur == ss[a].cur
    decreases k
  {
    RunKeepsInv(ss, es, k - 1);
    assert ss[k - 1 + 1] == Next(ss[k - 1], es[k - 1]);
    if ss[k - 1].mode.Scanning? {
      a := CallBehind(ss, es, k - 1);
    } else {
      a := k - 1;
    }
  }

  /** In every run whose sleeps are calm, wherever other ticks fall, a current task is RUNNING
      whenever no schedule call is under way. */
  lemma {:induction false} CurrentRunsInCalmRuns(ss: seq<System>, es: seq<Event>, k: int)
    requires IsRun(ss, es) && CalmSleeps(ss, es) && 0 <= k <= |es|
    ensures CurrentRuns(ss[k])
    decreases k
  {
    if k > 0 && ss[k].mode.Idle? {
      RunKeepsInv(ss, es, k - 1);
      assert ss[k - 1 + 1] == Next(ss[k - 1], es[k - 1]);
      if es[k - 1] != Switch {
        CurrentRunsInCalmRuns(ss, es, k - 1);
      } else {
        var a := CallBehind(ss, es, k - 1);
        CurrentRunsInCalmRuns(ss, es, a);
        if ss[a].cur == NONE {
          FirstCallRuns(ss, es, a, k - 1);
        } else {
          assert IsCall(ss, es, a, k - 1);
          CallLeaves(ss, es, a, k - 1);
          if es[a].Sleep? { SleepLeavesReadyIff(ss, es, a, k - 1, es[a].ticks); }
        }
      }
    }
  }

  /** With no current task, a schedule call that does not halt starts one. */
  lemma FirstCallRuns(ss: seq<System>, es: seq<Event>, a: int, d: int)
    requires IsRun(ss, es) && 0 <= a < d < |es| && es[d] == Switch && ss[d].cur == NONE && ss[d + 1].mode.Idle?
    ensures CurrentRuns(ss[d + 1])
  {
    assert ss[d + 1] == Next(ss[d], es[d]);
  }

  // ---------------------------------------------------------------- starvation

  /** Task c is current and RUNNING, and a scan under way has no better candidate. */
  ghost predicate Rules(s: System, c: int) {
    && Inv(s) && !s.mode.Halted? && s.cur == c && c != NONE && s.tasks[c].state.Running?
    && (s.mode.Scanning? ==>
         if s.mode.pos <= c then s.mode.best == c
         else s.mode.best == NONE || Beats(s.tasks, c, s.mode.best))
  }

  /** Every task that c does not beat is ineligible. */
  ghost predicate Unchallenged(s: System, c: int)
    requires 0 <= c < |s.tasks|
  {
    forall j :: 0 <= j < |s.tasks| && j != c && !Beats(s.tasks, c, j) ==> !Eligible(s.tasks[j])
  }

  lemma RuleGoesOn(s: System, e: Event, c: int)
    requires Rules(s, c) && Unchallenged(s, c) && Enabled(s, e) && !e.Sleep? && !e.Exit?
    ensures Rules(Next(s, e), c)
  {
    StepKeepsInv(s, e);
  }

  /** A task that neither sleeps nor exits keeps the processor, whatever else happens and
      however often it yields, until a task that it does not beat is eligible: there is no
      round robin. */
  lemma {:induction false} YieldingIsNotSharing(ss: seq<System>, es: seq<Event>, a: int, b: int, c: int)
    requires IsRun(ss, es) && 0 <= a <= b <= |es| && Rules(ss[a], c)
    requires forall k :: a <= k < b ==> !es[k].Sleep? && !es[k].Exit?
    requires forall k :: a <= k < b && c < |ss[k].tasks| ==> Unchallenged(ss[k], c)
    ensures Rules(ss[b], c)
    decreases b
  {
    if a < b {
      YieldingIsNotSharing(ss, es, a, b - 1, c);
      RuleGoesOn(ss[b - 1], es[b - 1], c);
      assert ss[b - 1 + 1] == Next(ss[b - 1], es[b - 1]);
    }
  }

  predicate OnlySchedules(e: Event) {
    e.Yield? || e.Tick? || e.Scan? || e.Switch?
  }

  lemma IneligibleStep(s: System, e: Event, j: int)
    requires Inv(s) && Enabled(s, e) && OnlySchedules(e)
    requires 0 <= j < |s.tasks| && j != s.cur && !Eligible(s.tasks[j])
    ensures |Next(s, e).tasks| == |s.tasks|
    ensures Next(s, e).tasks[j] == if CountsDown(s, e, j) then Countdown(s.tasks[j]) else s.tasks[j]
    ensures forall i :: 0 <= i < |s.tasks| ==> Next(s, e).tasks[i].priority == s.tasks[i].priority
  {
  }

  /** Task t is not eligible, and n countdown events will not make it so. */
  predicate StaysOut(t: Task, n: int) {
    !Eligible(t) && (t.state.Sleeping? && t.sleepTicks > 0 ==> n < t.sleepTicks)
  }

  /** Every task that c does not beat stays out for the countdown events it gets in [a, b). */
  ghost predicate RivalsStayOut(ss: seq<System>, es: seq<Event>, a: int, b: int, c: int)
    requires |ss| == |es| + 1 && 0 <= a <= b <= |es| && 0 <= c < |ss[a].tasks|
  {
    forall j :: 0 <= j < |ss[a].tasks| && j != c && !Beats(ss[a].tasks, c, j) ==>
      StaysOut(ss[a].tasks[j], Countdowns(ss, es, a, b, j))
  }

  lemma {:induction false} OneStaysOut(ss: seq<System>, es: seq<Event>, a: int, b: int, c: int, j: int)
    requires IsRun(ss, es) && 0 <= a <= b <= |es| && 0 <= c < |ss[a].tasks|
    requires forall k :: a <= k < b ==> OnlySchedules(es[k]) && ss[k].cur == c
    requires 0 <= j < |ss[a].tasks| && j != c && StaysOut(ss[a].tasks[j], Countdowns(ss, es, a, b, j))
    ensures |ss[b].tasks| == |ss[a].tasks| && ss[b].tasks[j] == Worn(ss[a].tasks[j], Countdowns(ss, es, a, b, j))
    decreases b
  {
    if a < b {
      OneStaysOut(ss, es, a, b - 1, c, j);
      RunKeepsInv(ss, es, b - 1);
      IneligibleStep(ss[b - 1], es[b - 1], j);
      assert ss[b - 1 + 1] == Next(ss[b - 1], es[b - 1]);
    }
  }

  lemma {:induction false} PrioritiesStay(ss: seq<System>, es: seq<Event>, a: int, b: int)
    requires IsRun(ss, es) && 0 <= a <= b <= |es|
    requires forall k :: a <= k < b ==> OnlySchedules(es[k])
    ensures |ss[b].tasks| == |ss[a].tasks|
    ensures forall j :: 0 <= j < |ss[a].tasks| ==> ss[b].tasks[j].priority == ss[a].tasks[j].priority
    decreases b
  {
    if a < b {
      PrioritiesStay(ss, es, a, b - 1);
      assert ss[b - 1 + 1] == Next(ss[b - 1], es[b - 1]);
    }
  }

  lemma {:induction false} CountdownsGrow(ss: seq<System>, es: seq<Event>, a: int, k: int, b: int, j: int)
    requires |ss| == |es| + 1 && 0 <= a <= k <= b <= |es|
    ensures Countdowns(ss, es, a, k, j) <= Countdowns(ss, es, a, b, j)
    decreases b
  {
    if k < b { CountdownsGrow(ss, es, a, k, b - 1, j); }
  }

  lemma RivalsLeaveAlone(ss: seq<System>, es: seq<Event>, a: int, k: int, b: int, c: int)
    requires IsRun(ss, es) && 0 <= a <= k <= b <= |es| && 0 <= c < |ss[a].tasks| && RivalsStayOut(ss, es, a, b, c)
    requires forall i :: a <= i < k ==> OnlySchedules(es[i]) && ss[i].cur == c
    ensures c < |ss[k].tasks| && Unchallenged(ss[k], c)
  {
    PrioritiesStay(ss, es, a, k);
    forall j | 0 <= j < |ss[k].tasks| && j != c && !Beats(ss[k].tasks, c, j) ensures !Eligible(ss[k].tasks[j]) {
      assert !Beats(ss[a].tasks, c, j);
      CountdownsGrow(ss, es, a, k, b, j);
      OneStaysOut(ss, es, a, k, c, j);
    }
  }

  /** So among sleeping rivals the current task rules at least until the countdown event, tick
      or visit, that ends the first of their sleeps. */
  lemma {:induction false} RuleOutlastsSleepers(ss: seq<System>, es: seq<Event>, a: int, k: int, b: int, c: int)
    requires IsRun(ss, es) && 0 <= a <= k <= b <= |es| && Rules(ss[a], c) && RivalsStayOut(ss, es, a, b, c)
    requires forall i :: a <= i < b ==> OnlySchedules(es[i])
    ensures forall i :: a <= i <= k ==> Rules(ss[i], c)
    ensures Rules(ss[k], c) && Unchallenged(ss[k], c)
    decreases k
  {
    if a < k {
      RuleOutlastsSleepers(ss, es, a, k - 1, b, c);
      RuleGoesOn(ss[k - 1], es[k - 1], c);
      assert ss[k - 1 + 1] == Next(ss[k - 1], es[k - 1]);
    }
    RivalsLeaveAlone(ss, es, a, k, b, c);
  }
}
