/** The valve scheduler: CheckIfTime and logic_loop of main/dev_logic.c:181-308. */
module Valve {
  const MINUTES_PER_DAY := 1440
  const NO_WINDOW := 0

  datatype Window = Window(start: int, duration: int) {
    predicate Active(minute: nat) {
      start <= minute < start + duration
    }
  }

  // The three windows of one weekday; timeselect names one of them by 1, 2 or 3.
  datatype Hours = Hours(first: Window, second: Window, third: Window) {
    function Slot(k: nat): Window
      requires 1 <= k <= 3
    {
      if k == 1 then first else if k == 2 then second else third
    }

    predicate AnyActive(minute: nat) {
      first.Active(minute) || second.Active(minute) || third.Active(minute)
    }

    // No window is still active in the last minute of the day.
    predicate EndsBeforeMidnight() {
      && first.start + first.duration <= MINUTES_PER_DAY - 1
      && second.start + second.duration <= MINUTES_PER_DAY - 1
      && third.start + third.duration <= MINUTES_PER_DAY - 1
    }
  }

  datatype Pulse = OpenPulse | ClosePulse

  // One valve: the window it was opened for (0: none) and the relay pulses so far.
  datatype Valve = Valve(timeselect: nat, pulses: seq<Pulse>) {
    predicate Opened() {
      pulses != [] && pulses[|pulses| - 1] == OpenPulse
    }

    // The latching relay agrees with timeselect.
    predicate Synced() {
      timeselect != NO_WINDOW <==> Opened()
    }
  }

  // A new day forgets the window without closing the valve; the flag is shared by both valves.
  function NewDay(v: Valve, flag: bool, minute: nat): (Valve, bool) {
    if minute == 0 then
      if v.timeselect > 0 && !flag then (v.(timeselect := NO_WINDOW), true) else (v, flag)
    else (v, false)
  }

  function CheckWindow(v: Valve, k: nat, w: Window, minute: nat): Valve {
    if w.Active(minute) then
      if v.timeselect == NO_WINDOW then Valve(k, v.pulses + [OpenPulse]) else v
    else
      if v.timeselect == k then Valve(NO_WINDOW, v.pulses + [ClosePulse]) else v
  }

  function Check(v: Valve, flag: bool, hours: Hours, minute: nat): (Valve, bool) {
    var (v0, flag0) := NewDay(v, flag, minute);
    var v1 := CheckWindow(v0, 1, hours.first, minute);
    var v2 := CheckWindow(v1, 2, hours.second, minute);
    (CheckWindow(v2, 3, hours.third, minute), flag0)
  }

  /* ---- One call, described on its own ---- */

  // k is the least slot above the given one that is active at the minute; 0 if there is none.
  predicate LeastActive(k: nat, above: nat, hours: Hours, minute: nat) {
    if k == 0 then forall j: nat | above < j <= 3 :: !hours.Slot(j).Active(minute)
    else
      && above < k <= 3 && hours.Slot(k).Active(minute)
      && forall j: nat | above < j < k :: !hours.Slot(j).Active(minute)
  }

  // The call at minute 0 that takes a window for one of the day before.
  predicate Forgets(v: Valve, flag: bool, minute: nat) {
    minute == 0 && v.timeselect > 0 && !flag
  }

  function OpenedFor(k: nat): seq<Pulse> {
    if k == 0 then [] else [OpenPulse]
  }

  // From closed, or forgotten, the least active slot is opened for. A slot still active is
  // kept. One that has ended is closed, and the least active slot after it is opened for;
  // slots before it have to wait for the next call.
  lemma CallOutcome(v: Valve, flag: bool, hours: Hours, minute: nat)
    requires v.timeselect <= 3
    ensures var r := Check(v, flag, hours, minute).0;
            var k := r.timeselect;
            if v.timeselect == 0 || Forgets(v, flag, minute) then
              LeastActive(k, 0, hours, minute) && r.pulses == v.pulses + OpenedFor(k)
            else if hours.Slot(v.timeselect).Active(minute) then
              r == v
            else
              LeastActive(k, v.timeselect, hours, minute) && r.pulses == v.pulses + [ClosePulse] + OpenedFor(k)
  {}

  // The flag is set exactly while the minute is 0 and some valve has been found in a window.
  lemma FlagAfter(v: Valve, flag: bool, hours: Hours, minute: nat)
    ensures Check(v, flag, hours, minute).1 <==> minute == 0 && (flag || v.timeselect > 0)
  {}

  /* ---- When the relay follows timeselect ---- */

  // A call keeps relay and timeselect in step, except when it is the one that forgets an
  // open window at minute 0 with no window to take over.
  lemma SyncedUnlessForgotten(v: Valve, flag: bool, hours: Hours, minute: nat)
    requires v.Synced() && v.timeselect <= 3
    ensures Check(v, flag, hours, minute).0.Synced()
            <==> !(minute == 0 && v.timeselect > 0 && !flag && !hours.AnyActive(0))
    ensures Check(v, flag, hours, minute).0.timeselect <= 3
  {}

  /* ---- Convergence within one minute ---- */

  // Two calls in any minute but 0 settle the valve: from then on nothing changes.
  lemma Converges(v: Valve, flag: bool, hours: Hours, minute: nat)
    requires v.timeselect <= 3 && minute != 0
    ensures var (v1, flag1) := Check(v, flag, hours, minute);
            var (v2, flag2) := Check(v1, flag1, hours, minute);
            && (v2.timeselect != NO_WINDOW <==> hours.AnyActive(minute))
            && Check(v2, flag2, hours, minute) == (v2, flag2)
  {}

  // Exactly when a settled valve is disturbed by one more call in the same minute.
  lemma StableUnlessForgotten(v: Valve, flag: bool, hours: Hours, minute: nat)
    requires v.timeselect <= 3
    requires v.timeselect != NO_WINDOW ==> hours.Slot(v.timeselect).Active(minute)
    requires v.timeselect == NO_WINDOW ==> !hours.AnyActive(minute)
    ensures Check(v, flag, hours, minute).0 == v <==> !(minute == 0 && v.timeselect > 0 && !flag)
  {}

  /* ---- Whole runs ---- */

  // Hours of the seven weekdays for one valve.
  type Week = w: seq<Hours> | |w| == 7
    witness seq(7, _ => Hours(Window(0, 0), Window(0, 0), Window(0, 0)))

  // Time is counted in minutes; day 0 is a Sunday.
  function Minute(t: nat): nat {
    t % MINUTES_PER_DAY
  }

  function Today(week: Week, t: nat): Hours {
    week[(t / MINUTES_PER_DAY) % 7]
  }

  // Whenever a window is active in the last minute of a day, one is active in the first
  // minute of the next.
  predicate SafeNight(week: Week, d: nat)
    requires d < 7
  {
    week[d].AnyActive(MINUTES_PER_DAY - 1) ==> week[(d + 1) % 7].AnyActive(0)
  }

  predicate SafeOvernight(week: Week) {
    forall d: nat | d < 7 :: SafeNight(week, d)
  }

  // In particular, weeks whose windows all end by minute 1439 are safe.
  lemma EndingEarlyIsSafe(week: Week)
    requires forall d :: 0 <= d < 7 ==> week[d].EndsBeforeMidnight()
    ensures SafeOvernight(week)
  {
    forall d: nat | d < 7
      ensures SafeNight(week, d)
    {
      assert week[d].EndsBeforeMidnight();
    }
  }

  // What holds of a valve after a call at time t.
  predicate OnSchedule(v: Valve, week: Week, t: nat) {
    && v.Synced()
    && v.timeselect <= 3
    && (v.timeselect != NO_WINDOW ==> Today(week, t).Slot(v.timeselect).Active(Minute(t)))
  }

  lemma NextMinute(t: nat, t': nat)
    requires t <= t' <= t + 1
    ensures Minute(t') != 0 ==> t' / MINUTES_PER_DAY == t / MINUTES_PER_DAY
    ensures t' != t && Minute(t') == 0 ==>
              Minute(t) == MINUTES_PER_DAY - 1 && t' / MINUTES_PER_DAY == t / MINUTES_PER_DAY + 1
  {
    assert t == MINUTES_PER_DAY * (t / MINUTES_PER_DAY) + Minute(t);
    assert t' == MINUTES_PER_DAY * (t' / MINUTES_PER_DAY) + Minute(t');
  }

  lemma TakenOverAtMidnight(v: Valve, week: Week, t: nat)
    requires OnSchedule(v, week, t) && SafeOvernight(week)
    requires Minute(t) == MINUTES_PER_DAY - 1 && Minute(t + 1) == 0 && v.timeselect != NO_WINDOW
    ensures Today(week, t + 1).AnyActive(0)
  {
    hide Minute;
    NextMinute(t, t + 1);
    var q := t / MINUTES_PER_DAY;
    NextWeekday(q);
    assert SafeNight(week, q % 7);
  }

  lemma NextWeekday(q: nat)
    ensures (q + 1) % 7 == (q % 7 + 1) % 7
  {}

  // One call, no later than the minute after the previous one for this valve; the flag may
  // have any value.
  lemma CallKeepsSchedule(v: Valve, flag: bool, week: Week, t: nat, t': nat)
    requires OnSchedule(v, week, t) && SafeOvernight(week)
    requires t <= t' <= t + 1
    ensures OnSchedule(Check(v, flag, Today(week, t'), Minute(t')).0, week, t')
  {
    NextMinute(t, t');
    if t' != t && Minute(t') == 0 && v.timeselect != NO_WINDOW {
      TakenOverAtMidnight(v, week, t);
    }
    SyncedUnlessForgotten(v, flag, Today(week, t'), Minute(t'));
    SlotAfter(v, flag, Today(week, t'), Minute(t'));
  }

  predicate CallStays(v: Valve, flag: bool, week: Week, t: nat) {
    OnSchedule(Check(v, flag, Today(week, t), Minute(t)).0, week, t)
  }

  function LastMinute(d: nat): nat {
    MINUTES_PER_DAY * d + MINUTES_PER_DAY - 1
  }

  const CLOSED_VALVE := Valve(NO_WINDOW, [])

  // An unsafe night goes wrong: opened at 23:59, forgotten open at 0:00.
  lemma UnsafeNight(week: Week, d: nat, flag: bool)
    requires d < 7 && !SafeNight(week, d)
    ensures var t := LastMinute(d);
            var v := Check(CLOSED_VALVE, flag, Today(week, t), Minute(t)).0;
            OnSchedule(v, week, t) && !CallStays(v, false, week, t + 1)
  {
    var t := LastMinute(d);
    MidnightAfter(d);
    var v := Check(CLOSED_VALVE, flag, Today(week, t), Minute(t)).0;
    SyncedUnlessForgotten(CLOSED_VALVE, flag, Today(week, t), Minute(t));
    SlotAfter(CLOSED_VALVE, flag, Today(week, t), Minute(t));
    SyncedUnlessForgotten(v, false, Today(week, t + 1), 0);
  }

  lemma MidnightAfter(d: nat)
    ensures var t := LastMinute(d);
            && Minute(t) == MINUTES_PER_DAY - 1 && t / MINUTES_PER_DAY == d
            && Minute(t + 1) == 0 && (t + 1) / MINUTES_PER_DAY == d + 1
  {}

  // Every call in time leaves every valve that is on schedule on schedule.
  ghost predicate KeepsSchedule(week: Week) {
    forall v: Valve, flag: bool, t: nat, t': nat | OnSchedule(v, week, t) && t <= t' <= t + 1 ::
      CallStays(v, flag, week, t')
  }

  // The scheduler keeps every valve on schedule exactly for the weeks that are safe overnight.
  lemma OnScheduleIffSafe(week: Week)
    ensures KeepsSchedule(week) <==> SafeOvernight(week)
  {
    if SafeOvernight(week) {
      forall v: Valve, flag: bool, t: nat, t': nat | OnSchedule(v, week, t) && t <= t' <= t + 1
        ensures CallStays(v, flag, week, t')
      {
        CallKeepsSchedule(v, flag, week, t, t');
      }
    } else {
      var d: nat :| d < 7 && !SafeNight(week, d);
      UnsafeNight(week, d, false);
    }
  }

  lemma SlotAfter(v: Valve, flag: bool, hours: Hours, minute: nat)
    requires v.timeselect <= 3
    ensures var k := Check(v, flag, hours, minute).0.timeselect;
            k <= 3 && (k != NO_WINDOW ==> hours.Slot(k).Active(minute))
  {}

  // Two calls in each minute keep the valve open in its windows and closed outside them.
  lemma OpenExactlyInWindows(v: Valve, flag: bool, flag': bool, week: Week, t: nat, t': nat)
    requires OnSchedule(v, week, t) && SafeOvernight(week)
    requires t <= t' <= t + 1
    ensures var v1 := Check(v, flag, Today(week, t'), Minute(t')).0;
            var v2 := Check(v1, flag', Today(week, t'), Minute(t')).0;
            OnSchedule(v2, week, t') && (v2.Opened() <==> Today(week, t').AnyActive(Minute(t')))
  {
    var v1 := Check(v, flag, Today(week, t'), Minute(t')).0;
    CallKeepsSchedule(v, flag, week, t, t');
    CallKeepsSchedule(v1, flag', week, t', t');
    SecondCallCatchesUp(v, flag, flag', Today(week, t'), Minute(t'));
  }

  lemma SecondCallCatchesUp(v: Valve, flag: bool, flag': bool, hours: Hours, minute: nat)
    requires v.timeselect <= 3
    ensures var v1 := Check(v, flag, hours, minute).0;
            var v2 := Check(v1, flag', hours, minute).0;
            v2.timeselect != NO_WINDOW <==> hours.AnyActive(minute)
  {}

  // Both valves and the shared flag; each pass of logic_loop reads the clock once per valve.
  datatype System = System(left: Valve, right: Valve, flag: bool)

  datatype Pass = Pass(leftTime: nat, rightTime: nat)

  function Loop(s: System, leftWeek: Week, rightWeek: Week, p: Pass): System {
    var (left, flag) := Check(s.left, s.flag, Today(leftWeek, p.leftTime), Minute(p.leftTime));
    var (right, flag') := Check(s.right, flag, Today(rightWeek, p.rightTime), Minute(p.rightTime));
    System(left, right, flag')
  }

  function Run(s: System, leftWeek: Week, rightWeek: Week, passes: seq<Pass>): System
    decreases passes
  {
    if passes == [] then s else Run(Loop(s, leftWeek, rightWeek, passes[0]), leftWeek, rightWeek, passes[1..])
  }

  // No valve ever misses a minute.
  predicate Paced(previous: Pass, passes: seq<Pass>)
    decreases passes
  {
    passes == []
    || (&& previous.leftTime <= passes[0].leftTime <= previous.leftTime + 1
        && previous.rightTime <= passes[0].rightTime <= previous.rightTime + 1
        && Paced(passes[0], passes[1..]))
  }

  function LastPass(previous: Pass, passes: seq<Pass>): Pass {
    if passes == [] then previous else passes[|passes| - 1]
  }

  lemma {:induction false} AlwaysOnSchedule(s: System, leftWeek: Week, rightWeek: Week,
                                            previous: Pass, passes: seq<Pass>)
    requires SafeOvernight(leftWeek) && SafeOvernight(rightWeek)
    requires OnSchedule(s.left, leftWeek, previous.leftTime) && OnSchedule(s.right, rightWeek, previous.rightTime)
    requires Paced(previous, passes)
    ensures var r := Run(s, leftWeek, rightWeek, passes);
            var last := LastPass(previous, passes);
            OnSchedule(r.left, leftWeek, last.leftTime) && OnSchedule(r.right, rightWeek, last.rightTime)
    decreases passes
  {
    if passes != [] {
      hide OnSchedule, Check, Today, Minute;
      var p := passes[0];
      var (left, flag) := Check(s.left, s.flag, Today(leftWeek, p.leftTime), Minute(p.leftTime));
      CallKeepsSchedule(s.left, s.flag, leftWeek, previous.leftTime, p.leftTime);
      CallKeepsSchedule(s.right, flag, rightWeek, previous.rightTime, p.rightTime);
      AlwaysOnSchedule(Loop(s, leftWeek, rightWeek, p), leftWeek, rightWeek, p, passes[1..]);
    }
  }

  // A closed valve is on schedule at any time.
  lemma StartsOnSchedule(week: Week, t: nat)
    ensures OnSchedule(CLOSED_VALVE, week, t)
  {}

  const CLOSED := System(CLOSED_VALVE, CLOSED_VALVE, false)

  ghost predicate RunOnSchedule(leftWeek: Week, rightWeek: Week, start: Pass, passes: seq<Pass>) {
    var r := Run(CLOSED, leftWeek, rightWeek, passes);
    var last := LastPass(start, passes);
    OnSchedule(r.left, leftWeek, last.leftTime) && OnSchedule(r.right, rightWeek, last.rightTime)
  }

  // Started with both valves closed at any time, every run that misses no minute ends with
  // both valves on schedule.
  ghost predicate AllRunsOnSchedule(leftWeek: Week, rightWeek: Week) {
    forall start: Pass, passes: seq<Pass> | Paced(start, passes) ::
      RunOnSchedule(leftWeek, rightWeek, start, passes)
  }

  lemma RunTwo(s: System, leftWeek: Week, rightWeek: Week, p: Pass, q: Pass)
    ensures Run(s, leftWeek, rightWeek, [p, q]) == Loop(Loop(s, leftWeek, rightWeek, p), leftWeek, rightWeek, q)
    ensures LastPass(p, [p, q]) == q
    ensures p.leftTime <= q.leftTime <= p.leftTime + 1 && p.rightTime <= q.rightTime <= p.rightTime + 1
            ==> Paced(p, [p, q])
  {
    hide Loop;
    assert [p, q][1..] == [q] && [q][1..] == [];
    var t := Loop(s, leftWeek, rightWeek, p);
    assert Run(s, leftWeek, rightWeek, [p, q]) == Run(t, leftWeek, rightWeek, [q]);
    assert Paced(q, []);
    assert p.leftTime <= q.leftTime <= p.leftTime + 1 && p.rightTime <= q.rightTime <= p.rightTime + 1
           ==> Paced(p, [q]);
  }

  // Away from minute 0 the flag is cleared.
  lemma FlagCleared(v: Valve, flag: bool, hours: Hours, minute: nat)
    requires minute != 0
    ensures !Check(v, flag, hours, minute).1
  {}

  // Both valves are checked at 23:59, then the left one at 0:00.
  lemma LeftGoesWrong(leftWeek: Week, rightWeek: Week, d: nat)
    requires d < 7 && !SafeNight(leftWeek, d)
    ensures !AllRunsOnSchedule(leftWeek, rightWeek)
  {
    hide SafeNight, OnSchedule, Check, Today, Minute, Run, LastPass, Paced;
    var t := LastMinute(d);
    var p, q := Pass(t, t), Pass(t + 1, t + 1);
    MidnightAfter(d);
    UnsafeNight(leftWeek, d, false);
    RunTwo(CLOSED, leftWeek, rightWeek, p, q);
    var (left, flag) := Check(CLOSED_VALVE, false, Today(leftWeek, t), Minute(t));
    FlagCleared(CLOSED_VALVE, flag, Today(rightWeek, t), Minute(t));
    assert !RunOnSchedule(leftWeek, rightWeek, p, [p, q]);
  }

  // For the right valve the midnight must fall between the two checks of one pass.
  lemma RightGoesWrong(leftWeek: Week, rightWeek: Week, d: nat)
    requires d < 7 && !SafeNight(rightWeek, d)
    ensures !AllRunsOnSchedule(leftWeek, rightWeek)
  {
    hide SafeNight, OnSchedule, Check, Today, Minute, Run, LastPass, Paced;
    var t := LastMinute(d);
    var p, q := Pass(t, t), Pass(t, t + 1);
    MidnightAfter(d);
    RunTwo(CLOSED, leftWeek, rightWeek, p, q);
    var (left, flag) := Check(CLOSED_VALVE, false, Today(leftWeek, t), Minute(t));
    UnsafeNight(rightWeek, d, flag);
    var s := Loop(CLOSED, leftWeek, rightWeek, p);
    FlagCleared(s.left, s.flag, Today(leftWeek, t), Minute(t));
    assert !RunOnSchedule(leftWeek, rightWeek, p, [p, q]);
  }

  // Both valves stay on schedule over all such runs exactly if both weeks are safe overnight.
  lemma AllRunsIffSafe(leftWeek: Week, rightWeek: Week)
    ensures AllRunsOnSchedule(leftWeek, rightWeek) <==> SafeOvernight(leftWeek) && SafeOvernight(rightWeek)
  {
    hide OnSchedule, Run, LastPass, Paced;
    if !SafeOvernight(leftWeek) {
      var d: nat :| d < 7 && !SafeNight(leftWeek, d);
      LeftGoesWrong(leftWeek, rightWeek, d);
    } else if !SafeOvernight(rightWeek) {
      var d: nat :| d < 7 && !SafeNight(rightWeek, d);
      RightGoesWrong(leftWeek, rightWeek, d);
    } else {
      forall start: Pass, passes: seq<Pass> | Paced(start, passes)
        ensures RunOnSchedule(leftWeek, rightWeek, start, passes)
      {
        StartsOnSchedule(leftWeek, start.leftTime);
        StartsOnSchedule(rightWeek, start.rightTime);
        AlwaysOnSchedule(CLOSED, leftWeek, rightWeek, start, passes);
      }
    }
  }

  // A valve that belongs to no window is left as it is until one becomes active.
  lemma {:induction false} Unattended(s: System, leftWeek: Week, rightWeek: Week, passes: seq<Pass>)
    requires s.left.timeselect == NO_WINDOW
    requires forall i :: 0 <= i < |passes| ==>
               !Today(leftWeek, passes[i].leftTime).AnyActive(Minute(passes[i].leftTime))
    ensures Run(s, leftWeek, rightWeek, passes).left == s.left
    decreases passes
  {
    if passes != [] {
      var p := passes[0];
      assert !Today(leftWeek, p.leftTime).AnyActive(Minute(p.leftTime));
      Unattended(Loop(s, leftWeek, rightWeek, p), leftWeek, rightWeek, passes[1..]);
    }
  }

  // 23:00 to midnight, every day.
  function LateWeek(): Week {
    seq(7, _ => Hours(Window(1380, 60), Window(0, 0), Window(0, 0)))
  }

  // Opened at 23:59, forgotten at 0:00: through any run up to 23:00 the valve stays open with
  // no window to close it.
  lemma MidnightLeavesValveOpen(rightWeek: Week, rest: seq<Pass>)
    requires forall i :: 0 <= i < |rest| ==> 1440 <= rest[i].leftTime < 1440 + 1380
    ensures var r := Run(CLOSED, LateWeek(), rightWeek, [Pass(1439, 1439), Pass(1440, 1440)] + rest);
            r.left == Valve(NO_WINDOW, [OpenPulse]) && r.left.Opened()
  {
    var p, q := Pass(1439, 1439), Pass(1440, 1440);
    RunAppend(CLOSED, LateWeek(), rightWeek, [p, q], rest);
    RunTwo(CLOSED, LateWeek(), rightWeek, p, q);
    Unattended(Run(CLOSED, LateWeek(), rightWeek, [p, q]), LateWeek(), rightWeek, rest);
  }

  /* ---- A day with one window ---- */

  // A closed valve after one call in each of the first n minutes of a day.
  function MinuteByMinute(hours: Hours, n: nat): (Valve, bool) {
    if n == 0 then (CLOSED_VALVE, false)
    else
      var (v, flag) := MinuteByMinute(hours, n - 1);
      Check(v, flag, hours, n - 1)
  }

  // One slot k from minute a up to but not including b: the relay gets one open pulse at a and
  // one close pulse at b.
  lemma {:induction false} OneWindowDay(hours: Hours, k: nat, a: nat, b: nat, n: nat)
    requires 1 <= k <= 3 && a < b && hours.Slot(k) == Window(a, b - a)
    requires forall j | 1 <= j <= 3 && j != k :: hours.Slot(j).duration <= 0
    ensures MinuteByMinute(hours, n).0
            == if n <= a then CLOSED_VALVE
               else if n <= b then Valve(k, [OpenPulse])
               else Valve(NO_WINDOW, [OpenPulse, ClosePulse])
  {
    if n > 0 {
      OneWindowDay(hours, k, a, b, n - 1);
      assert hours.Slot(1) == hours.first && hours.Slot(2) == hours.second && hours.Slot(3) == hours.third;
    }
  }

  /* ---- Midnight resets ---- */

  // How many calls of one pass, and of a run, forget a window.
  function PassResets(s: System, leftWeek: Week, rightWeek: Week, p: Pass): nat {
    var flag := Check(s.left, s.flag, Today(leftWeek, p.leftTime), Minute(p.leftTime)).1;
    (if Forgets(s.left, s.flag, Minute(p.leftTime)) then 1 else 0)
    + if Forgets(s.right, flag, Minute(p.rightTime)) then 1 else 0
  }

  function Resets(s: System, leftWeek: Week, rightWeek: Week, passes: seq<Pass>): nat
    decreases passes
  {
    if passes == [] then 0
    else
      PassResets(s, leftWeek, rightWeek, passes[0])
      + Resets(Loop(s, leftWeek, rightWeek, passes[0]), leftWeek, rightWeek, passes[1..])
  }

  predicate AtMidnight(p: Pass) {
    Minute(p.leftTime) == 0 && Minute(p.rightTime) == 0
  }

  // The valve checked first is the one reset; the other keeps an active window.
  lemma LeftResetFirst(s: System, leftWeek: Week, rightWeek: Week, p: Pass)
    requires AtMidnight(p) && !s.flag && 1 <= s.left.timeselect <= 3 && 1 <= s.right.timeselect <= 3
    requires Today(rightWeek, p.rightTime).Slot(s.right.timeselect).Active(0)
    ensures var r := Loop(s, leftWeek, rightWeek, p);
            && r.right == s.right && r.flag
            && LeastActive(r.left.timeselect, 0, Today(leftWeek, p.leftTime), 0)
            && r.left.pulses == s.left.pulses + OpenedFor(r.left.timeselect)
  {
    hide Check, LeastActive;
    CallOutcome(s.left, s.flag, Today(leftWeek, p.leftTime), 0);
    FlagAfter(s.left, s.flag, Today(leftWeek, p.leftTime), 0);
    CallOutcome(s.right, true, Today(rightWeek, p.rightTime), 0);
    FlagAfter(s.right, true, Today(rightWeek, p.rightTime), 0);
  }

  // However many passes fall into minute 0, of both valves together at most one is reset, and
  // only once; the flag tells whether that has happened.
  lemma {:induction false} OneResetPerMidnight(s: System, leftWeek: Week, rightWeek: Week, passes: seq<Pass>)
    requires forall i :: 0 <= i < |passes| ==> AtMidnight(passes[i])
    ensures var flag := Run(s, leftWeek, rightWeek, passes).flag;
            Resets(s, leftWeek, rightWeek, passes) == if flag && !s.flag then 1 else 0
    ensures s.flag ==> Run(s, leftWeek, rightWeek, passes).flag
    decreases passes
  {
    if passes != [] {
      hide Check, Today, Minute;
      var p := passes[0];
      assert AtMidnight(p);
      var (left, flag) := Check(s.left, s.flag, Today(leftWeek, p.leftTime), Minute(p.leftTime));
      FlagAfter(s.left, s.flag, Today(leftWeek, p.leftTime), Minute(p.leftTime));
      FlagAfter(s.right, flag, Today(rightWeek, p.rightTime), Minute(p.rightTime));
      OneResetPerMidnight(Loop(s, leftWeek, rightWeek, p), leftWeek, rightWeek, passes[1..]);
    }
  }

  lemma {:induction false} RunAppend(s: System, leftWeek: Week, rightWeek: Week, a: seq<Pass>, b: seq<Pass>)
    ensures Run(s, leftWeek, rightWeek, a + b) == Run(Run(s, leftWeek, rightWeek, a), leftWeek, rightWeek, b)
    decreases a
  {
    hide Loop;
    if a == [] {
      assert a + b == b;
    } else {
      assert (a + b)[1..] == a[1..] + b;
      RunAppend(Loop(s, leftWeek, rightWeek, a[0]), leftWeek, rightWeek, a[1..], b);
    }
  }

  /* ---- The firmware ---- */

  const VALVES := 2

  class Scheduler {
    const timeselect: array<nat>
    var hourParm: seq<Week>
    // The static flag of CheckIfTime.
    var minindayos: bool
    ghost var pulses: seq<seq<Pulse>>

    ghost predicate Valid()
      reads this, timeselect
    {
      timeselect.Length == VALVES && |hourParm| == VALVES && |pulses| == VALVES
    }

    ghost function ValveAt(index: nat): Valve
      requires Valid() && index < VALVES
      reads this, timeselect
    {
      Valve(timeselect[index], pulses[index])
    }

    constructor (hours: seq<Week>)
      requires |hours| == VALVES
      ensures Valid() && fresh(timeselect) && hourParm == hours && !minindayos
      ensures forall i :: 0 <= i < VALVES ==> ValveAt(i) == Valve(NO_WINDOW, [])
    {
      timeselect := new nat[VALVES](_ => NO_WINDOW);
      hourParm := hours;
      minindayos := false;
      pulses := [[], []];
    }

    // Open or close pulse on the relay output of one valve.
    method PulseRelay(index: nat, pulse: Pulse)
      requires Valid() && index < VALVES
      modifies this`pulses
      ensures Valid() && pulses == old(pulses)[index := old(pulses)[index] + [pulse]]
    {
      pulses := pulses[index := pulses[index] + [pulse]];
    }

    method CheckSlot(index: nat, k: nat, w: Window, mininday: nat)
      requires Valid() && index < VALVES
      modifies this`pulses, timeselect
      ensures Valid()
      ensures ValveAt(index) == CheckWindow(old(ValveAt(index)), k, w, mininday)
      ensures forall i :: 0 <= i < VALVES && i != index ==> ValveAt(i) == old(ValveAt(i))
    {
      if mininday >= w.start && mininday < w.start + w.duration {
        if timeselect[index] == NO_WINDOW {
          timeselect[index] := k;
          PulseRelay(index, OpenPulse);
        }
      } else {
        if timeselect[index] == k {
          timeselect[index] := NO_WINDOW;
          PulseRelay(index, ClosePulse);
        }
      }
    }

    method CheckIfTime(index: nat, dayw: nat, mininday: nat)
      requires Valid() && index < VALVES && dayw < 7 && mininday < MINUTES_PER_DAY
      modifies this`pulses, this`minindayos, timeselect
      ensures Valid()
      ensures (ValveAt(index), minindayos)
              == Check(old(ValveAt(index)), old(minindayos), hourParm[index][dayw], mininday)
      ensures forall i :: 0 <= i < VALVES && i != index ==> ValveAt(i) == old(ValveAt(i))
    {
      if mininday == 0 {
        if timeselect[index] > 0 && !minindayos {
          minindayos := true;
          timeselect[index] := NO_WINDOW;
        }
      } else {
        minindayos := false;
      }
      var hours := hourParm[index][dayw];
      CheckSlot(index, 1, hours.first, mininday);
      CheckSlot(index, 2, hours.second, mininday);
      CheckSlot(index, 3, hours.third, mininday);
    }

    method LogicLoop(p: Pass)
      requires Valid()
      modifies this`pulses, this`minindayos, timeselect
      ensures Valid()
      ensures System(ValveAt(0), ValveAt(1), minindayos)
              == Loop(System(old(ValveAt(0)), old(ValveAt(1)), old(minindayos)), hourParm[0], hourParm[1], p)
    {
      CheckIfTime(0, (p.leftTime / MINUTES_PER_DAY) % 7, p.leftTime % MINUTES_PER_DAY);
      CheckIfTime(1, (p.rightTime / MINUTES_PER_DAY) % 7, p.rightTime % MINUTES_PER_DAY);
    }
  }
}
