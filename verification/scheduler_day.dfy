/** The turn of the day and of the hour: the new schedule at midnight, and the clocks of the devices. */
module SchedulerDay {
  import opened Scheduler
  import opened SchedulerClock

  /** The clock in seconds of the day. */
  lemma ByTheClock(time: nat)
    ensures var t := time % 86400;
      && Hour(time) == t / 3600 && Minute(time) == t % 3600 / 60
      && (LastMinute(time) <==> t >= 86340) && (FirstMinute(time) <==> t < 60)
  {
    HourParts(time);
    var t := time % 86400;
    assert t == t / 3600 * 3600 + t % 3600;
  }

  lemma HourParts(time: nat)
    ensures time / 3600 % 24 == time % 86400 / 3600 && time / 60 % 60 == time % 86400 % 3600 / 60
  {
    var day, t := time / 86400, time % 86400;
    assert time == 86400 * day + t;
    assert time / 3600 == 24 * day + t / 3600;
    var hour, s := t / 3600, t % 3600;
    assert time == 60 * (1440 * day + 60 * hour) + s;
    assert time / 60 == 1440 * day + 60 * hour + s / 60;
    assert time / 60 == 60 * (24 * day + hour) + s / 60;
  }

  // ----- midnight -----

  /** The first tick of a minute that is not the first of an hour is processed, whatever came before. */
  lemma {:induction false} FirstOfMinute(events: seq<Event>, p: nat) returns (q: nat)
    requires Steady(TickTimes(events)) && p < |events| && events[p].Tick? && Minute(events[p].time) != 0
    ensures q <= p && events[q].Tick? && events[q].time / 60 == events[p].time / 60 && Processed(events, q)
    decreases p
  {
    hide Run, Minute;
    if Processed(events, p) {
      q := p;
    } else {
      SomeTickCame(events, p);
      var i := PreviousTick(events, p);
      NextMinute(events[i].time, events[p].time);
      q := FirstOfMinute(events, i);
    }
  }

  lemma SomeTickCame(events: seq<Event>, p: nat)
    requires p <= |events| && Run(events[..p]).minuteTick != 0
    ensures exists m :: 0 <= m < p && events[m].Tick?
  {
    hide Run, Minute;
    TickIsLast(events[..p]);
    if |TickTimes(events[..p])| > 0 {
      var m := TickAmong(events, p);
    }
  }

  /** A schedule was made by the button between two events. */
  ghost predicate Pressed(events: seq<Event>, from: nat, to: nat)
    requires to <= |events|
  {
    exists m :: from < m < to && events[m].GenerateButton? && events[m].ok
  }

  lemma PressedMore(events: seq<Event>, from: nat, to: nat)
    requires from < to < |events|
    ensures Pressed(events, from, to + 1) <==>
      Pressed(events, from, to) || (events[to].GenerateButton? && events[to].ok)
  {
  }

  /** Behind the end of a day, while nothing else is processed, a schedule exists if the button made one. */
  lemma {:induction false} OnlyTheButton(events: seq<Event>, q: nat, k: nat)
    requires q < k <= |events| && EndsDay(events, q) && forall m :: q < m < k ==> !Processed(events, m)
    ensures Run(events[..k]).created <==> Pressed(events, q, k)
    decreases k
  {
    hide Run, Processed, LastMinute, FirstMinute, Pressed;
    FlagsAfter(events, k - 1);
    if k == q + 1 {
      assert !Pressed(events, q, k) by {
        NothingPressed(events, q);
      }
      NotProcessedButton(events, q);
      NotBoth(events[q].time);
    } else {
      OnlyTheButton(events, q, k - 1);
      PressedMore(events, q, k - 1);
    }
  }

  lemma NothingPressed(events: seq<Event>, q: nat)
    requires q < |events|
    ensures !Pressed(events, q, q + 1)
  {
  }

  lemma NotProcessedButton(events: seq<Event>, q: nat)
    requires q < |events| && Processed(events, q)
    ensures events[q].Tick?
  {
  }

  /** In a steady run the first tick of 0:00 makes the schedule of the new day, unless its preparation fails or the
      button has already made one behind the first tick of 23:59; yesterday's schedule never outlives the night. */
  lemma MidnightMakesSchedule(events: seq<Event>, k: nat) returns (q: nat)
    requires Steady(TickTimes(events)) && k < |events| && events[k].Tick? && events[k].time % 86400 < 60
    requires exists m :: 0 <= m < k && events[m].Tick?
    requires forall m :: 0 <= m < k && events[m].Tick? ==> events[m].time / 60 < events[k].time / 60
    ensures q < k && EndsDay(events, q) && events[q].time / 60 + 1 == events[k].time / 60
    ensures Generates(events, k) <==> events[k].ok && !Pressed(events, q, k)
    ensures var t := Run(events[..k + 1]);
      && t.created == (events[k].ok || Pressed(events, q, k))
      && (events[k].ok && !Pressed(events, q, k) ==> t.list == events[k].prepared && !t.accepted)
  {
    hide Run, Hour, Minute, LastMinute, FirstMinute, Pressed;
    var p := PreviousTick(events, k);
    NextMinute(events[p].time, events[k].time);
    ByTheClock(events[k].time);
    BeforeMidnight(events[p].time, events[k].time);
    q := FirstOfMinute(events, p);
    SameMinute(events[q].time, events[p].time);
    forall m | q < m < k
      ensures !Processed(events, m)
    {
      if events[m].Tick? {
        TimesGrow(events, q, m);
        assert events[m].time / 60 < events[k].time / 60;
        ProcessedIsFirst(events, q, m);
      }
    }
    OnlyTheButton(events, q, k);
    FlagsAfter(events, k);
    NotBoth(events[k].time);
    if Generates(events, k) {
      AfterTheTick(events, k);
    }
  }

  lemma AfterTheTick(events: seq<Event>, k: nat)
    requires k < |events| && events[k].Tick? && Generates(events, k)
    ensures Run(events[..k + 1]).list == events[k].prepared && !Run(events[..k + 1]).accepted
  {
    hide Run, Hour, Minute, SentAt;
    OneStep(events, k);
    NotBoth(events[k].time);
  }

  lemma MidnightIsMinute0(b: nat)
    requires b % 86400 < 60
    ensures OfDay(b / 60) == 0
  {
    var day, r := b / 86400, b % 86400;
    assert b == 60 * (1440 * day) + r;
    assert b / 60 == 1440 * day;
  }

  lemma MinuteBefore(m: nat)
    requires OfDay(m + 1) == 0
    ensures OfDay(m) == 1439
  {
  }

  lemma BeforeMidnight(a: nat, b: nat)
    requires b % 86400 < 60 && a / 60 + 1 == b / 60
    ensures LastMinute(a) && Minute(a) == 59 && Minute(b) == 0
  {
    hide Hour, Minute, LastMinute, FirstMinute, OfDay;
    MidnightIsMinute0(b);
    MinuteBefore(a / 60);
    ClockOf(a);
    ClockOf(b);
  }

  /** The first tick of 23:59 takes back both flags of a schedule, and changes nothing without one. */
  lemma NightClearsBoth(events: seq<Event>, k: nat)
    requires k < |events| && EndsDay(events, k)
    ensures var s, t := Run(events[..k]), Run(events[..k + 1]);
      && !t.created && t.list == s.list && t.executed == s.executed
      && t.accepted == (s.accepted && !s.created)
  {
    hide Run, Hour, Minute, SentAt;
    OneStep(events, k);
    NotBoth(events[k].time);
  }

  // ----- the clocks of the devices -----

  function Toggles(events: seq<Event>): nat {
    if |events| == 0 then 0
    else Toggles(events[..|events| - 1]) + if events[|events| - 1].ToggleSending? then 1 else 0
  }

  /** The hour of the day in which the clocks were last set; before that, 0. */
  function HourOfLast(clocks: seq<nat>): nat {
    if |clocks| == 0 then 0 else clocks[|clocks| - 1] % 86400 / 3600
  }

  lemma {:induction false} SendingIsToggled(events: seq<Event>)
    ensures Run(events).sendingDisabled <==> Toggles(events) % 2 == 0
  {
    hide Hour, Minute, LastMinute, FirstMinute, SentAt;
    if |events| > 0 {
      SendingIsToggled(events[..|events| - 1]);
    }
  }

  lemma {:induction false} HourIsKept(events: seq<Event>)
    ensures Run(events).hourTick == HourOfLast(Run(events).clocksSet)
  {
    hide Hour, Minute, LastMinute, FirstMinute, SentAt;
    if |events| > 0 {
      HourIsKept(events[..|events| - 1]);
      if events[|events| - 1].Tick? {
        ByTheClock(events[|events| - 1].time);
      }
    }
  }

  /** The clocks of the devices are set by the ticks that come while sending is enabled, which it is behind an odd
      number of toggles, in another hour of the day than the last setting. */
  lemma ClocksAreSetIff(events: seq<Event>, k: nat)
    requires k < |events|
    ensures var before, after := Run(events[..k]).clocksSet, Run(events[..k + 1]).clocksSet;
      after ==
        if events[k].Tick? && Toggles(events[..k]) % 2 == 1 && events[k].time % 86400 / 3600 != HourOfLast(before)
        then before + [events[k].time] else before
  {
    hide Run, Hour, Minute, LastMinute, FirstMinute, SentAt;
    OneStep(events, k);
    SendingIsToggled(events[..k]);
    HourIsKept(events[..k]);
    if events[k].Tick? {
      ByTheClock(events[k].time);
    }
  }
}
