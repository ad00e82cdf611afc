/** What the schedule means by the clock, when the ticks come less than a minute apart. */
module SchedulerClock {
  import opened Scheduler

  // ----- ticks and minutes -----

  lemma {:induction false} TimesOfPrefix(events: seq<Event>, j: nat)
    requires j <= |events|
    ensures TickTimes(events[..j]) <= TickTimes(events)
    decreases |events| - j
  {
    if j == |events| {
      assert events[..j] == events;
    } else {
      TimesOfPrefix(events, j + 1);
      assert events[..j + 1][..j] == events[..j];
    }
  }

  /** The tick before a tick of a steady run, if there is one. */
  lemma {:induction false} PreviousTick(events: seq<Event>, j: nat) returns (i: nat)
    requires Steady(TickTimes(events)) && j < |events| && events[j].Tick?
    requires exists m :: 0 <= m < j && events[m].Tick?
    ensures i < j && events[i].Tick? && forall m :: i < m < j ==> !events[m].Tick?
    ensures events[i].time <= events[j].time < events[i].time + 60
    ensures Run(events[..j]).minuteTick == Minute(events[i].time)
  {
    hide Run, Minute;
    i := LastTickBefore(events, j);
    var before := TickTimes(events[..j]);
    TimesOfPrefix(events, j + 1);
    assert events[..j + 1][..j] == events[..j];
    var times := TickTimes(events[..j + 1]);
    assert times == before + [events[j].time];
    forall m | 0 <= m < |times| - 1
      ensures times[m] <= times[m + 1] < times[m] + 60
    {
      assert times[m] == TickTimes(events)[m] && times[m + 1] == TickTimes(events)[m + 1];
    }
    SteadyFront(before, events[j].time);
    TickIsLast(events[..j]);
  }

  lemma {:induction false} LastTickBefore(events: seq<Event>, j: nat) returns (i: nat)
    requires j <= |events| && exists m :: 0 <= m < j && events[m].Tick?
    ensures i < j && events[i].Tick? && forall m :: i < m < j ==> !events[m].Tick?
    ensures |TickTimes(events[..j])| > 0
    ensures TickTimes(events[..j])[|TickTimes(events[..j])| - 1] == events[i].time
  {
    assert events[..j][..j - 1] == events[..j - 1];
    if events[j - 1].Tick? {
      i := j - 1;
    } else {
      i := LastTickBefore(events, j - 1);
    }
  }

  lemma {:induction false} TimesGrow(events: seq<Event>, i: nat, j: nat)
    requires Steady(TickTimes(events)) && i <= j < |events| && events[i].Tick? && events[j].Tick?
    ensures events[i].time <= events[j].time
    decreases j
  {
    if i < j {
      var p := PreviousTick(events, j);
      TimesGrow(events, i, p);
    }
  }

  lemma SameMinute(a: nat, b: nat)
    requires a / 60 == b / 60
    ensures Hour(a) == Hour(b) && Minute(a) == Minute(b) && (LastMinute(a) <==> LastMinute(b))
  {
    assert a / 3600 == a / 60 / 60 && b / 3600 == b / 60 / 60;
  }

  /** Only the first tick of a minute is processed. */
  lemma ProcessedIsFirst(events: seq<Event>, i: nat, j: nat)
    requires Steady(TickTimes(events)) && i < j < |events| && events[i].Tick? && events[j].Tick?
    requires events[i].time / 60 == events[j].time / 60
    ensures !Processed(events, j)
  {
    hide Run, Minute;
    var p := PreviousTick(events, j);
    TimesGrow(events, i, p);
    SameMinute(events[p].time, events[j].time);
  }

  /** Between a tick before a minute and a tick in or behind it, some tick is the first of that minute. */
  lemma {:induction false} MinuteIsSeen(events: seq<Event>, i: nat, l: nat, minute: nat) returns (j: nat)
    requires Steady(TickTimes(events)) && i < l < |events| && events[i].Tick? && events[l].Tick?
    requires events[i].time / 60 < minute <= events[l].time / 60
    ensures i < j <= l && events[j].Tick? && events[j].time / 60 == minute && Processed(events, j)
    decreases l
  {
    hide Run, Minute;
    var p := PreviousTick(events, l);
    if events[p].time / 60 >= minute {
      j := MinuteIsSeen(events, i, p, minute);
    } else {
      NextMinute(events[p].time, events[l].time);
      j := l;
    }
  }

  // ----- the most recent 23:59 -----

  /** A schedule that is still current was made after the first tick of every 23:59 that has been ticked since:
      if a tick of the last minute of a day comes behind it, an earlier one of that minute came before it. */
  lemma {:induction false} MadeAfterLastMinute(events: seq<Event>, g: nat, k: nat, j: nat) returns (i: nat)
    requires Steady(TickTimes(events)) && k <= |events| && Current(events, g, k)
    requires g < j < k && events[j].Tick? && LastMinute(events[j].time)
    ensures i < g && events[i].Tick? && events[i].time / 60 == events[j].time / 60
    decreases j
  {
    hide Run, Hour;
    assert !EndsDay(events, j);
    SomeTickBefore(events, j);
    i := PreviousTick(events, j);
    NextMinute(events[i].time, events[j].time);
    SameMinute(events[i].time, events[j].time);
    if i > g {
      i := MadeAfterLastMinute(events, g, k, i);
    } else {
      NotMadeInLastMinute(events, g, events[j].time);
    }
  }

  /** The first tick ever sees 23:59 as a new minute. */
  lemma SomeTickBefore(events: seq<Event>, j: nat)
    requires j < |events| && events[j].Tick? && LastMinute(events[j].time) && !Processed(events, j)
    ensures exists m :: 0 <= m < j && events[m].Tick?
  {
    hide Run, Hour;
    TickIsLast(events[..j]);
    if |TickTimes(events[..j])| > 0 {
      var m := TickAmong(events, j);
    }
  }

  lemma {:induction false} TickAmong(events: seq<Event>, j: nat) returns (m: nat)
    requires j <= |events| && |TickTimes(events[..j])| > 0
    ensures m < j && events[m].Tick?
  {
    assert events[..j][..j - 1] == events[..j - 1];
    if events[j - 1].Tick? {
      m := j - 1;
    } else {
      m := TickAmong(events, j - 1);
    }
  }

  lemma NotMadeInLastMinute(events: seq<Event>, g: nat, time: nat)
    requires g < |events| && Generates(events, g) && LastMinute(time)
    ensures events[g].Tick? ==> events[g].time / 60 != time / 60
  {
    hide Run;
    if events[g].Tick? && events[g].time / 60 == time / 60 {
      SameMinute(events[g].time, time);
    }
  }

  /** The minute of the day, from the minutes counted since the beginning of time. */
  function OfDay(minute: nat): nat { minute % 1440 }

  const LAST := 1439

  lemma PartsOfDay(minute: nat)
    ensures minute / 60 % 24 == OfDay(minute) / 60 && minute % 60 == OfDay(minute) % 60
  {
    var day, rest := minute / 1440, minute % 1440;
    assert minute == 60 * (24 * day + rest / 60) + rest % 60;
    assert minute / 60 == 24 * day + rest / 60 && 0 <= rest / 60 < 24;
  }

  lemma ClockOf(time: nat)
    ensures Hour(time) == OfDay(time / 60) / 60 && Minute(time) == OfDay(time / 60) % 60
    ensures LastMinute(time) <==> OfDay(time / 60) == LAST
  {
    assert time / 3600 == time / 60 / 60;
    PartsOfDay(time / 60);
    var m := OfDay(time / 60);
    hide OfDay;
    assert m == 60 * (m / 60) + m % 60;
  }

  /** The promise of the scheduler by the clock: what is executed was made and then accepted, with nothing made since,
      both behind the first tick of the most recent 23:59. */
  lemma ExecutesAfterTheLastNight(events: seq<Event>, k: nat) returns (g: nat, a: nat)
    requires Steady(TickTimes(events)) && k < |events| && Executes(events, k)
    ensures AcceptedSince(events, g, a, k)
    ensures events[k].Tick? && !LastMinute(events[k].time)
    ensures Run(events[..k + 1]).executed == Run(events[..k]).executed + [SentAt(events[g].prepared, events[k].time)]
    ensures forall i: nat, night: nat ::
      i < k && events[i].Tick? && events[i].time / 60 < night <= events[k].time / 60 && OfDay(night) == LAST ==>
      exists m: nat :: m < g && events[m].Tick? && events[m].time / 60 == night
  {
    hide Run, Hour, Minute, SentAt, Current, OfDay;
    g, a := ExecutesWhatWasAccepted(events, k);
    ExecutesIff(events, k);
    assert !LastMinute(events[k].time);
    forall i: nat, night: nat
      | i < k && events[i].Tick? && events[i].time / 60 < night <= events[k].time / 60 && OfDay(night) == LAST
      ensures exists m: nat :: m < g && events[m].Tick? && events[m].time / 60 == night
    {
      var m := MinuteIsSeen(events, i, k, night);
      NightIsBefore(events, g, k, m);
    }
  }

  /** The first tick of a 23:59 comes before every schedule that is current behind it. */
  lemma NightIsBefore(events: seq<Event>, g: nat, k: nat, m: nat)
    requires k < |events| && Current(events, g, k) && m <= k && events[m].Tick? && Processed(events, m)
    requires OfDay(events[m].time / 60) == LAST && (events[k].Tick? ==> !LastMinute(events[k].time))
    ensures m < g
  {
    hide Run, Hour, Minute, OfDay;
    ClockOf(events[m].time);
    assert EndsDay(events, m);
    NotMadeInLastMinute(events, g, events[m].time);
  }

  const EVENING := 22 * 3600 + 59 * 60
  const NEXT_MORNING := 86400 + 10 * 3600

  /** Without steady ticks this fails: a program that is held up from 22:59 to 10:00 executes yesterday's list,
      although 23:59 has passed in between. */
  lemma AGapExecutesYesterday(list: seq<TimerCommand>)
    ensures var events :=
        [Tick(EVENING, [], true), GenerateButton(list, true), AcceptButton, Tick(NEXT_MORNING, [], true)];
      && Run(events).executed == [SentAt(list, NEXT_MORNING)]
      && exists t :: EVENING < t < NEXT_MORNING && LastMinute(t)
  {
    hide SentAt;
    var events := [Tick(EVENING, [], true), GenerateButton(list, true), AcceptButton, Tick(NEXT_MORNING, [], true)];
    OneStep(events, 0);
    OneStep(events, 1);
    OneStep(events, 2);
    OneStep(events, 3);
    assert events[..4] == events && Run(events[..0]) == START_STATE;
    assert LastMinute(EVENING + 3600);
  }

  // ----- every command exactly once -----

  lemma DueMore(list: seq<TimerCommand>, c: TimerCommand, hour: nat, minute: nat)
    ensures Due(list + [c], hour, minute) ==
      if c.hour == hour && c.minute == minute then Due(list, hour, minute) + [c] else Due(list, hour, minute)
  {
    assert (list + [c])[..|list|] == list;
  }

  lemma {:induction false} DueCounts(list: seq<TimerCommand>, hour: nat, minute: nat, c: TimerCommand)
    ensures multiset(Due(list, hour, minute))[c] ==
      if c.hour == hour && c.minute == minute then multiset(list)[c] else 0
  {
    hide Due;
    if |list| == 0 {
      NothingDue(hour, minute);
    } else {
      var front, last := list[..|list| - 1], list[|list| - 1];
      DueCounts(front, hour, minute, c);
      DueMore(front, last, hour, minute);
      assert list == front + [last];
    }
  }

  lemma NothingDue(hour: nat, minute: nat)
    ensures Due([], hour, minute) == []
  {
  }

  /** Between two moments of different days at the same time of day there is a 23:59. */
  lemma NightBetween(m: nat, n: nat) returns (night: nat)
    requires m < n && OfDay(m) == OfDay(n) != LAST
    ensures m < night < n && OfDay(night) == LAST
  {
    night := m / 1440 * 1440 + LAST;
    assert m == m / 1440 * 1440 + m % 1440 && n == n / 1440 * 1440 + n % 1440;
    assert n >= m + 1440;
  }

  lemma DayEndsBetween(events: seq<Event>, i: nat, j: nat) returns (m: nat)
    requires Steady(TickTimes(events)) && i < j < |events| && events[i].Tick? && events[j].Tick?
    requires events[i].time / 60 != events[j].time / 60
    requires OfDay(events[i].time / 60) == OfDay(events[j].time / 60) != LAST
    ensures i < m < j && EndsDay(events, m)
  {
    hide Run, Hour, Minute, OfDay;
    TimesGrow(events, i, j);
    var night := NightBetween(events[i].time / 60, events[j].time / 60);
    m := MinuteIsSeen(events, i, j, night);
    ClockOf(events[m].time);
  }

  /** Two executions of one schedule are never at the same time of day. */
  lemma OneExecution(events: seq<Event>, g: nat, k: nat, i: nat, j: nat)
    requires Steady(TickTimes(events)) && k <= |events| && Current(events, g, k)
    requires g < i < j < k && Executes(events, i) && Executes(events, j)
    requires events[i].Tick? && events[j].Tick?
    ensures OfDay(events[i].time / 60) != OfDay(events[j].time / 60)
  {
    hide Run, Hour, Minute, OfDay;
    ExecutesIff(events, i);
    ExecutesIff(events, j);
    ClockOf(events[i].time);
    ClockOf(events[j].time);
    if events[i].time / 60 == events[j].time / 60 {
      ProcessedIsFirst(events, i, j);
    } else if OfDay(events[i].time / 60) == OfDay(events[j].time / 60) {
      var m := DayEndsBetween(events, i, j);
    }
  }

  /** In a steady run every minute behind the acceptance of a schedule, except 23:59, is executed exactly once as long
      as the schedule is current: one tick sends the commands of this minute, and no other tick behind the acceptance
      executes at the same time of day. */
  lemma SentExactlyOnce(events: seq<Event>, g: nat, a: nat, k: nat, i: nat, l: nat, minute: nat) returns (j: nat)
    requires Steady(TickTimes(events)) && k <= |events| && AcceptedSince(events, g, a, k)
    requires i < l < k && a < l && events[i].Tick? && events[l].Tick?
    requires events[i].time / 60 < minute <= events[l].time / 60 && OfDay(minute) != LAST
    requires forall m: nat :: m < a && events[m].Tick? ==> events[m].time / 60 < minute
    ensures a < j <= l && events[j].Tick? && events[j].time / 60 == minute && Executes(events, j)
    ensures !events[g].AcceptButton? && !events[g].ToggleSending?
    ensures Run(events[..j + 1]).executed == Run(events[..j]).executed + [SentAt(events[g].prepared, events[j].time)]
    ensures forall n: nat :: a < n < k && n != j && Executes(events, n) ==>
      events[n].Tick? && OfDay(events[n].time / 60) != OfDay(minute)
  {
    hide Run, Hour, Minute, OfDay, SentAt, Generates;
    j := MinuteIsSeen(events, i, l, minute);
    ClockOf(events[j].time);
    assert AcceptedSince(events, g, a, j);
    ExecutesIff(events, j);
    ExecutedList(events, j);
    ListStays(events, g, j);
    forall n: nat | a < n < k && n != j && Executes(events, n)
      ensures events[n].Tick? && OfDay(events[n].time / 60) != OfDay(minute)
    {
      ExecutesIff(events, n);
      if n < j {
        OneExecution(events, g, k, n, j);
      } else {
        OneExecution(events, g, k, j, n);
      }
    }
  }

  /** So each command of the schedule whose time comes behind the acceptance is sent by one tick, as often as it stands
      in the list, and by no other tick while the schedule is current. */
  lemma CommandIsSentOnce(events: seq<Event>, g: nat, a: nat, k: nat, i: nat, l: nat, minute: nat, c: TimerCommand)
    returns (j: nat)
    requires Steady(TickTimes(events)) && k <= |events| && AcceptedSince(events, g, a, k)
    requires i < l < k && a < l && events[i].Tick? && events[l].Tick?
    requires events[i].time / 60 < minute <= events[l].time / 60 && OfDay(minute) != LAST
    requires forall m: nat :: m < a && events[m].Tick? ==> events[m].time / 60 < minute
    requires c.hour == OfDay(minute) / 60 && c.minute == OfDay(minute) % 60
    ensures a < j <= l && Executes(events, j)
    ensures !events[g].AcceptButton? && !events[g].ToggleSending?
    ensures multiset(SentBy(events, j))[c] == multiset(events[g].prepared)[c]
    ensures forall n: nat :: a < n < k && n != j && Executes(events, n) ==> c !in SentBy(events, n)
  {
    hide Run, Hour, Minute, OfDay, Generates, Executes;
    j := SentExactlyOnce(events, g, a, k, i, l, minute);
    ClockOf(events[j].time);
    DueCounts(events[g].prepared, Hour(events[j].time), Minute(events[j].time), c);
    forall n: nat | a < n < k && n != j && Executes(events, n)
      ensures c !in SentBy(events, n)
    {
      ExecutedList(events, n);
      ClockOf(events[n].time);
      DueCounts(Run(events[..n]).list, Hour(events[n].time), Minute(events[n].time), c);
      DifferentClock(OfDay(events[n].time / 60), OfDay(minute));
    }
  }

  lemma DifferentClock(x: nat, y: nat)
    requires x != y
    ensures x / 60 != y / 60 || x % 60 != y % 60
  {
    assert x == 60 * (x / 60) + x % 60 && y == 60 * (y / 60) + y % 60;
  }

  /** What an executing tick sends. */
  function SentBy(events: seq<Event>, k: nat): seq<TimerCommand>
    requires k < |events| && Executes(events, k)
  {
    var executed := Run(events[..k + 1]).executed;
    executed[|executed| - 1].sent
  }
}
