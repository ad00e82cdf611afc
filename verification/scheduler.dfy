/** The five-second tick and the buttons that decide when the commands of the day are carried out. */
module Scheduler {
  datatype TimerCommand = TimerCommand(device: int, hour: int, minute: int)

  /** Local time in seconds. */
  function Hour(time: nat): nat { time / 3600 % 24 }

  function Minute(time: nat): nat { time / 60 % 60 }

  predicate LastMinute(time: nat) { Hour(time) == 23 && Minute(time) == 59 }

  predicate FirstMinute(time: nat) { Hour(time) == 0 && Minute(time) == 0 }

  /** `ok` tells whether a preparation of the list would succeed, `prepared` what it would put there. */
  datatype Event =
    | Tick(time: nat, prepared: seq<TimerCommand>, ok: bool)
    | AcceptButton
    | GenerateButton(prepared: seq<TimerCommand>, ok: bool)
    | ToggleSending

  /** The commands sent by one tick, in list order. */
  datatype Execution = Execution(time: nat, sent: seq<TimerCommand>)

  /** The commands of the list for this hour and minute. */
  function Due(list: seq<TimerCommand>, hour: nat, minute: nat): seq<TimerCommand> {
    if |list| == 0 then []
    else
      var last := list[|list| - 1];
      Due(list[..|list| - 1], hour, minute) + if last.hour == hour && last.minute == minute then [last] else []
  }

  function SentAt(list: seq<TimerCommand>, time: nat): Execution {
    Execution(time, Due(list, Hour(time), Minute(time)))
  }

  datatype State = State(
    minuteTick: nat,
    hourTick: nat,
    created: bool,
    accepted: bool,
    sendingDisabled: bool,
    list: seq<TimerCommand>,
    executed: seq<Execution>,
    clocksSet: seq<nat>)

  const START_STATE := State(0, 0, false, false, true, [], [], [])

  /** A new list that nobody has accepted yet. A preparation can only fail before it touches anything. */
  function Generated(s: State, prepared: seq<TimerCommand>, ok: bool): State {
    if ok then s.(list := prepared, created := true, accepted := false) else s
  }

  function SetClocks(s: State, time: nat): State {
    if !s.sendingDisabled && s.hourTick != Hour(time) then s.(hourTick := Hour(time), clocksSet := s.clocksSet + [time])
    else s
  }

  function Cleaned(s: State, time: nat): State {
    if LastMinute(time) && s.created then s.(created := false, accepted := false) else s
  }

  function Renewed(s: State, e: Event): State
    requires e.Tick?
  {
    if FirstMinute(e.time) && !s.created then Generated(s, e.prepared, e.ok) else s
  }

  function Executed(s: State, time: nat): State {
    if s.created && s.accepted then s.(executed := s.executed + [SentAt(s.list, time)]) else s
  }

  /** One tick: once an hour set the clocks, once a minute clean, renew and execute. */
  function Ticked(s: State, e: Event): State
    requires e.Tick?
  {
    var c := SetClocks(s, e.time);
    if c.minuteTick == Minute(e.time) then c
    else Executed(Renewed(Cleaned(c.(minuteTick := Minute(e.time)), e.time), e), e.time)
  }

  function Next(s: State, e: Event): State {
    match e
    case Tick(_, _, _) => Ticked(s, e)
    case AcceptButton => s.(accepted := true)
    case GenerateButton(prepared, ok) => Generated(s, prepared, ok)
    case ToggleSending => s.(sendingDisabled := !s.sendingDisabled)
  }

  function Run(events: seq<Event>): State {
    if |events| == 0 then START_STATE else Next(Run(events[..|events| - 1]), events[|events| - 1])
  }

  // ----- what the events of a run do -----

  /** Event k is a tick that sees a new minute. */
  predicate Processed(events: seq<Event>, k: nat)
    requires k < |events|
  {
    events[k].Tick? && Run(events[..k]).minuteTick != Minute(events[k].time)
  }

  /** Event k is the first tick of the last minute of a day. */
  predicate EndsDay(events: seq<Event>, k: nat)
    requires k < |events|
  {
    Processed(events, k) && LastMinute(events[k].time)
  }

  /** Event k makes a new schedule, by the button or in the first minute of a day. */
  predicate Generates(events: seq<Event>, k: nat)
    requires k < |events|
  {
    || (events[k].GenerateButton? && events[k].ok)
    || (Processed(events, k) && FirstMinute(events[k].time) && !Run(events[..k]).created && events[k].ok)
  }

  predicate Executes(events: seq<Event>, k: nat)
    requires k < |events|
  {
    |Run(events[..k + 1]).executed| > |Run(events[..k]).executed|
  }

  /** The schedule made at g is still the current one at k: no day ended and no other was made. */
  predicate Current(events: seq<Event>, g: nat, k: nat)
    requires k <= |events|
  {
    g < k && Generates(events, g) && forall j :: g < j < k ==> !EndsDay(events, j) && !Generates(events, j)
  }

  /** The schedule made at g is still current at k, and has been accepted at a. */
  predicate AcceptedSince(events: seq<Event>, g: nat, a: nat, k: nat)
    requires k <= |events|
  {
    Current(events, g, k) && g < a < k && events[a].AcceptButton?
  }

  lemma OneStep(events: seq<Event>, k: nat)
    requires k < |events|
    ensures Run(events[..k + 1]) == Next(Run(events[..k]), events[k])
  {
    assert events[..k + 1][..k] == events[..k];
  }

  lemma NotBoth(time: nat)
    ensures !(LastMinute(time) && FirstMinute(time))
  {
  }

  /** How the two flags change. */
  lemma FlagsAfter(events: seq<Event>, k: nat)
    requires k < |events|
    ensures var s := Run(events[..k]);
      var t := Run(events[..k + 1]);
      && t.created == (Generates(events, k) || (s.created && !EndsDay(events, k)))
      && (t.created && t.accepted <==>
            t.created && !Generates(events, k) && (s.accepted || events[k].AcceptButton?))
      && (Executes(events, k) <==> Processed(events, k) && t.created && t.accepted)
  {
    hide Run, Hour, Minute, LastMinute, FirstMinute;
    OneStep(events, k);
    if events[k].Tick? {
      NotBoth(events[k].time);
    }
  }

  lemma CurrentStep(events: seq<Event>, g: nat, k: nat)
    requires k < |events|
    ensures Current(events, g, k) ==> g < k
    ensures Current(events, g, k + 1) <==>
      (g == k && Generates(events, k)) || (Current(events, g, k) && !EndsDay(events, k) && !Generates(events, k))
  {
    hide Generates, EndsDay;
  }

  lemma {:induction false} CreatedIff(events: seq<Event>, k: nat)
    requires k <= |events|
    ensures Run(events[..k]).created <==> exists g: nat :: Current(events, g, k)
  {
    hide Run, Generates, EndsDay, Current;
    if k == 0 {
      BeforeAll(events);
    } else {
      var before := k - 1;
      CreatedIff(events, before);
      FlagsAfter(events, before);
      forall g: nat
        ensures Current(events, g, k) <==>
          ((g == k - 1 && Generates(events, k - 1))
           || (Current(events, g, k - 1) && !EndsDay(events, k - 1) && !Generates(events, k - 1)))
      {
        CurrentStep(events, g, k - 1);
      }
      if Generates(events, k - 1) {
        assert Current(events, k - 1, k);
      } else if exists g: nat :: Current(events, g, before) {
        var g: nat :| Current(events, g, before);
        assert Current(events, g, k) <==> !EndsDay(events, before);
      }
    }
  }

  lemma BeforeAll(events: seq<Event>)
    ensures !Run(events[..0]).created && !Run(events[..0]).accepted
    ensures forall g: nat :: !Current(events, g, 0)
  {
  }

  lemma {:induction false} AcceptedIff(events: seq<Event>, k: nat)
    requires k <= |events|
    ensures Run(events[..k]).created && Run(events[..k]).accepted
      <==> exists g: nat, a: nat :: AcceptedSince(events, g, a, k)
  {
    hide Run, Generates, EndsDay, Current;
    if k == 0 {
      BeforeAll(events);
    } else {
      AcceptedIff(events, k - 1);
      CreatedIff(events, k - 1);
      FlagsAfter(events, k - 1);
      if Run(events[..k]).created && Run(events[..k]).accepted {
        if events[k - 1].AcceptButton? {
          var g: nat :| Current(events, g, k - 1);
          CurrentStep(events, g, k - 1);
          assert AcceptedSince(events, g, k - 1, k);
        } else {
          var g: nat, a: nat :| AcceptedSince(events, g, a, k - 1);
          CurrentStep(events, g, k - 1);
          assert AcceptedSince(events, g, a, k);
        }
      }
      forall g: nat, a: nat | AcceptedSince(events, g, a, k)
        ensures Run(events[..k]).created && Run(events[..k]).accepted
      {
        CurrentStep(events, g, k - 1);
        if a < k - 1 {
          assert AcceptedSince(events, g, a, k - 1);
        }
      }
    }
  }

  /** Commands are executed exactly by the ticks that see a new minute, other than the last of the day, while the
      latest schedule has been accepted: made, then accepted, and since it was made no day ended and
      no other was made. */
  lemma ExecutesIff(events: seq<Event>, k: nat)
    requires k < |events|
    ensures Executes(events, k) <==>
      && Processed(events, k) && !EndsDay(events, k)
      && exists g: nat, a: nat :: AcceptedSince(events, g, a, k)
  {
    FlagsAfter(events, k);
    AcceptedIff(events, k);
    if Processed(events, k) && Generates(events, k) {
      assert !Run(events[..k]).created;
    }
    hide Run, EndsDay, AcceptedSince;
  }

  /** Commands of the last minute of the day are never executed. */
  lemma {:induction false} NeverInTheLastMinute(events: seq<Event>)
    ensures forall i :: 0 <= i < |Run(events).executed| ==> !LastMinute(Run(events).executed[i].time)
  {
    hide Hour, Minute, Due;
    if |events| > 0 {
      NeverInTheLastMinute(events[..|events| - 1]);
    }
  }

  /** The list is the one its current schedule was made with. */
  lemma {:induction false} ListStays(events: seq<Event>, g: nat, k: nat)
    requires k <= |events| && Current(events, g, k)
    ensures !events[g].AcceptButton? && !events[g].ToggleSending? && Run(events[..k]).list == events[g].prepared
  {
    hide Run, Hour, Minute, LastMinute, FirstMinute;
    OneStep(events, k - 1);
    if g < k - 1 {
      CurrentStep(events, g, k - 1);
      ListStays(events, g, k - 1);
      CreatedIff(events, k - 1);
    }
  }

  lemma ExecutedList(events: seq<Event>, k: nat)
    requires k < |events| && Executes(events, k)
    ensures var s, t := Run(events[..k]), Run(events[..k + 1]);
      events[k].Tick? && t.list == s.list && t.executed == s.executed + [SentAt(s.list, events[k].time)]
  {
    hide Run, Hour, Minute, SentAt;
    OneStep(events, k);
  }

  /** What is sent are the due commands of a list that was made at one event and accepted at a later one, with no other
      list made and no end of a day seen in between or since. */
  lemma ExecutesWhatWasAccepted(events: seq<Event>, k: nat) returns (g: nat, a: nat)
    requires k < |events| && Executes(events, k)
    ensures AcceptedSince(events, g, a, k) && !events[g].AcceptButton? && !events[g].ToggleSending?
    ensures events[k].Tick?
    ensures Run(events[..k + 1]).executed == Run(events[..k]).executed + [SentAt(events[g].prepared, events[k].time)]
  {
    hide Run, Hour, Minute, LastMinute, FirstMinute, Current;
    ExecutesIff(events, k);
    ExecutedList(events, k);
    g, a :| AcceptedSince(events, g, a, k);
    ListStays(events, g, k);
  }

  // ----- every minute once -----

  function TickTimes(events: seq<Event>): seq<nat> {
    if |events| == 0 then []
    else
      var last := events[|events| - 1];
      TickTimes(events[..|events| - 1]) + if last.Tick? then [last.time] else []
  }

  /** The minutes, counted from the beginning of time, that were seen as new. */
  function Minutes(events: seq<Event>): seq<nat> {
    if |events| == 0 then []
    else
      var before, last := events[..|events| - 1], events[|events| - 1];
      Minutes(before) + if last.Tick? && Run(before).minuteTick != Minute(last.time) then [last.time / 60] else []
  }

  /** Clock gaps of less than a minute, and no step back. */
  predicate Steady(times: seq<nat>) {
    forall i :: 0 <= i < |times| - 1 ==> times[i] <= times[i + 1] < times[i] + 60
  }

  function Range(from: nat, to: nat): seq<nat> {
    if to <= from then [] else Range(from, to - 1) + [to - 1]
  }

  /** The first minute that is seen as new; a start in the first minute of an hour is not. */
  function FirstSeen(time: nat): nat {
    if Minute(time) == 0 then time / 60 + 1 else time / 60
  }

  lemma NextMinute(a: nat, b: nat)
    requires a <= b < a + 60
    ensures b / 60 == a / 60 || b / 60 == a / 60 + 1
    ensures Minute(a) != Minute(b) <==> b / 60 == a / 60 + 1
  {
  }

  lemma {:induction false} TickIsLast(events: seq<Event>)
    ensures var times := TickTimes(events);
      Run(events).minuteTick == if |times| == 0 then 0 else Minute(times[|times| - 1])
  {
    hide Hour, Minute, LastMinute, FirstMinute;
    if |events| > 0 {
      TickIsLast(events[..|events| - 1]);
    }
  }

  /** Ticks less than a minute apart see every minute exactly once, in order, none skipped and none repeated. */
  lemma {:induction false} MinutesAreConsecutive(events: seq<Event>)
    requires Steady(TickTimes(events)) && |TickTimes(events)| > 0
    ensures var times := TickTimes(events);
      Minutes(events) == Range(FirstSeen(times[0]), times[|times| - 1] / 60 + 1)
  {
    hide Run, Minute, Steady, Range, FirstSeen, Minutes;
    var before, last := events[..|events| - 1], events[|events| - 1];
    var times, earlier := TickTimes(events), TickTimes(before);
    MinutesStep(events);
    if !last.Tick? {
      assert times == earlier;
      MinutesAreConsecutive(before);
    } else if |earlier| == 0 {
      NoTicksNoMinutes(before);
      FirstTickSeen(last.time);
      assert times == [last.time];
    } else {
      SteadyFront(earlier, last.time);
      assert times == earlier + [last.time];
      MinutesAreConsecutive(before);
      NextMinute(earlier[|earlier| - 1], last.time);
      SeenSoon(earlier, |earlier| - 1);
      FirstSeenSoon(times[0], earlier[|earlier| - 1]);
      RangeMore(FirstSeen(times[0]), earlier[|earlier| - 1] / 60 + 1);
    }
  }

  /** What the last event of a run adds to the minutes seen. */
  lemma MinutesStep(events: seq<Event>)
    requires |events| > 0
    ensures var before, last := events[..|events| - 1], events[|events| - 1];
      var earlier := TickTimes(before);
      Minutes(events) ==
        if last.Tick? && (if |earlier| == 0 then 0 else Minute(earlier[|earlier| - 1])) != Minute(last.time)
        then Minutes(before) + [last.time / 60] else Minutes(before)
  {
    hide Run, Minute;
    TickIsLast(events[..|events| - 1]);
  }

  lemma FirstTickSeen(time: nat)
    ensures Range(FirstSeen(time), time / 60 + 1) == if Minute(time) != 0 then [time / 60] else []
  {
    if Minute(time) != 0 {
      RangeMore(time / 60, time / 60);
      assert Range(time / 60, time / 60) == [];
    }
  }

  lemma RangeMore(from: nat, to: nat)
    requires from <= to
    ensures Range(from, to + 1) == Range(from, to) + [to]
  {
  }

  lemma SteadyFront(times: seq<nat>, time: nat)
    requires Steady(times + [time]) && |times| > 0
    ensures Steady(times) && times[|times| - 1] <= time < times[|times| - 1] + 60
  {
    var all := times + [time];
    forall i | 0 <= i < |times| - 1
      ensures times[i] <= times[i + 1] < times[i] + 60
    {
      assert all[i] <= all[i + 1] < all[i] + 60;
    }
    assert all[|times| - 1] <= all[|times| - 1 + 1] < all[|times| - 1] + 60;
  }

  lemma FirstSeenSoon(first: nat, time: nat)
    requires first <= time
    ensures FirstSeen(first) <= time / 60 + 1
  {
  }

  lemma {:induction false} SeenSoon(times: seq<nat>, i: nat)
    requires Steady(times) && i < |times|
    ensures times[0] <= times[i]
  {
    if i > 0 {
      SeenSoon(times, i - 1);
    }
  }

  lemma {:induction false} NoTicksNoMinutes(events: seq<Event>)
    requires TickTimes(events) == []
    ensures Minutes(events) == []
  {
    if |events| > 0 {
      NoTicksNoMinutes(events[..|events| - 1]);
    }
  }

  // ----- the program -----

  class TimerCommandContainer {
    var wasCreatedInThisDay: bool
    var timerCommandsAccepted: bool
    var commands: seq<TimerCommand>

    constructor ()
      ensures !wasCreatedInThisDay && !timerCommandsAccepted && commands == []
    {
      wasCreatedInThisDay, timerCommandsAccepted := false, false;
      commands := [];
    }
  }

  class PulseCatcher {
    const timerCommands: TimerCommandContainer
    var minuteTick: nat
    var hourTick: nat
    var sendingDisabled: bool
    var executed: seq<Execution>
    var clocksSet: seq<nat>

    function View(): State
      reads this, timerCommands
    {
      State(minuteTick, hourTick, timerCommands.wasCreatedInThisDay, timerCommands.timerCommandsAccepted,
            sendingDisabled, timerCommands.commands, executed, clocksSet)
    }

    constructor ()
      ensures fresh(timerCommands) && View() == START_STATE
    {
      timerCommands := new TimerCommandContainer();
      minuteTick, hourTick, sendingDisabled := 0, 0, true;
      executed, clocksSet := [], [];
    }

    /** A preparation of the list, by a tick or by the button. */
    method Generate(prepared: seq<TimerCommand>, ok: bool)
      modifies timerCommands
      ensures View() == Generated(old(View()), prepared, ok)
    {
      if ok {
        timerCommands.commands := prepared;
        timerCommands.wasCreatedInThisDay := true;
        timerCommands.timerCommandsAccepted := false;
      }
    }

    method TimerPulse(time: nat, prepared: seq<TimerCommand>, ok: bool)
      modifies this, timerCommands
      ensures View() == Ticked(old(View()), Tick(time, prepared, ok))
    {
      hide Hour, Minute;
      var hour, minute := Hour(time), Minute(time);
      if !sendingDisabled && hourTick != hour {
        hourTick := hour;
        clocksSet := clocksSet + [time];
      }
      if minuteTick != minute {
        minuteTick := minute;
        if hour == 23 && minute == 59 && timerCommands.wasCreatedInThisDay {
          timerCommands.wasCreatedInThisDay := false;
          timerCommands.timerCommandsAccepted := false;
        }
        if hour == 0 && minute == 0 && !timerCommands.wasCreatedInThisDay {
          Generate(prepared, ok);
        }
        if timerCommands.wasCreatedInThisDay && timerCommands.timerCommandsAccepted {
          var sent := ExecuteTimerCommands(hour, minute);
          executed := executed + [Execution(time, sent)];
        }
      }
    }

    /** Goes through the list and sends the commands of this hour and minute. */
    method ExecuteTimerCommands(hour: nat, minute: nat) returns (sent: seq<TimerCommand>)
      ensures sent == Due(timerCommands.commands, hour, minute)
    {
      var list := timerCommands.commands;
      sent := [];
      var i := 0;
      while i < |list|
        invariant 0 <= i <= |list|
        invariant sent == Due(list[..i], hour, minute)
      {
        assert list[..i + 1][..i] == list[..i];
        if list[i].hour == hour && list[i].minute == minute {
          sent := sent + [list[i]];
        }
        i := i + 1;
      }
      assert list[..i] == list;
    }

    method Accept()
      modifies timerCommands
      ensures View() == Next(old(View()), AcceptButton)
    {
      timerCommands.timerCommandsAccepted := true;
    }

    method Press(prepared: seq<TimerCommand>, ok: bool)
      modifies timerCommands
      ensures View() == Next(old(View()), GenerateButton(prepared, ok))
    {
      Generate(prepared, ok);
    }
  }
}
