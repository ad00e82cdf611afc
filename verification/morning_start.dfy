/** The morning start of the escalators: the list made from their settings, and its execution minute by minute. */
module MorningStart {
  const START_DAY_MODE_EVERYDAY := 0
  const START_DAY_MODE_NEVER := 1
  const START_DAY_MODE_EVEN := 2
  const START_DAY_MODE_ODD := 3
  const DIRECTION_UP := 1
  const DIRECTION_DOWN := 2
  const COMMAND_UP := 0xE0
  const COMMAND_DOWN := 0xE1
  const MINUTES := 1440

  datatype Escalator = Escalator(
    id: int, enabled: bool, start_day_mode: int, pref_direction: int, direction: int,
    start_hour: int, start_minute: int)

  datatype Start = Start(
    id: int, pref_direction: int, direction: int, hour: int, minute: int, mode: int, enabled: bool)

  predicate Moves(direction: int) { direction == DIRECTION_UP || direction == DIRECTION_DOWN }

  function DayMode(day: nat): int {
    if day % 2 == 0 then START_DAY_MODE_EVEN else START_DAY_MODE_ODD
  }

  /** The mode allows a start on this day of the month. */
  predicate StartsOn(mode: int, day: nat) {
    mode != START_DAY_MODE_NEVER && (mode == START_DAY_MODE_EVERYDAY || mode == DayMode(day))
  }

  function StartOf(e: Escalator, day: nat): Start {
    Start(e.id, e.pref_direction, e.direction, e.start_hour, e.start_minute, e.start_day_mode,
          StartsOn(e.start_day_mode, day) && (Moves(e.pref_direction) || Moves(e.direction)))
  }

  /** One entry for each id that belongs to an enabled escalator. */
  function Made(escalators: map<int, Escalator>, ids: seq<int>, day: nat): seq<Start> {
    if |ids| == 0 then []
    else
      var id := ids[|ids| - 1];
      Made(escalators, ids[..|ids| - 1], day)
      + if id in escalators && escalators[id].enabled then [StartOf(escalators[id], day)] else []
  }

  function Enabled(s: seq<Start>): seq<Start> {
    if |s| == 0 then [] else Enabled(s[..|s| - 1]) + if s[|s| - 1].enabled then [s[|s| - 1]] else []
  }

  function Disabled(s: seq<Start>): seq<Start> {
    if |s| == 0 then [] else Disabled(s[..|s| - 1]) + if s[|s| - 1].enabled then [] else [s[|s| - 1]]
  }

  lemma EnabledMore(s: seq<Start>, e: Start)
    ensures Enabled(s + [e]) == if e.enabled then Enabled(s) + [e] else Enabled(s)
    ensures Disabled(s + [e]) == if e.enabled then Disabled(s) else Disabled(s) + [e]
  {
    assert (s + [e])[..|s|] == s;
  }

  lemma NoParts()
    ensures Enabled([]) == Disabled([]) == []
  {
  }

  lemma {:induction false} PartsMakeWhole(s: seq<Start>)
    ensures multiset(Enabled(s)) + multiset(Disabled(s)) == multiset(s)
  {
    hide Enabled, Disabled;
    if |s| == 0 {
      NoParts();
    } else {
      var front, last := s[..|s| - 1], s[|s| - 1];
      PartsMakeWhole(front);
      EnabledMore(front, last);
      assert s == front + [last];
    }
  }

  lemma {:induction false} PartsAreApart(s: seq<Start>)
    ensures forall i :: 0 <= i < |Enabled(s)| ==> Enabled(s)[i].enabled
    ensures forall i :: 0 <= i < |Disabled(s)| ==> !Disabled(s)[i].enabled
  {
    if |s| > 0 {
      PartsAreApart(s[..|s| - 1]);
    }
  }

  // ----- commands -----

  datatype Command = Command(id: int, code: int)

  /** The command that starting an entry sends; the direction counts, not the preferred one. */
  function CommandOf(escalators: map<int, Escalator>, s: Start): seq<Command> {
    if s.id !in escalators then []
    else if s.direction == DIRECTION_UP then [Command(s.id, COMMAND_UP)]
    else if s.direction == DIRECTION_DOWN then [Command(s.id, COMMAND_DOWN)]
    else []
  }

  function CommandsAt(escalators: map<int, Escalator>, visible: seq<Start>, hour: int, minute: int): seq<Command> {
    if |visible| == 0 then []
    else
      var last := visible[|visible| - 1];
      CommandsAt(escalators, visible[..|visible| - 1], hour, minute)
      + if last.hour == hour && last.minute == minute then CommandOf(escalators, last) else []
  }

  /** The first n minutes of a day. */
  function CommandsOfMinutes(escalators: map<int, Escalator>, visible: seq<Start>, n: nat): seq<Command> {
    if n == 0 then []
    else CommandsOfMinutes(escalators, visible, n - 1) + CommandsAt(escalators, visible, (n - 1) / 60, (n - 1) % 60)
  }

  predicate InDay(s: Start) { 0 <= s.hour < 24 && 0 <= s.minute < 60 }

  /** One command for each entry with a time in the day, a known escalator and a direction. */
  function AllCommands(escalators: map<int, Escalator>, visible: seq<Start>): seq<Command> {
    if |visible| == 0 then []
    else
      var last := visible[|visible| - 1];
      AllCommands(escalators, visible[..|visible| - 1]) + if InDay(last) then CommandOf(escalators, last) else []
  }

  lemma CommandsAtMore(escalators: map<int, Escalator>, visible: seq<Start>, s: Start, hour: int, minute: int)
    ensures CommandsAt(escalators, visible + [s], hour, minute) ==
      CommandsAt(escalators, visible, hour, minute)
      + if s.hour == hour && s.minute == minute then CommandOf(escalators, s) else []
  {
    assert (visible + [s])[..|visible|] == visible;
  }

  function MinuteOf(s: Start): int { s.hour * 60 + s.minute }

  lemma MinuteDecides(s: Start, m: nat)
    ensures s.hour == m / 60 && s.minute == m % 60 <==> MinuteOf(s) == m && 0 <= s.minute < 60
  {
  }

  lemma InDayIff(s: Start)
    requires 0 <= s.minute < 60
    ensures InDay(s) <==> 0 <= MinuteOf(s) < MINUTES
  {
  }

  lemma {:induction false} OneMoreEntry(escalators: map<int, Escalator>, visible: seq<Start>, s: Start, n: nat)
    ensures multiset(CommandsOfMinutes(escalators, visible + [s], n)) ==
      multiset(CommandsOfMinutes(escalators, visible, n))
      + if 0 <= s.minute < 60 && 0 <= MinuteOf(s) < n then multiset(CommandOf(escalators, s)) else multiset{}
  {
    hide CommandOf, CommandsAt, MinuteOf, CommandsOfMinutes;
    if n == 0 {
      NoMinutes(escalators, visible);
      NoMinutes(escalators, visible + [s]);
    } else {
      var m := n - 1;
      OneMoreEntry(escalators, visible, s, m);
      CommandsAtMore(escalators, visible, s, m / 60, m % 60);
      MinuteDecides(s, m);
      OneMoreMinute(escalators, visible, n);
      OneMoreMinute(escalators, visible + [s], n);
    }
  }

  lemma NoMinutes(escalators: map<int, Escalator>, visible: seq<Start>)
    ensures CommandsOfMinutes(escalators, visible, 0) == []
  {
  }

  lemma OneMoreMinute(escalators: map<int, Escalator>, visible: seq<Start>, n: nat)
    requires n > 0
    ensures multiset(CommandsOfMinutes(escalators, visible, n)) ==
      multiset(CommandsOfMinutes(escalators, visible, n - 1))
      + multiset(CommandsAt(escalators, visible, (n - 1) / 60, (n - 1) % 60))
  {
    hide CommandsAt;
  }

  lemma AllCommandsMore(escalators: map<int, Escalator>, visible: seq<Start>, s: Start)
    ensures multiset(AllCommands(escalators, visible + [s])) == multiset(AllCommands(escalators, visible))
      + if InDay(s) then multiset(CommandOf(escalators, s)) else multiset{}
  {
    hide CommandOf, InDay;
    assert (visible + [s])[..|visible|] == visible;
  }

  lemma InDayAnyway(s: Start)
    ensures InDay(s) <==> 0 <= s.minute < 60 && 0 <= MinuteOf(s) < MINUTES
  {
    if 0 <= s.minute < 60 {
      InDayIff(s);
    }
  }

  /** Executing every minute of a day once sends each due command once and no other. */
  lemma {:induction false} EveryMinuteOnce(escalators: map<int, Escalator>, visible: seq<Start>)
    ensures multiset(CommandsOfMinutes(escalators, visible, MINUTES)) == multiset(AllCommands(escalators, visible))
  {
    hide CommandOf, CommandsOfMinutes, AllCommands, InDay, MinuteOf;
    if |visible| == 0 {
      NothingToDo(escalators, MINUTES);
      NoCommands(escalators);
    } else {
      var front, last := visible[..|visible| - 1], visible[|visible| - 1];
      EveryMinuteOnce(escalators, front);
      OneMoreEntry(escalators, front, last, MINUTES);
      AllCommandsMore(escalators, front, last);
      InDayAnyway(last);
      assert visible == front + [last];
    }
  }

  lemma NoCommands(escalators: map<int, Escalator>)
    ensures AllCommands(escalators, []) == []
  {
  }

  lemma {:induction false} NothingToDo(escalators: map<int, Escalator>, n: nat)
    ensures CommandsOfMinutes(escalators, [], n) == []
  {
    if n > 0 {
      NothingToDo(escalators, n - 1);
    }
  }

  // ----- the order of the list does not matter -----

  lemma {:induction false} CommandsAppend(escalators: map<int, Escalator>, a: seq<Start>, b: seq<Start>)
    ensures AllCommands(escalators, a + b) == AllCommands(escalators, a) + AllCommands(escalators, b)
  {
    hide CommandOf, InDay;
    if |b| == 0 {
      assert a + b == a;
    } else {
      assert (a + b)[..|a| + |b| - 1] == a + b[..|b| - 1];
      CommandsAppend(escalators, a, b[..|b| - 1]);
    }
  }

  lemma MiddleOut<T>(a: seq<T>, x: seq<T>, b: seq<T>)
    ensures multiset(a + x + b) == multiset(a + b) + multiset(x)
  {
  }

  lemma CancelOne<T>(a: seq<T>, x: T, b: seq<T>)
    requires multiset(a + [x]) == multiset(b) + multiset([x])
    ensures multiset(a) == multiset(b)
  {
    assert multiset(a) == multiset(a + [x]) - multiset([x]);
  }

  lemma {:induction false} OrderDoesNotMatter(escalators: map<int, Escalator>, s: seq<Start>, t: seq<Start>)
    requires multiset(s) == multiset(t)
    ensures multiset(AllCommands(escalators, s)) == multiset(AllCommands(escalators, t))
  {
    hide AllCommands;
    if |s| == 0 {
      assert |multiset(t)| == 0;
      assert s == t;
    } else {
      var front, x := s[..|s| - 1], s[|s| - 1];
      assert s == front + [x];
      assert x in multiset(t);
      var i :| 0 <= i < |t| && t[i] == x;
      var a, b := t[..i], t[i + 1..];
      assert t == a + [x] + b;
      MiddleOut(a, [x], b);
      CancelOne(front, x, a + b);
      OrderDoesNotMatter(escalators, front, a + b);
      CommandsAppend(escalators, front, [x]);
      CommandsAppend(escalators, a, b);
      CommandsAppend(escalators, a, [x]);
      CommandsAppend(escalators, a + [x], b);
      MiddleOut(AllCommands(escalators, a), AllCommands(escalators, [x]), AllCommands(escalators, b));
    }
  }

  /** An entry sends its one command in the course of a day exactly when its time is in the day and
      the escalator has a direction; the preferred direction does not help. */
  lemma EntrySendsIff(escalators: map<int, Escalator>, id: int, day: nat)
    requires id in escalators && escalators[id].id == id
    ensures var e := escalators[id];
      var s := StartOf(e, day);
      |AllCommands(escalators, [s])| == 1 <==> InDay(s) && Moves(e.direction)
  {
    assert [StartOf(escalators[id], day)][..0] == [];
  }

  /** An escalator that stands still but has a preferred direction is listed for a start, and is never started. */
  lemma PreferredDirectionIsNotCommanded(e: Escalator, escalators: map<int, Escalator>, day: nat)
    requires StartsOn(e.start_day_mode, day) && Moves(e.pref_direction) && !Moves(e.direction)
    ensures StartOf(e, day).enabled && CommandOf(escalators, StartOf(e, day)) == []
  {
  }

  /** The entry asks for this command in this minute. */
  predicate Asks(s: Start, id: int, code: int, hour: int, minute: int) {
    && s.id == id && s.hour == hour && s.minute == minute
    && ((code == 0xE0 && s.direction == 1) || (code == 0xE1 && s.direction == 2))
  }

  ghost predicate SomeAsks(visible: seq<Start>, id: int, code: int, hour: int, minute: int) {
    exists i :: 0 <= i < |visible| && Asks(visible[i], id, code, hour, minute)
  }

  lemma SomeAsksMore(visible: seq<Start>, s: Start, id: int, code: int, hour: int, minute: int)
    ensures SomeAsks(visible + [s], id, code, hour, minute) <==>
      SomeAsks(visible, id, code, hour, minute) || Asks(s, id, code, hour, minute)
  {
    hide Asks;
    var more := visible + [s];
    if SomeAsks(visible, id, code, hour, minute) {
      var i :| 0 <= i < |visible| && Asks(visible[i], id, code, hour, minute);
      assert Asks(more[i], id, code, hour, minute);
    }
    if Asks(s, id, code, hour, minute) {
      assert Asks(more[|visible|], id, code, hour, minute);
    }
  }

  /** Whatever the list, a minute sends exactly the commands that some shown entry asks for, to the escalators that
      are still known. */
  lemma {:induction false} CommandsAtIff(
    escalators: map<int, Escalator>, visible: seq<Start>, hour: int, minute: int, id: int, code: int)
    ensures Command(id, code) in CommandsAt(escalators, visible, hour, minute) <==>
      id in escalators && SomeAsks(visible, id, code, hour, minute)
  {
    if |visible| == 0 {
      NothingAt(escalators, hour, minute);
    } else {
      hide Asks, SomeAsks, CommandOf, CommandsAt;
      var front, last := visible[..|visible| - 1], visible[|visible| - 1];
      CommandsAtIff(escalators, front, hour, minute, id, code);
      CommandOfAsks(escalators, last, id, code, hour, minute);
      CommandsAtMore(escalators, front, last, hour, minute);
      SomeAsksMore(front, last, id, code, hour, minute);
      assert visible == front + [last];
    }
  }

  lemma CommandOfAsks(escalators: map<int, Escalator>, s: Start, id: int, code: int, hour: int, minute: int)
    ensures s.hour == hour && s.minute == minute && Command(id, code) in CommandOf(escalators, s) <==>
      id in escalators && Asks(s, id, code, hour, minute)
  {
  }

  // ----- the settings decide -----

  /** The start mode of an escalator and the day of the month: 0 is every day, 1 never, 2 the even, 3 the odd days. */
  predicate Allowed(mode: int, day: nat) {
    mode == 0 || (mode == 2 && day % 2 == 0) || (mode == 3 && day % 2 == 1)
  }

  lemma ModeDecides(mode: int, day: nat)
    ensures StartsOn(mode, day) <==> Allowed(mode, day)
  {
  }

  /** An entry of the list carries the settings of its escalator; it is shown exactly if the mode allows the day and one
      of the two directions is up (1) or down (2). */
  lemma EntryOfEscalator(e: Escalator, day: nat)
    ensures var s := StartOf(e, day);
      && s.id == e.id && s.pref_direction == e.pref_direction && s.direction == e.direction
      && s.hour == e.start_hour && s.minute == e.start_minute && s.mode == e.start_day_mode
      && (s.enabled <==> Allowed(e.start_day_mode, day) && (e.pref_direction in {1, 2} || e.direction in {1, 2}))
  {
    ModeDecides(e.start_day_mode, day);
    hide StartsOn, Allowed;
  }

  /** The settings ask for this command on this day: 0xE0 starts upwards (direction 1), 0xE1 downwards (direction 2). */
  predicate Wanted(escalators: map<int, Escalator>, id: int, code: int, day: nat) {
    && id in escalators && escalators[id].enabled && Allowed(escalators[id].start_day_mode, day)
    && ((code == 0xE0 && escalators[id].direction == 1) || (code == 0xE1 && escalators[id].direction == 2))
  }

  predicate WantedAt(escalators: map<int, Escalator>, id: int, code: int, day: nat, hour: int, minute: int) {
    && Wanted(escalators, id, code, day)
    && escalators[id].start_hour == hour && escalators[id].start_minute == minute
  }

  predicate WantedInDay(escalators: map<int, Escalator>, id: int, code: int, day: nat) {
    && Wanted(escalators, id, code, day)
    && 0 <= escalators[id].start_hour < 24 && 0 <= escalators[id].start_minute < 60
  }

  predicate Keyed(escalators: map<int, Escalator>) {
    forall id :: id in escalators ==> escalators[id].id == id
  }

  function EntryOf(escalators: map<int, Escalator>, id: int, day: nat): seq<Start> {
    if id in escalators && escalators[id].enabled then [StartOf(escalators[id], day)] else []
  }

  lemma MadeMore(escalators: map<int, Escalator>, ids: seq<int>, id: int, day: nat)
    ensures Made(escalators, ids + [id], day) == Made(escalators, ids, day) + EntryOf(escalators, id, day)
  {
    assert (ids + [id])[..|ids|] == ids;
  }

  lemma EnabledOfEntry(a: seq<Start>, escalators: map<int, Escalator>, id: int, day: nat)
    ensures Enabled(a + EntryOf(escalators, id, day)) == Enabled(a) + Enabled(EntryOf(escalators, id, day))
  {
    hide Enabled, StartOf;
    if id in escalators && escalators[id].enabled {
      var e := StartOf(escalators[id], day);
      EnabledMore(a, e);
      EnabledMore([], e);
      NoParts();
      assert [] + [e] == [e];
    } else {
      NoParts();
      assert a + [] == a;
    }
  }

  lemma {:induction false} CommandsAtAppend(
    escalators: map<int, Escalator>, a: seq<Start>, b: seq<Start>, hour: int, minute: int)
    ensures CommandsAt(escalators, a + b, hour, minute) ==
      CommandsAt(escalators, a, hour, minute) + CommandsAt(escalators, b, hour, minute)
  {
    hide CommandOf;
    if |b| == 0 {
      assert a + b == a;
    } else {
      assert (a + b)[..|a| + |b| - 1] == a + b[..|b| - 1];
      CommandsAtAppend(escalators, a, b[..|b| - 1], hour, minute);
    }
  }

  lemma OneEntry(escalators: map<int, Escalator>, s: Start, hour: int, minute: int)
    ensures Enabled([s]) == if s.enabled then [s] else []
    ensures CommandsAt(escalators, [s], hour, minute) ==
      if s.hour == hour && s.minute == minute then CommandOf(escalators, s) else []
    ensures AllCommands(escalators, [s]) == if InDay(s) then CommandOf(escalators, s) else []
  {
    hide CommandOf, InDay;
    assert [s][..0] == [];
  }

  lemma EntryCommands(escalators: map<int, Escalator>, one: int, day: nat, id: int, code: int, hour: int, minute: int)
    requires Keyed(escalators)
    ensures var s := Enabled(EntryOf(escalators, one, day));
      && multiset(CommandsAt(escalators, s, hour, minute))[Command(id, code)] ==
           (if one == id && WantedAt(escalators, id, code, day, hour, minute) then 1 else 0)
      && multiset(AllCommands(escalators, s))[Command(id, code)] ==
           (if one == id && WantedInDay(escalators, id, code, day) then 1 else 0)
  {
    hide StartsOn, Allowed, CommandOf, CommandsAt, AllCommands, Enabled, Keyed;
    NoParts();
    NothingAt(escalators, hour, minute);
    NoCommands(escalators);
    if one in escalators && escalators[one].enabled {
      var s := StartOf(escalators[one], day);
      ModeDecides(escalators[one].start_day_mode, day);
      OneEntry(escalators, s, hour, minute);
      CommandOfEntry(escalators, one, day, id, code);
    }
  }

  lemma CommandOfEntry(escalators: map<int, Escalator>, one: int, day: nat, id: int, code: int)
    requires Keyed(escalators) && one in escalators
    ensures var e := escalators[one];
      multiset(CommandOf(escalators, StartOf(e, day)))[Command(id, code)] ==
        (if one == id && ((code == 0xE0 && e.direction == 1) || (code == 0xE1 && e.direction == 2)) then 1 else 0)
  {
  }

  /** Of the list made for a day, each minute sends a command exactly as often as its id was listed, if the settings
      of its escalator ask for the command in this minute of this day, and else not at all. */
  lemma {:induction false} MinuteCommands(
    escalators: map<int, Escalator>, ids: seq<int>, day: nat, id: int, code: int, hour: int, minute: int)
    requires Keyed(escalators)
    ensures multiset(CommandsAt(escalators, Enabled(Made(escalators, ids, day)), hour, minute))[Command(id, code)] ==
      if WantedAt(escalators, id, code, day, hour, minute) then multiset(ids)[id] else 0
  {
    hide CommandsAt, AllCommands, Enabled, EntryOf, WantedAt, WantedInDay, Keyed;
    if |ids| == 0 {
      NoParts();
      NothingAt(escalators, hour, minute);
    } else {
      var front, last := ids[..|ids| - 1], ids[|ids| - 1];
      MinuteCommands(escalators, front, day, id, code, hour, minute);
      MadeMore(escalators, front, last, day);
      EnabledOfEntry(Made(escalators, front, day), escalators, last, day);
      CommandsAtAppend(escalators, Enabled(Made(escalators, front, day)), Enabled(EntryOf(escalators, last, day)),
                       hour, minute);
      EntryCommands(escalators, last, day, id, code, hour, minute);
      assert ids == front + [last];
    }
  }

  lemma NothingAt(escalators: map<int, Escalator>, hour: int, minute: int)
    ensures CommandsAt(escalators, [], hour, minute) == []
  {
  }

  /** The whole day in the same way: a command is sent exactly if the settings ask for it on this day and the time of
      the start is a time of day; escalators that are unknown, disabled, or standing still send nothing. */
  lemma {:induction false} DayCommands(escalators: map<int, Escalator>, ids: seq<int>, day: nat, id: int, code: int)
    requires Keyed(escalators)
    ensures multiset(AllCommands(escalators, Enabled(Made(escalators, ids, day))))[Command(id, code)] ==
      if WantedInDay(escalators, id, code, day) then multiset(ids)[id] else 0
  {
    hide CommandsAt, AllCommands, Enabled, EntryOf, WantedAt, WantedInDay, Keyed;
    if |ids| == 0 {
      NoParts();
      NoCommands(escalators);
    } else {
      var front, last := ids[..|ids| - 1], ids[|ids| - 1];
      DayCommands(escalators, front, day, id, code);
      MadeMore(escalators, front, last, day);
      EnabledOfEntry(Made(escalators, front, day), escalators, last, day);
      CommandsAppend(escalators, Enabled(Made(escalators, front, day)), Enabled(EntryOf(escalators, last, day)));
      EntryCommands(escalators, last, day, id, code, 0, 0);
      assert ids == front + [last];
    }
  }

  // ----- the program -----

  class MorningStartList {
    var items: seq<Start>
    var filteredEnd: nat

    predicate Valid()
      reads this
    {
      filteredEnd <= |items|
    }

    function Visible(): seq<Start>
      reads this
      requires Valid()
    {
      items[..filteredEnd]
    }

    constructor ()
      ensures Valid() && items == [] && filteredEnd == 0
    {
      items := [];
      filteredEnd := 0;
    }

    /** The copy shows as many entries as the original. */
    constructor Copy(other: MorningStartList)
      requires other.Valid()
      ensures Valid() && items == other.items && Visible() == other.Visible()
    {
      items := other.items;
      filteredEnd := other.filteredEnd;
    }

    /** Before the position; the boundary stays behind the same entry. */
    method Insert(position: nat, s: Start)
      requires Valid() && position <= |items|
      modifies this
      ensures Valid() && items == old(items[..position] + [s] + items[position..])
      ensures filteredEnd == if position <= old(filteredEnd) then old(filteredEnd) + 1 else old(filteredEnd)
    {
      items := items[..position] + [s] + items[position..];
      if position <= filteredEnd {
        filteredEnd := filteredEnd + 1;
      }
    }

    method EraseAll()
      modifies this
      ensures Valid() && items == [] && filteredEnd == 0
    {
      items := [];
      filteredEnd := 0;
    }

    /** The comparison of the sort is no order, so all that is sure of the result is what it contains. */
    method SortAll()
      modifies this
      ensures Valid() && multiset(items) == multiset(old(items)) && filteredEnd == |items|
    {
      assert multiset(items) == multiset(items);
      var sorted: seq<Start> :| multiset(sorted) == multiset(items);
      items := sorted;
      filteredEnd := |items|;
    }

    /** Exactly the enabled entries become visible. */
    method OnlyStarting()
      modifies this
      ensures Valid() && multiset(items) == multiset(old(items))
      ensures multiset(Visible()) == multiset(Enabled(old(items)))
      ensures forall i :: 0 <= i < |items| ==> (items[i].enabled <==> i < filteredEnd)
    {
      hide Enabled, Disabled;
      ghost var before := items;
      SortAll();
      PartsMakeWhole(items);
      PartsAreApart(items);
      SameEnabled(before, items);
      var starting, others := Enabled(items), Disabled(items);
      items := starting + others;
      filteredEnd := |starting|;
      assert items[..filteredEnd] == starting;
    }
  }

  lemma {:induction false} EnabledCounts(s: seq<Start>, e: Start)
    ensures multiset(Enabled(s))[e] == if e.enabled then multiset(s)[e] else 0
  {
    if |s| > 0 {
      hide Enabled;
      var front, last := s[..|s| - 1], s[|s| - 1];
      EnabledCounts(front, e);
      EnabledMore(front, last);
      assert s == front + [last];
    }
  }

  lemma SameEnabled(s: seq<Start>, t: seq<Start>)
    requires multiset(s) == multiset(t)
    ensures multiset(Enabled(s)) == multiset(Enabled(t))
  {
    hide Enabled;
    forall e: Start
      ensures multiset(Enabled(s))[e] == multiset(Enabled(t))[e]
    {
      EnabledCounts(s, e);
      EnabledCounts(t, e);
    }
  }

  class EscalatorsContainer {
    var escalators: map<int, Escalator>
    var commands: seq<Command>

    constructor (escalators: map<int, Escalator>)
      ensures this.escalators == escalators && commands == []
    {
      this.escalators := escalators;
      commands := [];
    }

    method PrepareMorningStart(list: MorningStartList, ids: seq<int>, day: nat)
      modifies list
      ensures list.Valid() && multiset(list.Visible()) == multiset(Made(escalators, ids, day))
      ensures list.filteredEnd == |list.items|
    {
      hide StartOf;
      list.EraseAll();
      var i := 0;
      while i < |ids|
        invariant 0 <= i <= |ids| && list.Valid() && list.filteredEnd == |list.items|
        invariant list.items == Made(escalators, ids[..i], day)
      {
        assert ids[..i + 1][..i] == ids[..i];
        var id := ids[i];
        if id in escalators && escalators[id].enabled {
          list.Insert(list.filteredEnd, StartOf(escalators[id], day));
        }
        i := i + 1;
      }
      assert ids[..i] == ids;
      list.SortAll();
      assert list.items[..list.filteredEnd] == list.items;
    }

    method ExecuteMorningStart(list: MorningStartList, hour: int, minute: int)
      requires list.Valid()
      modifies this`commands
      ensures commands == old(commands) + CommandsAt(escalators, list.Visible(), hour, minute)
    {
      hide CommandOf;
      var visible := list.Visible();
      var i := 0;
      while i < |visible|
        invariant 0 <= i <= |visible|
        invariant commands == old(commands) + CommandsAt(escalators, visible[..i], hour, minute)
      {
        assert visible[..i + 1][..i] == visible[..i];
        if visible[i].hour == hour && visible[i].minute == minute {
          commands := commands + CommandOf(escalators, visible[i]);
        }
        i := i + 1;
      }
      assert visible[..i] == visible;
    }
  }

  /** A whole day: prepare the list, show only the starting entries, and execute it once in every minute. */
  method MorningDay(park: EscalatorsContainer, list: MorningStartList, ids: seq<int>, day: nat)
    modifies list, park`commands
    ensures park.escalators == old(park.escalators)
    ensures multiset(park.commands) ==
      multiset(old(park.commands)) + multiset(AllCommands(park.escalators, Enabled(Made(park.escalators, ids, day))))
  {
    hide Made, Enabled, AllCommands, CommandsOfMinutes, CommandsAt;
    ghost var made := Made(park.escalators, ids, day);
    ghost var before := park.commands;
    park.PrepareMorningStart(list, ids, day);
    assert list.items[..list.filteredEnd] == list.items;
    SameEnabled(list.items, made);
    list.OnlyStarting();
    ghost var visible := list.Visible();
    DayOfTheEnabled(park.escalators, made, visible);
    NoMinutes(park.escalators, visible);
    var minute := 0;
    while minute < MINUTES
      invariant 0 <= minute <= MINUTES && list.Valid() && list.Visible() == visible
      invariant park.escalators == old(park.escalators)
      invariant multiset(park.commands) ==
        multiset(before) + multiset(CommandsOfMinutes(park.escalators, visible, minute))
    {
      OneMoreMinute(park.escalators, visible, minute + 1);
      park.ExecuteMorningStart(list, minute / 60, minute % 60);
      minute := minute + 1;
    }
  }

  /** Whatever order the sort leaves: prepared, restricted to the starting ones and executed in every minute,
      the list sends exactly the commands of the enabled entries that were made. */
  lemma DayOfTheEnabled(escalators: map<int, Escalator>, made: seq<Start>, visible: seq<Start>)
    requires multiset(visible) == multiset(Enabled(made))
    ensures multiset(CommandsOfMinutes(escalators, visible, MINUTES)) ==
      multiset(AllCommands(escalators, Enabled(made)))
  {
    hide Enabled, AllCommands, CommandsOfMinutes;
    EveryMinuteOnce(escalators, visible);
    OrderDoesNotMatter(escalators, visible, Enabled(made));
  }
}
