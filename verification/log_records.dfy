/** Log records, the filter on them, and the order that the list of records is kept in. */
module LogRecords {
  type int32 = x: int | -0x8000_0000 <= x < 0x8000_0000

  datatype LogRecord = LogRecord(
    id: int32, msg_id: int32, msg_type: int32, station_id: int32, device_id: int32, record_time: int32)

  datatype LogFilter = LogFilter(
    msg_types: set<int32>,
    stations: set<int32>,
    devices: set<int32>,
    start_time: int32,
    stop_time: int32,
    all_times: bool,
    all_devices: bool,
    all_stations: bool,
    all_msg_types: bool,
    filter_state: bool)

  const DEFAULT_FILTER := LogFilter({}, {}, {}, 0, 0, true, true, true, true, false)

  /** The devices are looked at only when the stations are restricted too. */
  predicate Matches(f: LogFilter, r: LogRecord) {
    f.filter_state ==>
      && (!f.all_msg_types ==> r.msg_type in f.msg_types)
      && (!f.all_times ==> f.start_time <= r.record_time <= f.stop_time)
      && (!f.all_stations ==> r.station_id in f.stations && (!f.all_devices ==> r.device_id in f.devices))
  }

  /** A record fails a filter exactly when the filter is on and one restriction that is set excludes it; both ends of
      the time span are inside it. */
  lemma FailsIff(f: LogFilter, r: LogRecord)
    ensures !Matches(f, r) <==>
      (f.filter_state
       && ((!f.all_msg_types && r.msg_type !in f.msg_types)
           || (!f.all_times && (r.record_time < f.start_time || r.record_time > f.stop_time))
           || (!f.all_stations && r.station_id !in f.stations)
           || (!f.all_stations && !f.all_devices && r.device_id !in f.devices)))
  {
  }

  function Selected(f: LogFilter, s: seq<LogRecord>): seq<LogRecord> {
    if |s| == 0 then []
    else Selected(f, s[..|s| - 1]) + if Matches(f, s[|s| - 1]) then [s[|s| - 1]] else []
  }

  function Rejected(f: LogFilter, s: seq<LogRecord>): seq<LogRecord> {
    if |s| == 0 then []
    else Rejected(f, s[..|s| - 1]) + if Matches(f, s[|s| - 1]) then [] else [s[|s| - 1]]
  }

  // ----- the stable order by time -----

  ghost predicate Sorted(s: seq<LogRecord>) {
    forall i, j :: 0 <= i < j < |s| ==> s[i].record_time <= s[j].record_time
  }

  /** Behind all records that are not later. */
  function Placed(s: seq<LogRecord>, r: LogRecord): seq<LogRecord> {
    if |s| == 0 || s[|s| - 1].record_time <= r.record_time then s + [r]
    else Placed(s[..|s| - 1], r) + [s[|s| - 1]]
  }

  function StableSort(s: seq<LogRecord>): seq<LogRecord> {
    if |s| == 0 then [] else Placed(StableSort(s[..|s| - 1]), s[|s| - 1])
  }

  /** The records of one moment, in the order they have. */
  function AtTime(s: seq<LogRecord>, time: int): seq<LogRecord> {
    if |s| == 0 then []
    else AtTime(s[..|s| - 1], time) + if s[|s| - 1].record_time == time then [s[|s| - 1]] else []
  }

  lemma {:induction false} PlacedIsSorted(s: seq<LogRecord>, r: LogRecord)
    requires Sorted(s)
    ensures |Placed(s, r)| == |s| + 1
    ensures Sorted(Placed(s, r))
    ensures forall i :: 0 <= i <= |s| ==>
      Placed(s, r)[i].record_time <= r.record_time || (|s| > 0 && Placed(s, r)[i].record_time <= s[|s| - 1].record_time)
  {
    if |s| > 0 && s[|s| - 1].record_time > r.record_time {
      PlacedIsSorted(s[..|s| - 1], r);
    }
  }

  lemma {:induction false} SortIsSorted(s: seq<LogRecord>)
    ensures |StableSort(s)| == |s| && Sorted(StableSort(s))
  {
    hide Placed, Sorted;
    if |s| > 0 {
      SortIsSorted(s[..|s| - 1]);
      PlacedIsSorted(StableSort(s[..|s| - 1]), s[|s| - 1]);
    } else {
      assert Sorted([]) by {
        NothingIsSorted();
      }
    }
  }

  lemma NothingIsSorted()
    ensures Sorted([])
  {
  }

  lemma AtTimeMore(s: seq<LogRecord>, r: LogRecord, time: int)
    ensures AtTime(s + [r], time) == AtTime(s, time) + if r.record_time == time then [r] else []
  {
    assert (s + [r])[..|s|] == s;
  }

  lemma {:induction false} AllEarlier(s: seq<LogRecord>, time: int)
    requires forall i :: 0 <= i < |s| ==> s[i].record_time != time
    ensures AtTime(s, time) == []
  {
    if |s| > 0 {
      AllEarlier(s[..|s| - 1], time);
    }
  }

  lemma {:induction false} PlacedKeepsMoments(s: seq<LogRecord>, r: LogRecord, time: int)
    ensures AtTime(Placed(s, r), time) == AtTime(s + [r], time)
  {
    AtTimeMore(s, r, time);
    if |s| > 0 && s[|s| - 1].record_time > r.record_time {
      var front, last := s[..|s| - 1], s[|s| - 1];
      PlacedKeepsMoments(front, r, time);
      AtTimeMore(front, r, time);
      AtTimeMore(Placed(front, r), last, time);
    }
  }

  lemma {:induction false} SortKeepsMoments(s: seq<LogRecord>, time: int)
    ensures AtTime(StableSort(s), time) == AtTime(s, time)
  {
    hide Placed;
    if |s| > 0 {
      var front, last := s[..|s| - 1], s[|s| - 1];
      SortKeepsMoments(front, time);
      PlacedKeepsMoments(StableSort(front), last, time);
      AtTimeMore(StableSort(front), last, time);
    }
  }

  lemma {:induction false} InItsMoment(s: seq<LogRecord>, i: nat)
    requires i < |s|
    ensures AtTime(s, s[i].record_time) != []
  {
    if i < |s| - 1 {
      InItsMoment(s[..|s| - 1], i);
    }
  }

  /** The two lists hold the same records in the same order at every moment. */
  ghost predicate SameMoments(s: seq<LogRecord>, t: seq<LogRecord>) {
    forall time :: AtTime(s, time) == AtTime(t, time)
  }

  lemma FrontMoments(s: seq<LogRecord>, t: seq<LogRecord>, r: LogRecord, time: int)
    requires AtTime(s + [r], time) == AtTime(t + [r], time)
    ensures AtTime(s, time) == AtTime(t, time)
  {
    AtTimeMore(s, r, time);
    AtTimeMore(t, r, time);
    if r.record_time == time {
      assert (AtTime(s, time) + [r])[..|AtTime(s, time)|] == AtTime(s, time);
      assert (AtTime(t, time) + [r])[..|AtTime(t, time)|] == AtTime(t, time);
    }
  }

  lemma LastIsNotLater(s: seq<LogRecord>, t: seq<LogRecord>)
    requires Sorted(t) && |s| > 0 && SameMoments(s, t)
    ensures |t| > 0 && s[|s| - 1].record_time <= t[|t| - 1].record_time
  {
    var time := s[|s| - 1].record_time;
    InItsMoment(s, |s| - 1);
    if |t| == 0 || t[|t| - 1].record_time < time {
      AllEarlier(t, time);
    }
  }

  lemma LastOfMoment(s: seq<LogRecord>, r: LogRecord)
    ensures AtTime(s + [r], r.record_time) == AtTime(s, r.record_time) + [r]
  {
    AtTimeMore(s, r, r.record_time);
  }

  /** Sorted lists that agree on every moment are the same list. */
  lemma {:induction false} MomentsDecide(s: seq<LogRecord>, t: seq<LogRecord>)
    requires Sorted(s) && Sorted(t) && SameMoments(s, t)
    ensures s == t
  {
    hide AtTime;
    if |s| == 0 {
      if |t| > 0 {
        LastIsNotLater(t, s);
      }
    } else {
      LastIsNotLater(s, t);
      LastIsNotLater(t, s);
      var s', t', a, b := s[..|s| - 1], t[..|t| - 1], s[|s| - 1], t[|t| - 1];
      assert s == s' + [a] && t == t' + [b];
      LastOfMoment(s', a);
      LastOfMoment(t', b);
      assert AtTime(s, a.record_time)[|AtTime(s', a.record_time)|] == a;
      assert AtTime(t, a.record_time)[|AtTime(t', a.record_time)|] == b;
      forall time
        ensures AtTime(s', time) == AtTime(t', time)
      {
        assert AtTime(s, time) == AtTime(t, time);
        FrontMoments(s', t', a, time);
      }
      MomentsDecide(s', t');
    }
  }

  /** Whatever sorts by time and keeps the order within each moment computes StableSort. */
  lemma StableSortIsTheOnlyOne(s: seq<LogRecord>, t: seq<LogRecord>)
    ensures t == StableSort(s) <==> Sorted(t) && SameMoments(t, s)
  {
    hide Sorted, StableSort, AtTime;
    SortIsSorted(s);
    var u := StableSort(s);
    forall time
      ensures AtTime(u, time) == AtTime(s, time)
    {
      SortKeepsMoments(s, time);
    }
    if Sorted(t) && SameMoments(t, s) {
      assert forall time :: AtTime(t, time) == AtTime(u, time);
      MomentsDecide(t, u);
    }
  }

  lemma {:induction false} PlacedKeepsRecords(s: seq<LogRecord>, r: LogRecord)
    ensures multiset(Placed(s, r)) == multiset(s) + multiset{r}
  {
    if |s| > 0 && s[|s| - 1].record_time > r.record_time {
      PlacedKeepsRecords(s[..|s| - 1], r);
      assert s == s[..|s| - 1] + [s[|s| - 1]];
    }
  }

  lemma {:induction false} SortKeepsRecords(s: seq<LogRecord>)
    ensures multiset(StableSort(s)) == multiset(s)
  {
    hide Placed;
    if |s| > 0 {
      SortKeepsRecords(s[..|s| - 1]);
      PlacedKeepsRecords(StableSort(s[..|s| - 1]), s[|s| - 1]);
      assert s == s[..|s| - 1] + [s[|s| - 1]];
    }
  }

  // ----- filter and order -----

  lemma SelectedMore(f: LogFilter, s: seq<LogRecord>, r: LogRecord)
    ensures Selected(f, s + [r]) == if Matches(f, r) then Selected(f, s) + [r] else Selected(f, s)
    ensures Rejected(f, s + [r]) == if Matches(f, r) then Rejected(f, s) else Rejected(f, s) + [r]
  {
    assert (s + [r])[..|s|] == s;
  }

  lemma {:induction false} SelectedMatch(f: LogFilter, s: seq<LogRecord>)
    ensures forall i :: 0 <= i < |Selected(f, s)| ==> Matches(f, Selected(f, s)[i])
    ensures forall i :: 0 <= i < |Rejected(f, s)| ==> !Matches(f, Rejected(f, s)[i])
  {
    hide Matches;
    if |s| > 0 {
      SelectedMatch(f, s[..|s| - 1]);
    }
  }

  lemma {:induction false} SelectedNotLater(f: LogFilter, s: seq<LogRecord>, time: int)
    requires forall i :: 0 <= i < |s| ==> s[i].record_time <= time
    ensures forall i :: 0 <= i < |Selected(f, s)| ==> Selected(f, s)[i].record_time <= time
  {
    hide Matches;
    if |s| > 0 {
      SelectedNotLater(f, s[..|s| - 1], time);
    }
  }

  lemma PlacedBefore(s: seq<LogRecord>, last: LogRecord, r: LogRecord)
    requires last.record_time > r.record_time
    ensures Placed(s + [last], r) == Placed(s, r) + [last]
  {
    assert (s + [last])[..|s|] == s;
  }

  lemma PlacedLast(s: seq<LogRecord>, r: LogRecord)
    requires forall i :: 0 <= i < |s| ==> s[i].record_time <= r.record_time
    ensures Placed(s, r) == s + [r]
  {
  }

  lemma SortedFront(s: seq<LogRecord>)
    requires Sorted(s) && |s| > 0
    ensures Sorted(s[..|s| - 1])
    ensures forall i :: 0 <= i < |s| ==> s[i].record_time <= s[|s| - 1].record_time
  {
  }

  lemma {:induction false} SelectedPlaced(f: LogFilter, s: seq<LogRecord>, r: LogRecord)
    requires Sorted(s)
    ensures Selected(f, Placed(s, r)) == if Matches(f, r) then Placed(Selected(f, s), r) else Selected(f, s)
  {
    hide Matches, Sorted, Selected, Placed;
    if |s| == 0 {
      NothingSelected(f);
      PlacedLast(s, r);
      PlacedLast([], r);
      SelectedMore(f, s, r);
    } else {
      var front, last := s[..|s| - 1], s[|s| - 1];
      SortedFront(s);
      assert s == front + [last];
      if last.record_time <= r.record_time {
        SelectedNotLater(f, s, r.record_time);
        PlacedLast(s, r);
        PlacedLast(Selected(f, s), r);
        SelectedMore(f, s, r);
      } else {
        SelectedPlaced(f, front, r);
        PlacedBefore(front, last, r);
        SelectedMore(f, Placed(front, r), last);
        SelectedMore(f, front, last);
        PlacedBefore(Selected(f, front), last, r);
      }
    }
  }

  lemma NothingSelected(f: LogFilter)
    ensures Selected(f, []) == []
  {
  }

  /** Sorting before filtering gives what filtering before sorting gives. */
  lemma {:induction false} SelectCommutesWithSort(f: LogFilter, s: seq<LogRecord>)
    ensures Selected(f, StableSort(s)) == StableSort(Selected(f, s))
  {
    hide Placed, Sorted, Matches;
    if |s| > 0 {
      var front, last := s[..|s| - 1], s[|s| - 1];
      SelectCommutesWithSort(f, front);
      SortIsSorted(front);
      SelectedPlaced(f, StableSort(front), last);
      assert s == front + [last];
      SelectedMore(f, front, last);
      SortMore(Selected(f, front), last);
    }
  }

  lemma SortMore(s: seq<LogRecord>, r: LogRecord)
    ensures StableSort(s + [r]) == Placed(StableSort(s), r)
  {
    assert (s + [r])[..|s|] == s;
  }

  lemma {:induction false} PartsMakeWhole(f: LogFilter, s: seq<LogRecord>)
    ensures multiset(Selected(f, s)) + multiset(Rejected(f, s)) == multiset(s)
  {
    hide Matches, Selected, Rejected;
    if |s| == 0 {
      NoParts(f);
    } else {
      var front, last := s[..|s| - 1], s[|s| - 1];
      PartsMakeWhole(f, front);
      SelectedMore(f, front, last);
      assert s == front + [last];
    }
  }

  lemma NoParts(f: LogFilter)
    ensures Selected(f, []) == Rejected(f, []) == []
  {
  }
}
