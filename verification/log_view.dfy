/** The list of records with the boundary behind its visible part. */
module LogView {
  import opened LogRecords

  /** `end` is the position of the first hidden record, or the end of the list. */
  datatype LogList = LogList(records: seq<LogRecord>, end: nat)

  predicate InBounds(l: LogList) { l.end <= |l.records| }

  function Visible(l: LogList): seq<LogRecord>
    requires InBounds(l)
  {
    l.records[..l.end]
  }

  /** The halving search of the library: how many of the `len` records behind `first` to skip. */
  function UpperBound(s: seq<LogRecord>, first: nat, len: nat, time: int): (p: nat)
    requires first + len <= |s|
    ensures first <= p <= first + len
    decreases len
  {
    if len == 0 then first
    else
      var half := len / 2;
      if time < s[first + half].record_time then UpperBound(s, first, half, time)
      else UpperBound(s, first + half + 1, len - half - 1, time)
  }

  /** A record goes to its place in the visible part if it matches, to the end of the list otherwise;
      the end of the visible part moves with the end of the list if nothing is hidden. */
  function Inserted(f: LogFilter, l: LogList, r: LogRecord): (l': LogList)
    requires InBounds(l)
    ensures InBounds(l')
  {
    if |l.records| > 0 && f.filter_state && Matches(f, r) then
      var p := UpperBound(l.records, 0, l.end, r.record_time);
      LogList(l.records[..p] + [r] + l.records[p..], l.end + 1)
    else
      LogList(l.records + [r], if l.end == |l.records| then l.end + 1 else l.end)
  }

  function InsertedAll(f: LogFilter, l: LogList, rs: seq<LogRecord>): (l': LogList)
    requires InBounds(l)
    ensures InBounds(l')
  {
    if |rs| == 0 then l else Inserted(f, InsertedAll(f, l, rs[..|rs| - 1]), rs[|rs| - 1])
  }

  /** Sort everything, then move what does not match behind what does. */
  function SetFiltered(f: LogFilter, records: seq<LogRecord>): (l: LogList)
    ensures InBounds(l)
  {
    var sorted := StableSort(records);
    if f.filter_state then LogList(Selected(f, sorted) + Rejected(f, sorted), |Selected(f, sorted)|)
    else LogList(sorted, |sorted|)
  }

  // ----- one insertion -----

  ghost predicate NotLater(s: seq<LogRecord>, n: nat, time: int) {
    n <= |s| && forall i :: 0 <= i < n ==> s[i].record_time <= time
  }

  ghost predicate Later(s: seq<LogRecord>, from: nat, to: nat, time: int) {
    from <= to <= |s| && forall i :: from <= i < to ==> time < s[i].record_time
  }

  /** One look of the search at a sorted part decides everything on one side of it. */
  lemma Pivot(s: seq<LogRecord>, n: nat, mid: nat, time: int)
    requires mid < n <= |s|
    requires forall i, j :: 0 <= i < j < n ==> s[i].record_time <= s[j].record_time
    ensures if time < s[mid].record_time then Later(s, mid, n, time) else NotLater(s, mid + 1, time)
  {
  }

  lemma {:induction false} UpperBoundSplits(s: seq<LogRecord>, first: nat, len: nat, n: nat, time: int)
    requires first + len <= n <= |s|
    requires forall i, j :: 0 <= i < j < n ==> s[i].record_time <= s[j].record_time
    requires NotLater(s, first, time) && Later(s, first + len, n, time)
    ensures NotLater(s, UpperBound(s, first, len, time), time) && Later(s, UpperBound(s, first, len, time), n, time)
    decreases len
  {
    hide NotLater, Later;
    if len > 0 {
      var half := len / 2;
      Pivot(s, n, first + half, time);
      if time < s[first + half].record_time {
        UpperBoundSplits(s, first, half, n, time);
      } else {
        UpperBoundSplits(s, first + half + 1, len - half - 1, n, time);
      }
    }
  }

  lemma {:induction false} PlacedAt(s: seq<LogRecord>, r: LogRecord, p: nat)
    requires p <= |s|
    requires forall i :: 0 <= i < p ==> s[i].record_time <= r.record_time
    requires forall i :: p <= i < |s| ==> r.record_time < s[i].record_time
    ensures Placed(s, r) == s[..p] + [r] + s[p..]
  {
    if p == |s| {
      assert s[..p] == s && s[p..] == [];
    } else {
      var n := |s| - 1;
      PlacedAt(s[..n], r, p);
      assert s[..n][..p] == s[..p] && s[..n][p..] + [s[n]] == s[p..];
    }
  }

  /** What the visible part shows is the sorted selection of `all`, and nothing that matches is hidden. */
  ghost predicate UpToDate(f: LogFilter, l: LogList, all: seq<LogRecord>) {
    && InBounds(l)
    && Visible(l) == StableSort(Selected(f, all))
    && forall i :: l.end <= i < |l.records| ==> !Matches(f, l.records[i])
  }

  lemma InsertInOrder(f: LogFilter, l: LogList, all: seq<LogRecord>, r: LogRecord)
    requires UpToDate(f, l, all) && f.filter_state && Matches(f, r)
    ensures UpToDate(f, Inserted(f, l, r), all + [r])
  {
    hide Matches, StableSort, Placed, Sorted, Selected, Inserted;
    SelectedMore(f, all, r);
    SortMore(Selected(f, all), r);
    SortIsSorted(Selected(f, all));
    VisibleInsert(f, l, r);
    var m := Inserted(f, l, r);
    forall i | m.end <= i < |m.records|
      ensures !Matches(f, m.records[i])
    {
      assert m.records[i] == l.records[i - 1];
    }
  }

  lemma VisibleInsert(f: LogFilter, l: LogList, r: LogRecord)
    requires InBounds(l) && Sorted(Visible(l)) && f.filter_state && Matches(f, r)
    ensures Visible(Inserted(f, l, r)) == Placed(Visible(l), r)
    ensures Inserted(f, l, r).end == l.end + 1 && |Inserted(f, l, r).records| == |l.records| + 1
    ensures forall i :: l.end < i <= |l.records| ==> Inserted(f, l, r).records[i] == l.records[i - 1]
  {
    hide Matches, Placed;
    if |l.records| == 0 {
      PlacedAt([], r, 0);
    } else {
      var v := Visible(l);
      assert forall i, j :: 0 <= i < j < l.end ==> v[i].record_time <= v[j].record_time;
      hide Sorted;
      var p := UpperBound(l.records, 0, l.end, r.record_time);
      UpperBoundSplits(l.records, 0, l.end, l.end, r.record_time);
      hide UpperBound;
      PlacedAt(v, r, p);
      InsertInPrefix(l.records, p, l.end, r);
    }
  }

  lemma InsertInPrefix<T>(s: seq<T>, p: nat, end: nat, x: T)
    requires p <= end <= |s|
    ensures (s[..p] + [x] + s[p..])[..end + 1] == s[..end][..p] + [x] + s[..end][p..]
    ensures forall i :: end < i <= |s| ==> (s[..p] + [x] + s[p..])[i] == s[i - 1]
  {
  }

  lemma InsertHidden(f: LogFilter, l: LogList, all: seq<LogRecord>, r: LogRecord)
    requires UpToDate(f, l, all) && !Matches(f, r) && l.end < |l.records|
    ensures UpToDate(f, Inserted(f, l, r), all + [r])
  {
    hide Matches, StableSort, Selected;
    SelectedMore(f, all, r);
    var m := Inserted(f, l, r);
    assert Visible(m) == Visible(l);
  }

  /** A record that does not match stands in the visible part. */
  ghost predicate Spoilt(f: LogFilter, l: LogList) {
    InBounds(l) && exists i :: 0 <= i < l.end && !Matches(f, l.records[i])
  }

  lemma InsertSpoils(f: LogFilter, l: LogList, r: LogRecord)
    requires InBounds(l) && l.end == |l.records| && !Matches(f, r)
    ensures Spoilt(f, Inserted(f, l, r))
  {
    hide Matches;
    assert Inserted(f, l, r).records[l.end] == r;
  }

  lemma SpoiltForGood(f: LogFilter, l: LogList, r: LogRecord)
    requires Spoilt(f, l)
    ensures Spoilt(f, Inserted(f, l, r))
  {
    hide Matches, UpperBound;
    var i :| 0 <= i < l.end && !Matches(f, l.records[i]);
    var m := Inserted(f, l, r);
    if |l.records| > 0 && f.filter_state && Matches(f, r) && UpperBound(l.records, 0, l.end, r.record_time) <= i {
      assert m.records[i + 1] == l.records[i];
    } else {
      assert m.records[i] == l.records[i];
    }
  }

  lemma SpoiltIsNotUpToDate(f: LogFilter, l: LogList, all: seq<LogRecord>)
    requires Spoilt(f, l)
    ensures Visible(l) != StableSort(Selected(f, all))
  {
    hide Matches, StableSort, Selected;
    var i :| 0 <= i < l.end && !Matches(f, l.records[i]);
    SelectCommutesWithSort(f, all);
    SelectedMatch(f, StableSort(all));
    assert !Matches(f, Visible(l)[i]);
    if i < |StableSort(Selected(f, all))| {
      assert Matches(f, StableSort(Selected(f, all))[i]);
    }
  }

  // ----- whole runs -----

  ghost predicate AllMatch(f: LogFilter, rs: seq<LogRecord>) {
    forall i :: 0 <= i < |rs| ==> Matches(f, rs[i])
  }

  lemma FilteringIsUpToDate(f: LogFilter, all: seq<LogRecord>)
    requires f.filter_state
    ensures UpToDate(f, SetFiltered(f, all), all)
  {
    hide Matches, StableSort, Selected, Rejected;
    SelectCommutesWithSort(f, all);
    SelectedMatch(f, StableSort(all));
    assert Visible(SetFiltered(f, all)) == Selected(f, StableSort(all));
  }

  lemma {:induction false} RunFromFiltering(f: LogFilter, all: seq<LogRecord>, rs: seq<LogRecord>)
    requires f.filter_state
    ensures var l := SetFiltered(f, all);
      var m := InsertedAll(f, l, rs);
      if l.end < |l.records| then UpToDate(f, m, all + rs) && m.end < |m.records|
      else if AllMatch(f, rs) then UpToDate(f, m, all + rs) && m.end == |m.records|
      else Spoilt(f, m)
  {
    hide Matches, SetFiltered, UpToDate, Spoilt;
    var l := SetFiltered(f, all);
    FilteringIsUpToDate(f, all);
    if |rs| == 0 {
      assert all + rs == all;
    } else {
      var before, r := rs[..|rs| - 1], rs[|rs| - 1];
      RunFromFiltering(f, all, before);
      var m := InsertedAll(f, l, before);
      assert all + rs == (all + before) + [r];
      assert rs == before + [r];
      if l.end == |l.records| && !AllMatch(f, before) {
        SpoiltForGood(f, m, r);
      } else if Matches(f, r) {
        InsertInOrder(f, m, all + before, r);
      } else if m.end < |m.records| {
        InsertHidden(f, m, all + before, r);
      } else {
        InsertSpoils(f, m, r);
      }
    }
  }

  /** After any run of insertions into a filtered list, the visible part is what filtering from scratch
      the old list with the new records behind it would show, exactly when something was hidden
      at the start or all new records match. */
  lemma InsertionAgreesWithFiltering(f: LogFilter, all: seq<LogRecord>, rs: seq<LogRecord>)
    requires f.filter_state
    ensures var l := SetFiltered(f, all);
      (Visible(InsertedAll(f, l, rs)) == Visible(SetFiltered(f, all + rs)))
      <==> (l.end < |l.records| || AllMatch(f, rs))
  {
    hide Matches, SetFiltered, StableSort, Selected, AllMatch;
    RunFromFiltering(f, all, rs);
    FilteringIsUpToDate(f, all + rs);
    FilteringIsUpToDate(f, all);
    var m := InsertedAll(f, SetFiltered(f, all), rs);
    if Spoilt(f, m) {
      SpoiltIsNotUpToDate(f, m, all + rs);
    }
  }

  lemma {:induction false} SortedStays(s: seq<LogRecord>)
    requires Sorted(s)
    ensures StableSort(s) == s
  {
    hide Sorted, StableSort, Placed;
    if |s| == 0 {
      NothingToSort();
    } else {
      var front, last := s[..|s| - 1], s[|s| - 1];
      SortedFront(s);
      SortedStays(front);
      SortMore(front, last);
      PlacedLast(front, last);
      assert s == front + [last];
    }
  }

  lemma NothingToSort()
    ensures StableSort([]) == []
  {
  }

  lemma {:induction false} SelectedPrefix(f: LogFilter, s: seq<LogRecord>, k: nat)
    requires k <= |s|
    requires forall i :: 0 <= i < k ==> Matches(f, s[i])
    requires forall i :: k <= i < |s| ==> !Matches(f, s[i])
    ensures Selected(f, s) == s[..k]
  {
    hide Matches;
    if |s| > 0 {
      var n := |s| - 1;
      if k == |s| {
        SelectedPrefix(f, s[..n], n);
        assert s[..n][..n] + [s[n]] == s[..k];
      } else {
        SelectedPrefix(f, s[..n], k);
        assert s[..n][..k] == s[..k];
      }
    }
  }

  /** Filtering a list that is up to date again changes nothing that can be seen. */
  lemma FilteringAgainChangesNothing(f: LogFilter, l: LogList, all: seq<LogRecord>)
    requires f.filter_state && UpToDate(f, l, all)
    ensures Visible(SetFiltered(f, l.records)) == Visible(l)
  {
    hide Matches, StableSort, Selected, Rejected, Sorted;
    SelectCommutesWithSort(f, all);
    SelectedMatch(f, StableSort(all));
    forall i | 0 <= i < l.end
      ensures Matches(f, l.records[i])
    {
      assert Visible(l)[i] == l.records[i];
    }
    SelectedPrefix(f, l.records, l.end);
    SortIsSorted(Selected(f, all));
    SortedStays(Visible(l));
    SelectCommutesWithSort(f, l.records);
  }

  /** No insertion and no filtering loses or invents a record. */
  lemma {:induction false} RecordsAreKept(f: LogFilter, l: LogList, rs: seq<LogRecord>)
    requires InBounds(l)
    ensures multiset(InsertedAll(f, l, rs).records) == multiset(l.records) + multiset(rs)
    ensures multiset(SetFiltered(f, l.records).records) == multiset(l.records)
  {
    hide Matches, UpperBound, StableSort, Selected, Rejected;
    SortKeepsRecords(l.records);
    PartsMakeWhole(f, StableSort(l.records));
    if |rs| > 0 {
      var before, r := rs[..|rs| - 1], rs[|rs| - 1];
      RecordsAreKept(f, l, before);
      assert rs == before + [r];
      OneMore(f, InsertedAll(f, l, before), r);
    }
  }

  lemma OneMore(f: LogFilter, l: LogList, r: LogRecord)
    requires InBounds(l)
    ensures multiset(Inserted(f, l, r).records) == multiset(l.records) + multiset{r}
  {
    hide Matches, UpperBound;
    var p := UpperBound(l.records, 0, l.end, r.record_time);
    assert l.records == l.records[..p] + l.records[p..];
  }

  // ----- without the filter -----

  /** Switching the filter off shows every record there is, in order of time and, within a moment, in the order
      of the list before. */
  lemma FilterOffShowsAll(f: LogFilter, records: seq<LogRecord>)
    requires !f.filter_state
    ensures var l := SetFiltered(f, records);
      && l.end == |l.records| == |records|
      && Sorted(Visible(l)) && SameMoments(Visible(l), records)
      && multiset(Visible(l)) == multiset(records)
  {
    hide StableSort, Sorted, SameMoments;
    SortIsSorted(records);
    SortKeepsRecords(records);
    StableSortIsTheOnlyOne(records, StableSort(records));
    var l := SetFiltered(f, records);
    assert Visible(l) == StableSort(records);
  }

  /** The same after any run of insertions under any filter, and any hidden records. */
  lemma FilterOffAfterInsertions(f: LogFilter, off: LogFilter, l: LogList, rs: seq<LogRecord>)
    requires InBounds(l) && !off.filter_state
    ensures var m := InsertedAll(f, l, rs);
      var shown := Visible(SetFiltered(off, m.records));
      Sorted(shown) && SameMoments(shown, m.records) && multiset(shown) == multiset(l.records) + multiset(rs)
  {
    hide InsertedAll, SetFiltered, Sorted, SameMoments;
    FilterOffShowsAll(off, InsertedAll(f, l, rs).records);
    RecordsAreKept(f, l, rs);
  }

  /** With the filter off new records are shown behind all others, in the order in which they come. */
  lemma {:induction false} InsertionWithoutFilter(f: LogFilter, l: LogList, rs: seq<LogRecord>)
    requires !f.filter_state && l.end == |l.records|
    ensures var m := InsertedAll(f, l, rs);
      m.end == |m.records| && Visible(m) == Visible(l) + rs
  {
    if |rs| > 0 {
      InsertionWithoutFilter(f, l, rs[..|rs| - 1]);
      assert rs == rs[..|rs| - 1] + [rs[|rs| - 1]];
    }
  }

  /** With the filter on exactly the matching records are shown, sorted likewise. */
  lemma FilterOnShowsMatching(f: LogFilter, records: seq<LogRecord>)
    requires f.filter_state
    ensures var l := SetFiltered(f, records);
      && Sorted(Visible(l)) && SameMoments(Visible(l), Selected(f, records))
      && (forall i :: 0 <= i < |l.records| ==> (Matches(f, l.records[i]) <==> i < l.end))
      && multiset(l.records) == multiset(records)
  {
    hide StableSort, Sorted, SameMoments, Matches, Selected, Rejected;
    SelectCommutesWithSort(f, records);
    SortIsSorted(Selected(f, records));
    StableSortIsTheOnlyOne(Selected(f, records), StableSort(Selected(f, records)));
    SelectedMatch(f, StableSort(records));
    RecordsAreKept(f, LogList(records, 0), []);
    var l := SetFiltered(f, records);
    assert Visible(l) == Selected(f, StableSort(records));
  }
}
