/** The container of the log: the list, its filter and the counter of records. */
module LogContainers {
  import opened LogRecords
  import opened LogView
  import opened Bytes
  import opened Collections
  import opened LogFiles

  /** Is every element of one set an element of the other? */
  method AllIn(a: set<int32>, b: set<int32>) returns (ok: bool)
    ensures ok == (a <= b)
  {
    var left := a;
    while left != {}
      invariant left <= a && a - left <= b
      decreases left
    {
      var id :| id in left;
      if id !in b {
        return false;
      }
      left := left - {id};
    }
    ok := true;
  }

  lemma SameSizeSubset(a: set<int32>, b: set<int32>)
    requires a <= b && |a| == |b|
    ensures a == b
  {
    assert a + (b - a) == b;
  }

  /** The comparison of two filters: flags, times, sizes, and one direction of each inclusion. */
  method SameFilter(f: LogFilter, g: LogFilter) returns (same: bool)
    ensures same == (f == g)
  {
    if f.filter_state != g.filter_state || f.all_times != g.all_times || f.all_devices != g.all_devices
       || f.all_stations != g.all_stations || f.all_msg_types != g.all_msg_types {
      return false;
    }
    if f.start_time != g.start_time || f.stop_time != g.stop_time {
      return false;
    }
    if |f.msg_types| != |g.msg_types| || |f.devices| != |g.devices| || |f.stations| != |g.stations| {
      return false;
    }
    var types := AllIn(f.msg_types, g.msg_types);
    if !types {
      return false;
    }
    var stations := AllIn(f.stations, g.stations);
    if !stations {
      return false;
    }
    var devices := AllIn(f.devices, g.devices);
    if !devices {
      return false;
    }
    SameSizeSubset(f.msg_types, g.msg_types);
    SameSizeSubset(f.stations, g.stations);
    SameSizeSubset(f.devices, g.devices);
    same := true;
  }

  class LogContainer {
    var records: seq<LogRecord>
    var iterEnd: nat
    var filter: LogFilter
    var recordsCount: int32

    predicate Valid()
      reads this
    {
      iterEnd <= |records|
    }

    function List(): LogList
      reads this
    {
      LogList(records, iterEnd)
    }

    constructor ()
      ensures Valid() && List() == LogList([], 0) && filter == DEFAULT_FILTER && recordsCount == 0
    {
      records := [];
      iterEnd := 0;
      filter := DEFAULT_FILTER;
      recordsCount := 0;
    }

    method SortAll()
      modifies this`records, this`iterEnd
      ensures Valid() && List() == LogList(StableSort(old(records)), |old(records)|)
    {
      SortIsSorted(records);
      records := StableSort(records);
      iterEnd := |records|;
    }

    method SetFiltering()
      modifies this`records, this`iterEnd
      ensures Valid() && List() == SetFiltered(filter, old(records))
    {
      SortIsSorted(records);
      SortAll();
      if filter.filter_state {
        var matching := Selected(filter, records);
        records := matching + Rejected(filter, records);
        iterEnd := |matching|;
      }
    }

    /** The iterator behind the visible part stays on its record, or at the end of the list. */
    method Insert(rec: LogRecord)
      requires Valid()
      modifies this`records, this`iterEnd
      ensures Valid() && List() == Inserted(filter, old(List()), rec)
    {
      if records != [] && filter.filter_state && Matches(filter, rec) {
        var position := UpperBound(records, 0, iterEnd, rec.record_time);
        records := records[..position] + [rec] + records[position..];
        iterEnd := iterEnd + 1;
      } else {
        if iterEnd == |records| {
          iterEnd := iterEnd + 1;
        }
        records := records + [rec];
      }
    }

    method EraseAll()
      modifies this`records, this`iterEnd
      ensures Valid() && List() == LogList([], 0)
    {
      records := [];
      iterEnd := 0;
    }

    /** Writes all records, the hidden ones too, in the order of the list. */
    method Save() returns (file: seq<byte>)
      ensures file == FileBytes(records)
    {
      hide Dword, RecordBytes, SPDLOG;
      file := SPDLOG + Dword(|records| % 0x1_0000_0000);
      ghost var header := file;
      var iter := 0;
      while iter < |records|
        invariant 0 <= iter <= |records|
        invariant file == header + RecordsBytes(records[..iter])
      {
        assert records[..iter + 1][..iter] == records[..iter];
        Associate(header, RecordsBytes(records[..iter]), RecordBytes(records[iter]));
        file := file + RecordBytes(records[iter]);
        iter := iter + 1;
      }
      assert records[..iter] == records;
    }

    /** Reads the records one by one and inserts them, up to the first that is cut off or unknown. */
    method LoadRecords(d: Dictionaries, numbered: bool, bytes: seq<byte>, size: nat) returns (ok: bool)
      requires Valid() && iterEnd == |records| && !filter.filter_state
      modifies this`records, this`iterEnd, this`recordsCount
      ensures Valid() && iterEnd == |records|
      ensures var l := ReadRecords(d, numbered, old(recordsCount), bytes, size);
        ok == l.ok && recordsCount == l.count && records == old(records) + l.records
    {
      hide ReadRecord;
      var left, rest := size, bytes;
      while left > 0
        invariant 0 <= left <= size && Valid() && iterEnd == |records|
        invariant var l := ReadRecords(d, numbered, old(recordsCount), bytes, size);
          var m := ReadRecords(d, numbered, recordsCount, rest, left);
          l.ok == m.ok && l.count == m.count && old(records) + l.records == records + m.records
      {
        ghost var before, m := records, ReadRecords(d, numbered, recordsCount, rest, left);
        var reading := ReadRecord(d, numbered, recordsCount, rest);
        match reading
        case None =>
          assert records + [] == records;
          return false;
        case Some(r) =>
          recordsCount := r.record.id;
          Insert(r.record);
          rest := r.rest;
          left := left - 1;
          Associate(before, [r.record], ReadRecords(d, numbered, recordsCount, rest, left).records);
      }
      assert records + [] == records;
      ok := true;
    }

    /** Replaces the log by the one in the file; a missing file is created empty in the old format. */
    method Load(d: Dictionaries, file: Option<seq<byte>>, canCreate: bool)
      returns (ok: bool, created: Option<seq<byte>>)
      modifies this
      ensures Valid() && filter == old(filter).(filter_state := false) && iterEnd == |records|
      ensures file.None? ==>
        && records == [] && recordsCount == old(recordsCount) && ok == canCreate
        && created == if canCreate then Some(LegacyBytes([])) else None
      ensures file.Some? ==>
        && Loaded(ok, records, recordsCount) == LogFiles.Load(d, old(recordsCount), file.value)
        && created == None
    {
      hide ReadRecords, DwordFrom, Dword, SPDLOG, LOGDAT, StableSort, Selected, Rejected;
      filter := filter.(filter_state := false);
      SetFiltering();
      EraseAll();
      ok, created := false, None;
      match file
      case None =>
        if canCreate {
          ok, created := true, Some(LOGDAT + Dword(0));
          assert LOGDAT + Dword(0) == LegacyBytes([]);
        }
      case Some(bytes) =>
        if |bytes| < 6 {
          return;
        }
        var newFormat := bytes[..6] != LOGDAT;
        if newFormat && bytes[..6] != SPDLOG {
          return;
        }
        if |bytes| < 10 {
          ok := true;
          return;
        }
        ok := LoadRecords(d, newFormat, bytes[10..], DwordFrom(bytes[6..10]));
    }
  }
}
