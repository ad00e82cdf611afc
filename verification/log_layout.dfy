/** The log file byte by byte: where each field stands, what a cut or unknown file gives, and who names the types. */
module LogLayout {
  import opened Bytes
  import opened Collections
  import opened LogRecords
  import opened LogFiles

  // ----- four bytes -----

  /** Four bytes, the lowest first, that stand for a signed number of 32 bits. */
  predicate Holds(bytes: seq<byte>, n: int) {
    && |bytes| == 4
    && ToInt(bytes[0]) + 256 * ToInt(bytes[1]) + 65536 * ToInt(bytes[2]) + 16777216 * ToInt(bytes[3]) ==
         (if n < 0 then n + 4294967296 else n)
  }

  lemma LongHolds(n: int32)
    ensures Holds(Long(n), n)
  {
    hide Dword, ToInt;
    DwordRoundTrip(if n < 0 then n + 0x1_0000_0000 else n);
  }

  lemma DwordHolds(n: nat)
    requires n < 0x1_0000_0000
    ensures Holds(Dword(n), n)
  {
    hide Dword, ToInt;
    DwordRoundTrip(n);
  }

  /** The characters of a signature. */
  predicate Spelt(bytes: seq<byte>, text: string) {
    |bytes| == |text| && forall i :: 0 <= i < |text| ==> ToInt(bytes[i]) == text[i] as int
  }

  lemma SignaturesAreSpelt()
    ensures Spelt(SPDLOG, "SPDLOG") && Spelt(LOGDAT, "LOGDAT")
  {
  }

  // ----- where the records stand -----

  /** Four fields of a record without its number. */
  predicate HoldsBody(bytes: seq<byte>, r: LogRecord) {
    && |bytes| == 16 && Holds(bytes[0..4], r.msg_id) && Holds(bytes[4..8], r.station_id)
    && Holds(bytes[8..12], r.device_id) && Holds(bytes[12..16], r.record_time)
  }

  lemma BodyHolds(r: LogRecord)
    ensures HoldsBody(RecordBody(r), r)
  {
    hide Long, Holds;
    FieldsComeBack(Long(r.msg_id), Long(r.station_id), Long(r.device_id), Long(r.record_time), []);
    assert Long(r.msg_id) + Long(r.station_id) + Long(r.device_id) + Long(r.record_time) + [] == RecordBody(r);
    LongHolds(r.msg_id);
    LongHolds(r.station_id);
    LongHolds(r.device_id);
    LongHolds(r.record_time);
    assert RecordBody(r)[0..4] == RecordBody(r)[..4];
  }

  lemma {:induction false} RecordAt(s: seq<LogRecord>, i: nat)
    requires i < |s|
    ensures |RecordsBytes(s)| == 20 * |s| && RecordsBytes(s)[20 * i..20 * i + 20] == RecordBytes(s[i])
  {
    hide RecordBytes;
    var n := |s| - 1;
    assert |RecordsBytes(s[..n])| == 20 * n by {
      if n > 0 {
        RecordAt(s[..n], 0);
      }
    }
    if i < n {
      RecordAt(s[..n], i);
    }
  }

  lemma {:induction false} BodyAt(s: seq<LogRecord>, i: nat)
    requires i < |s|
    ensures |BodiesBytes(s)| == 16 * |s| && BodiesBytes(s)[16 * i..16 * i + 16] == RecordBody(s[i])
  {
    hide RecordBody;
    assert |BodiesBytes(s[1..])| == 16 * (|s| - 1) by {
      if |s| > 1 {
        BodyAt(s[1..], 0);
      }
    }
    if i > 0 {
      BodyAt(s[1..], i - 1);
    }
  }

  lemma Behind<T>(head: seq<T>, tail: seq<T>, a: nat, b: nat)
    requires a <= b <= |tail|
    ensures (head + tail)[|head| + a..|head| + b] == tail[a..b]
  {
  }

  /** A saved log: SPDLOG, the number of records in 32 bits, and 20 bytes for each. */
  lemma SavedLayout(s: seq<LogRecord>, i: nat)
    requires i < |s|
    ensures var file := FileBytes(s);
      && |file| == 10 + 20 * |s| && Spelt(file[..6], "SPDLOG") && Holds(file[6..10], |s| % 4294967296)
      && Holds(file[10 + 20 * i..14 + 20 * i], s[i].id) && HoldsBody(file[14 + 20 * i..30 + 20 * i], s[i])
  {
    hide Dword, RecordsBytes, RecordBody, Holds, HoldsBody, Spelt, Long, SPDLOG, LOGDAT;
    Signatures();
    SignaturesAreSpelt();
    HeaderComesBack(SPDLOG, Dword(|s| % 4294967296), RecordsBytes(s));
    DwordHolds(|s| % 4294967296);
    RecordAt(s, i);
    BodyHolds(s[i]);
    LongHolds(s[i].id);
    var head := SPDLOG + Dword(|s| % 4294967296);
    var at := RecordsBytes(s)[20 * i..20 * i + 20];
    Behind(head, RecordsBytes(s), 20 * i, 20 * i + 4);
    Behind(head, RecordsBytes(s), 20 * i + 4, 20 * i + 20);
    assert at[..4] == Long(s[i].id) && at[4..] == RecordBody(s[i]);
    assert RecordsBytes(s)[20 * i..20 * i + 4] == at[..4];
    assert RecordsBytes(s)[20 * i + 4..20 * i + 20] == at[4..];
  }

  /** A log of the old format: LOGDAT, the number of records in 32 bits, and 16 bytes for each, which has no number. */
  lemma LegacyLayout(s: seq<LogRecord>, i: nat)
    requires i < |s|
    ensures var file := LegacyBytes(s);
      && |file| == 10 + 16 * |s| && Spelt(file[..6], "LOGDAT") && Holds(file[6..10], |s| % 4294967296)
      && HoldsBody(file[10 + 16 * i..26 + 16 * i], s[i])
  {
    hide Dword, BodiesBytes, RecordBody, Holds, HoldsBody, Spelt, SPDLOG, LOGDAT;
    Signatures();
    SignaturesAreSpelt();
    HeaderComesBack(LOGDAT, Dword(|s| % 4294967296), BodiesBytes(s));
    DwordHolds(|s| % 4294967296);
    BodyAt(s, i);
    BodyHolds(s[i]);
    Behind(LOGDAT + Dword(|s| % 4294967296), BodiesBytes(s), 16 * i, 16 * i + 16);
  }

  // ----- who names the type of a message -----

  /** The type of the device, if it is one at all, gives the message a type of its own. */
  ghost predicate DeviceNames(d: Dictionaries, msg_id: int32, device_id: int32, t: int32) {
    && t != 0 && device_id != 0 && device_id in d.deviceTypes && d.deviceTypes[device_id] in d.typeMessages
    && var own := d.typeMessages[d.deviceTypes[device_id]];
       msg_id % 32768 in own && own[msg_id % 32768] == t
  }

  /** Only for a message that the type of its device does not name, the general dictionary is asked, by the whole id. */
  ghost predicate Names(d: Dictionaries, msg_id: int32, device_id: int32, t: int32) {
    || DeviceNames(d, msg_id, device_id, t)
    || ((forall u: int32 :: !DeviceNames(d, msg_id, device_id, u)) && msg_id in d.messages && d.messages[msg_id] == t)
  }

  lemma TypeIsNamed(d: Dictionaries, msg_id: int32, device_id: int32, t: int32)
    ensures Names(d, msg_id, device_id, t) <==> MessageType(d, msg_id, device_id) == Some(t)
  {
    var special := DeviceMessageType(d, msg_id, device_id);
    if special != 0 {
      assert DeviceNames(d, msg_id, device_id, special);
    }
  }

  /** Whatever file is loaded, each record has the type that the dictionaries name. */
  lemma LoadedTypesAreNamed(d: Dictionaries, count: int32, file: seq<byte>, i: nat)
    requires i < |Load(d, count, file).records|
    ensures var r := Load(d, count, file).records[i];
      Names(d, r.msg_id, r.device_id, r.msg_type)
  {
    hide MessageType, ReadRecords, DwordFrom, AllKnown, SPDLOG, LOGDAT, Names;
    ReadRecordsAreKnown(d, file[..6] != LOGDAT, count, file[10..], DwordFrom(file[6..10]));
    var r := Load(d, count, file).records[i];
    assert Known(d, r) by {
      KnownAt(d, Load(d, count, file).records, i);
    }
    TypeIsNamed(d, r.msg_id, r.device_id, r.msg_type);
  }

  lemma KnownAt(d: Dictionaries, s: seq<LogRecord>, i: nat)
    requires AllKnown(d, s) && i < |s|
    ensures Known(d, s[i])
  {
  }

  /** Records behind one that the dictionaries do not know are not loaded, nor is this one. */
  lemma UnknownStopsTheLoad(d: Dictionaries, count: int32, a: seq<LogRecord>, r: LogRecord, b: seq<LogRecord>)
    requires |a + [r] + b| < 0x1_0000_0000 && AllKnown(d, a)
    requires forall t: int32 :: !Names(d, r.msg_id, r.device_id, t)
    ensures Load(d, count, FileBytes(a + [r] + b)) == Loaded(false, a, LastId(a, count))
  {
    hide Load, FileBytes, Names, ReadBack, AllKnown, MessageType;
    SavedIsReadBack(d, count, a + [r] + b);
    var t := MessageType(d, r.msg_id, r.device_id);
    if t.Some? {
      TypeIsNamed(d, r.msg_id, r.device_id, t.value);
    }
    UnknownStops(d, count, a, r, b);
  }

  lemma {:induction false} UnknownStops(
    d: Dictionaries, count: int32, a: seq<LogRecord>, r: LogRecord, b: seq<LogRecord>)
    requires AllKnown(d, a) && MessageType(d, r.msg_id, r.device_id) == None
    ensures ReadBack(d, count, a + [r] + b) == Loaded(false, a, LastId(a, count))
    decreases |a|
  {
    hide MessageType, AllKnown;
    if |a| == 0 {
      assert (a + [r] + b)[0] == r;
    } else {
      AllKnownFirst(d, a);
      assert (a + [r] + b)[1..] == a[1..] + [r] + b && (a + [r] + b)[0] == a[0];
      UnknownStops(d, a[0].id, a[1..], r, b);
      assert a == [a[0]] + a[1..];
    }
  }

  // ----- files that end too early, and files that are none -----

  /** A file without one of the two signatures loads nothing and fails. */
  lemma UnsignedFails(d: Dictionaries, count: int32, file: seq<byte>)
    requires |file| < 6 || (!Spelt(file[..6], "SPDLOG") && !Spelt(file[..6], "LOGDAT"))
    ensures Load(d, count, file) == Loaded(false, [], count)
  {
    hide Spelt;
    SignaturesAreSpelt();
  }

  lemma {:induction false} CutRecords(d: Dictionaries, count: int32, s: seq<LogRecord>, m: nat)
    requires m <= |RecordsBytes(s)|
    ensures var part := ReadBack(d, count, s[..Whole(m, |s|)]);
      ReadRecords(d, true, count, RecordsBytes(s)[..m], |s|) ==
        Loaded(part.ok && m / 20 >= |s|, part.records, part.count)
    decreases |s|
  {
    hide MessageType, ReadRecord, RecordsBytes, RecordBytes, Whole;
    if |s| == 0 {
      assert s[..Whole(m, |s|)] == [] by {
        WholeIs(m, |s|);
      }
    } else if m < 20 {
      WholeIs(m, |s|);
      assert s[..0] == [];
      ShortRecord(d, count, RecordsBytes(s)[..m]);
    } else {
      var n, rest := Whole(m, |s|), Whole(m - 20, |s| - 1);
      WholeIs(m, |s|);
      WholeIs(m - 20, |s| - 1);
      FirstRecordFirst(s);
      Behind(RecordBytes(s[0]), RecordsBytes(s[1..]), 0, m - 20);
      assert RecordsBytes(s)[..m] == RecordBytes(s[0]) + RecordsBytes(s[1..])[..m - 20];
      RecordComesBack(d, count, s[0], RecordsBytes(s[1..])[..m - 20]);
      CutRecords(d, s[0].id, s[1..], m - 20);
      assert s[..n][1..] == s[1..][..rest] && s[..n][0] == s[0];
    }
  }

  /** How many of n records are whole in m bytes. */
  function Whole(m: nat, n: nat): nat { if m / 20 < n then m / 20 else n }

  lemma WholeIs(m: nat, n: nat)
    ensures m / 20 < n ==> Whole(m, n) == m / 20
    ensures m / 20 >= n ==> Whole(m, n) == n
  {
  }

  lemma ShortRecord(d: Dictionaries, count: int32, bytes: seq<byte>)
    requires |bytes| < 20
    ensures ReadRecord(d, true, count, bytes) == None
  {
  }

  lemma CutHeader(file: seq<byte>, m: nat)
    requires 10 <= m <= |file|
    ensures file[..m][..6] == file[..6] && file[..m][6..10] == file[6..10] && file[..m][10..] == file[10..][..m - 10]
  {
  }

  /** A saved file that was cut anywhere: what is whole is loaded, and the load tells that something is missing unless
      the cut lies in the number of records. */
  lemma CutFile(d: Dictionaries, count: int32, s: seq<LogRecord>, m: nat)
    requires |s| < 0x1_0000_0000 && m <= |FileBytes(s)|
    ensures Load(d, count, FileBytes(s)[..m]) ==
      if m < 6 then Loaded(false, [], count)
      else if m < 10 then Loaded(true, [], count)
      else
        var part := ReadBack(d, count, s[..Whole(m - 10, |s|)]);
        Loaded(part.ok && (m - 10) / 20 >= |s|, part.records, part.count)
  {
    hide Dword, DwordFrom, RecordsBytes, ReadRecords, ReadBack, Whole, SPDLOG, LOGDAT;
    Signatures();
    var file := FileBytes(s);
    HeaderComesBack(SPDLOG, Dword(|s|), RecordsBytes(s));
    DwordRoundTrip(|s|);
    if m >= 10 {
      CutHeader(file, m);
      CutRecords(d, count, s, m - 10);
    } else if m >= 6 {
      assert file[..m][..6] == file[..6];
    }
  }
}
