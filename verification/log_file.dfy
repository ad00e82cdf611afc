/** The two file formats of the log, and the way back from bytes to records. */
module LogFiles {
  import opened Bytes
  import opened Collections
  import opened LogRecords

  const SPDLOG: seq<byte> := [0x53, 0x50, 0x44, 0x4C, 0x4F, 0x47]
  const LOGDAT: seq<byte> := [0x4C, 0x4F, 0x47, 0x44, 0x41, 0x54]

  // ----- four bytes, lowest first -----

  function Dword(n: nat): (s: seq<byte>)
    ensures |s| == 4
  {
    [ToByte(n), ToByte(n / 0x100), ToByte(n / 0x100 / 0x100), ToByte(n / 0x100 / 0x100 / 0x100)]
  }

  function DwordFrom(s: seq<byte>): (n: nat)
    requires |s| == 4
    ensures n < 0x1_0000_0000
  {
    ToInt(s[0]) + 0x100 * ToInt(s[1]) + 0x1_0000 * ToInt(s[2]) + 0x100_0000 * ToInt(s[3])
  }

  function Long(n: int32): (s: seq<byte>)
    ensures |s| == 4
  {
    Dword(if n < 0 then n + 0x1_0000_0000 else n)
  }

  function LongFrom(s: seq<byte>): int32
    requires |s| == 4
  {
    var n := DwordFrom(s);
    if n < 0x8000_0000 then n else n - 0x1_0000_0000
  }

  lemma DwordRoundTrip(n: nat)
    requires n < 0x1_0000_0000
    ensures DwordFrom(Dword(n)) == n
  {
    hide ToByte, ToInt;
    LowByte(n);
    LowByte(n / 0x100);
    LowByte(n / 0x100 / 0x100);
    LowByte(n / 0x100 / 0x100 / 0x100);
    FourDigits(n);
  }

  lemma FourDigits(n: nat)
    requires n < 0x1_0000_0000
    ensures var a := n / 0x100;
      var b := a / 0x100;
      var c := b / 0x100;
      n == n % 0x100 + 0x100 * (a % 0x100) + 0x1_0000 * (b % 0x100) + 0x100_0000 * (c % 0x100)
  {
  }

  lemma LowByte(n: nat)
    ensures ToInt(ToByte(n)) == n % 0x100
  {
    LowBitsOnly(n);
    ByteRoundTrip(n % 0x100);
  }

  lemma LongRoundTrip(n: int32)
    ensures LongFrom(Long(n)) == n
  {
    hide DwordFrom, Dword;
    DwordRoundTrip(if n < 0 then n + 0x1_0000_0000 else n);
  }

  // ----- dictionaries -----

  /** Types of the devices, messages of the device types, and the general message dictionary. */
  datatype Dictionaries = Dictionaries(
    deviceTypes: map<int32, int32>,
    typeMessages: map<int32, map<int32, int32>>,
    messages: map<int32, int32>)

  /** The type that the type of the device gives to a message, 0 if it does not know it. */
  function DeviceMessageType(d: Dictionaries, msg_id: int32, device_id: int32): int32 {
    if device_id == 0 || device_id !in d.deviceTypes || d.deviceTypes[device_id] !in d.typeMessages then 0
    else
      var known := d.typeMessages[d.deviceTypes[device_id]];
      if msg_id % 0x8000 in known then known[msg_id % 0x8000] else 0
  }

  function MessageType(d: Dictionaries, msg_id: int32, device_id: int32): Option<int32> {
    var special := DeviceMessageType(d, msg_id, device_id);
    if special != 0 then Some(special)
    else if msg_id in d.messages then Some(d.messages[msg_id])
    else None
  }

  /** The dictionaries give the record the type that it has. */
  predicate Known(d: Dictionaries, r: LogRecord) {
    MessageType(d, r.msg_id, r.device_id) == Some(r.msg_type)
  }

  // ----- writing -----

  function RecordBody(r: LogRecord): (s: seq<byte>)
    ensures |s| == 16
  {
    Long(r.msg_id) + Long(r.station_id) + Long(r.device_id) + Long(r.record_time)
  }

  function RecordBytes(r: LogRecord): (s: seq<byte>)
    ensures |s| == 20
  {
    Long(r.id) + RecordBody(r)
  }

  function RecordsBytes(s: seq<LogRecord>): seq<byte> {
    if |s| == 0 then [] else RecordsBytes(s[..|s| - 1]) + RecordBytes(s[|s| - 1])
  }

  /** The number of records is kept in 32 bits. */
  function FileBytes(s: seq<LogRecord>): seq<byte> {
    SPDLOG + Dword(|s| % 0x1_0000_0000) + RecordsBytes(s)
  }

  // ----- reading -----

  datatype Reading = Reading(record: LogRecord, rest: seq<byte>)

  /** One record: its number from the file, or the next one; its type from the dictionaries. */
  function ReadRecord(d: Dictionaries, numbered: bool, count: int32, bytes: seq<byte>): Option<Reading> {
    var start := if numbered then 4 else 0;
    if |bytes| < start + 16 || (!numbered && count == 0x7FFF_FFFF) then None
    else
      var id := if numbered then LongFrom(bytes[..4]) else count + 1;
      var msg_id := LongFrom(bytes[start..start + 4]);
      var station_id := LongFrom(bytes[start + 4..start + 8]);
      var device_id := LongFrom(bytes[start + 8..start + 12]);
      var record_time := LongFrom(bytes[start + 12..start + 16]);
      match MessageType(d, msg_id, device_id)
      case None => None
      case Some(msg_type) =>
        Some(Reading(LogRecord(id, msg_id, msg_type, station_id, device_id, record_time), bytes[start + 16..]))
  }

  /** What is in the log after a load, whether it ended well, and the counter of records. */
  datatype Loaded = Loaded(ok: bool, records: seq<LogRecord>, count: int32)

  function ReadRecords(d: Dictionaries, numbered: bool, count: int32, bytes: seq<byte>, size: nat): Loaded
    decreases size
  {
    if size == 0 then Loaded(true, [], count)
    else
      match ReadRecord(d, numbered, count, bytes)
      case None => Loaded(false, [], count)
      case Some(r) =>
        var more := ReadRecords(d, numbered, r.record.id, r.rest, size - 1);
        Loaded(more.ok, [r.record] + more.records, more.count)
  }

  /** A file that ends inside its size counts as empty; anything else that is short, unsigned
      or unknown to the dictionaries ends the load with what has been read. */
  function Load(d: Dictionaries, count: int32, file: seq<byte>): Loaded {
    if |file| < 6 || (file[..6] != SPDLOG && file[..6] != LOGDAT) then Loaded(false, [], count)
    else if |file| < 10 then Loaded(true, [], count)
    else ReadRecords(d, file[..6] != LOGDAT, count, file[10..], DwordFrom(file[6..10]))
  }

  // ----- there and back -----

  lemma FieldsComeBack(a: seq<byte>, b: seq<byte>, c: seq<byte>, e: seq<byte>, tail: seq<byte>)
    requires |a| == |b| == |c| == |e| == 4
    ensures var s := a + b + c + e + tail;
      s[..4] == a && s[4..8] == b && s[8..12] == c && s[12..16] == e && s[16..] == tail
  {
  }

  lemma BodyComesBack(d: Dictionaries, count: int32, r: LogRecord, tail: seq<byte>)
    requires count < 0x7FFF_FFFF
    ensures ReadRecord(d, false, count, RecordBody(r) + tail) ==
      match MessageType(d, r.msg_id, r.device_id)
      case None => None
      case Some(msg_type) => Some(Reading(r.(id := count + 1, msg_type := msg_type), tail))
  {
    hide Long, LongFrom, MessageType;
    FieldsComeBack(Long(r.msg_id), Long(r.station_id), Long(r.device_id), Long(r.record_time), tail);
    LongRoundTrip(r.msg_id);
    LongRoundTrip(r.station_id);
    LongRoundTrip(r.device_id);
    LongRoundTrip(r.record_time);
  }

  lemma RecordComesBack(d: Dictionaries, count: int32, r: LogRecord, tail: seq<byte>)
    ensures ReadRecord(d, true, count, RecordBytes(r) + tail) ==
      match MessageType(d, r.msg_id, r.device_id)
      case None => None
      case Some(msg_type) => Some(Reading(r.(msg_type := msg_type), tail))
  {
    hide Long, LongFrom, MessageType;
    var bytes := RecordBytes(r) + tail;
    assert bytes[..4] == Long(r.id) && bytes[4..] == RecordBody(r) + tail;
    FieldsComeBack(Long(r.msg_id), Long(r.station_id), Long(r.device_id), Long(r.record_time), tail);
    Shifted(bytes, 4, 0);
    Shifted(bytes, 4, 4);
    Shifted(bytes, 4, 8);
    Shifted(bytes, 4, 12);
    assert bytes[4..][16..] == bytes[20..];
    LongRoundTrip(r.id);
    LongRoundTrip(r.msg_id);
    LongRoundTrip(r.station_id);
    LongRoundTrip(r.device_id);
    LongRoundTrip(r.record_time);
  }

  lemma Shifted<T>(s: seq<T>, start: nat, at: nat)
    requires start + at + 4 <= |s|
    ensures s[start..][at..at + 4] == s[start + at..start + at + 4]
  {
  }

  /** What a load of the saved list gives: the types come from the dictionaries, an unknown message ends it. */
  function ReadBack(d: Dictionaries, count: int32, s: seq<LogRecord>): Loaded
    decreases |s|
  {
    if |s| == 0 then Loaded(true, [], count)
    else
      match MessageType(d, s[0].msg_id, s[0].device_id)
      case None => Loaded(false, [], count)
      case Some(msg_type) =>
        var more := ReadBack(d, s[0].id, s[1..]);
        Loaded(more.ok, [s[0].(msg_type := msg_type)] + more.records, more.count)
  }

  lemma {:induction false} FirstRecordFirst(s: seq<LogRecord>)
    requires |s| > 0
    ensures RecordsBytes(s) == RecordBytes(s[0]) + RecordsBytes(s[1..])
  {
    hide RecordBytes;
    if |s| == 1 {
      assert s[..0] == [] && s[1..] == [];
    } else {
      var front, last := s[..|s| - 1], s[|s| - 1];
      FirstRecordFirst(front);
      assert s[1..][..|s| - 2] == front[1..];
      Associate(RecordBytes(s[0]), RecordsBytes(front[1..]), RecordBytes(last));
    }
  }

  lemma {:induction false} RecordsComeBack(d: Dictionaries, count: int32, s: seq<LogRecord>)
    ensures ReadRecords(d, true, count, RecordsBytes(s), |s|) == ReadBack(d, count, s)
    decreases |s|
  {
    hide MessageType, ReadRecord, RecordsBytes, RecordBytes;
    if |s| > 0 {
      FirstRecordFirst(s);
      RecordComesBack(d, count, s[0], RecordsBytes(s[1..]));
      RecordsComeBack(d, s[0].id, s[1..]);
    }
  }

  lemma Signatures()
    ensures SPDLOG != LOGDAT && |SPDLOG| == |LOGDAT| == 6
  {
    assert SPDLOG[0] != LOGDAT[0];
  }

  lemma HeaderComesBack(signature: seq<byte>, size: seq<byte>, tail: seq<byte>)
    requires |signature| == 6 && |size| == 4
    ensures var file := signature + size + tail;
      file[..6] == signature && file[6..10] == size && file[10..] == tail
  {
  }

  /** Loading a saved log: every record in its order, typed anew by the dictionaries. */
  lemma SavedIsReadBack(d: Dictionaries, count: int32, s: seq<LogRecord>)
    requires |s| < 0x1_0000_0000
    ensures Load(d, count, FileBytes(s)) == ReadBack(d, count, s)
  {
    hide Dword, DwordFrom, RecordsBytes, ReadRecords, ReadBack, SPDLOG, LOGDAT;
    Signatures();
    HeaderComesBack(SPDLOG, Dword(|s|), RecordsBytes(s));
    DwordRoundTrip(|s|);
    RecordsComeBack(d, count, s);
  }

  predicate AllKnown(d: Dictionaries, s: seq<LogRecord>) {
    forall i :: 0 <= i < |s| ==> Known(d, s[i])
  }

  function LastId(s: seq<LogRecord>, count: int32): int32 {
    if |s| == 0 then count else s[|s| - 1].id
  }

  lemma AllKnownFirst(d: Dictionaries, s: seq<LogRecord>)
    requires |s| > 0
    ensures AllKnown(d, s) <==> Known(d, s[0]) && AllKnown(d, s[1..])
  {
    hide Known;
  }

  lemma ReadBackFirst(d: Dictionaries, count: int32, s: seq<LogRecord>)
    requires |s| > 0
    ensures Known(d, s[0]) ==>
      var more := ReadBack(d, s[0].id, s[1..]);
      ReadBack(d, count, s) == Loaded(more.ok, [s[0]] + more.records, more.count)
    ensures !Known(d, s[0]) && |ReadBack(d, count, s).records| > 0 ==> ReadBack(d, count, s).records[0] != s[0]
  {
    hide MessageType;
  }

  lemma {:induction false} ReadBackIsTheSameIff(d: Dictionaries, count: int32, s: seq<LogRecord>)
    ensures (ReadBack(d, count, s) == Loaded(true, s, LastId(s, count))) <==> AllKnown(d, s)
    decreases |s|
  {
    hide ReadBack, AllKnown, Known;
    if |s| == 0 {
      NothingUnknown(d);
      assert ReadBack(d, count, s) == Loaded(true, [], count) by {
        NothingReadBack(d, count);
      }
    } else {
      var rest := s[1..];
      assert s == [s[0]] + rest && LastId(rest, s[0].id) == LastId(s, count);
      ReadBackIsTheSameIff(d, s[0].id, rest);
      AllKnownFirst(d, s);
      ReadBackFirst(d, count, s);
      var back := ReadBack(d, s[0].id, rest);
      assert ([s[0]] + back.records)[1..] == back.records;
      CountIsLastId(d, s[0].id, rest);
    }
  }

  lemma NothingReadBack(d: Dictionaries, count: int32)
    ensures ReadBack(d, count, []) == Loaded(true, [], count)
  {
  }

  lemma {:induction false} CountIsLastId(d: Dictionaries, count: int32, s: seq<LogRecord>)
    ensures ReadBack(d, count, s).count == LastId(ReadBack(d, count, s).records, count)
    decreases |s|
  {
    hide MessageType;
    if |s| > 0 {
      CountIsLastId(d, s[0].id, s[1..]);
    }
  }

  /** A saved log comes back whole, hidden records and all, with the last id on the counter,
      exactly when every record has the type the dictionaries give it. */
  lemma LoadAfterSave(d: Dictionaries, count: int32, s: seq<LogRecord>)
    requires |s| < 0x1_0000_0000
    ensures (Load(d, count, FileBytes(s)) == Loaded(true, s, LastId(s, count))) <==> AllKnown(d, s)
  {
    hide Load, FileBytes, ReadBack;
    SavedIsReadBack(d, count, s);
    ReadBackIsTheSameIff(d, count, s);
  }

  lemma {:induction false} ReadRecordsAreKnown(d: Dictionaries, numbered: bool, count: int32, bytes: seq<byte>,
                                               size: nat)
    ensures var l := ReadRecords(d, numbered, count, bytes, size);
      |l.records| <= size && AllKnown(d, l.records) && l.count == LastId(l.records, count)
    decreases size
  {
    hide MessageType, LongFrom;
    if size > 0 {
      var r := ReadRecord(d, numbered, count, bytes);
      if r.Some? {
        ReadRecordsAreKnown(d, numbered, r.value.record.id, r.value.rest, size - 1);
      }
    }
  }

  /** Whatever file was loaded, in the old format or the new, whole or broken:
      saving what came out and loading that gives the same log again. */
  lemma LoadSaveLoad(d: Dictionaries, count: int32, file: seq<byte>)
    ensures var l := Load(d, count, file);
      Load(d, count, FileBytes(l.records)) == Loaded(true, l.records, l.count)
  {
    hide MessageType, ReadRecords, FileBytes, DwordFrom, AllKnown, SPDLOG, LOGDAT;
    var l := Load(d, count, file);
    assert AllKnown(d, []) by {
      NothingUnknown(d);
    }
    if |file| >= 10 {
      ReadRecordsAreKnown(d, file[..6] != LOGDAT, count, file[10..], DwordFrom(file[6..10]));
    }
    LoadAfterSave(d, count, l.records);
  }

  lemma NothingUnknown(d: Dictionaries)
    ensures AllKnown(d, [])
  {
  }

  // ----- the old format -----

  function BodiesBytes(s: seq<LogRecord>): seq<byte> {
    if |s| == 0 then [] else RecordBody(s[0]) + BodiesBytes(s[1..])
  }

  /** A file of the old format, which has no numbers. */
  function LegacyBytes(s: seq<LogRecord>): seq<byte> {
    LOGDAT + Dword(|s| % 0x1_0000_0000) + BodiesBytes(s)
  }

  /** The same records numbered on from the counter. */
  function Renumbered(s: seq<LogRecord>, count: int32): seq<LogRecord>
    requires count + |s| <= 0x7FFF_FFFF
    decreases |s|
  {
    if |s| == 0 then [] else [s[0].(id := count + 1)] + Renumbered(s[1..], count + 1)
  }

  lemma {:induction false} NumbersAreConsecutive(s: seq<LogRecord>, count: int32, i: nat)
    requires count + |s| <= 0x7FFF_FFFF && i < |s|
    ensures |Renumbered(s, count)| == |s| && Renumbered(s, count)[i] == s[i].(id := count + 1 + i)
    decreases |s|
  {
    if |s| > 1 {
      NumbersAreConsecutive(s[1..], count + 1, if i > 0 then i - 1 else 0);
    }
  }

  lemma {:induction false} BodiesComeBack(d: Dictionaries, count: int32, s: seq<LogRecord>)
    requires count + |s| <= 0x7FFF_FFFF
    ensures ReadRecords(d, false, count, BodiesBytes(s), |s|) == ReadBack(d, count, Renumbered(s, count))
    decreases |s|
  {
    hide MessageType, ReadRecord, RecordBody;
    if |s| > 0 {
      BodyComesBack(d, count, s[0], BodiesBytes(s[1..]));
      BodiesComeBack(d, count + 1, s[1..]);
      assert Renumbered(s, count)[1..] == Renumbered(s[1..], count + 1);
    }
  }

  /** An old file loads as if the same records, numbered on from the counter, had been saved in the new format. */
  lemma LegacyLoadsLikeNew(d: Dictionaries, count: int32, s: seq<LogRecord>)
    requires count + |s| <= 0x7FFF_FFFF
    ensures Load(d, count, LegacyBytes(s)) == Load(d, count, FileBytes(Renumbered(s, count)))
  {
    hide Dword, DwordFrom, BodiesBytes, ReadRecords, ReadBack, SPDLOG, LOGDAT;
    Signatures();
    HeaderComesBack(LOGDAT, Dword(|s|), BodiesBytes(s));
    DwordRoundTrip(|s|);
    BodiesComeBack(d, count, s);
    if |s| > 0 {
      NumbersAreConsecutive(s, count, 0);
    }
    SavedIsReadBack(d, count, Renumbered(s, count));
  }
}
