/** The binary lap decoder (src/parsers/parsers.py, `_decode_binary_laps`):
    base64 text holding consecutive 52-byte little-endian records of
    thirteen 32-bit words, one record per lap, turned into `LapData`
    sorted by lap number. */
module BinaryLaps {
  import opened Wrappers
  import opened Base64
  import opened Models
  import opened TimeCodec
  import opened StableSort

  const RecordSize := 52

  /** A recorded lap time at or above this (ten minutes) is not trusted. */
  const LapTimeLimit := 600000

  const TwoTo31 := 0x8000_0000
  const TwoTo32 := 0x1_0000_0000

  /** `struct.unpack('<I', b[off:off+4])`. */
  function UInt32LE(b: seq<Byte>, off: nat): (v: int)
    requires off + 4 <= |b|
    ensures 0 <= v < TwoTo32
  {
    (b[off] as int) + 0x100 * (b[off + 1] as int) + 0x1_0000 * (b[off + 2] as int)
      + 0x100_0000 * (b[off + 3] as int)
  }

  /** `struct.unpack('<i', b[off:off+4])`: the same bits read as two's complement. */
  function Int32LE(b: seq<Byte>, off: nat): (v: int)
    requires off + 4 <= |b|
    ensures -TwoTo31 <= v < TwoTo31
  {
    var u := UInt32LE(b, off);
    if u >= TwoTo31 then u - TwoTo32 else u
  }

  /** The four little-endian bytes of `v` taken modulo 2^32: how both
      `struct.pack('<i', v)` and `struct.pack('<I', v)` lay out a value in
      their range. */
  function EncodeWord(v: int): (w: seq<Byte>)
    ensures |w| == 4
  {
    var u := v % TwoTo32;
    var q1 := u / 0x100;
    var q2 := q1 / 0x100;
    [u % 0x100, q1 % 0x100, q2 % 0x100, q2 / 0x100]
  }

  /** `r` and `q` are the remainder and quotient of `x` by 256. */
  lemma ByteSplit(x: int, r: int, q: int)
    requires 0 <= r < 0x100 && x == r + 0x100 * q
    ensures x % 0x100 == r && x / 0x100 == q
  {
  }

  /** Reading a word back gives the value modulo 2^32 unsigned, and the
      value itself signed when it is a 32-bit signed integer. */
  lemma WordRoundTrip(v: int)
    ensures UInt32LE(EncodeWord(v), 0) == v % TwoTo32
    ensures -TwoTo31 <= v < TwoTo31 ==> Int32LE(EncodeWord(v), 0) == v
  {
    var u := v % TwoTo32;
    var q1 := u / 0x100;
    var q2 := q1 / 0x100;
    assert u == u % 0x100 + 0x100 * q1;
    assert q1 == q1 % 0x100 + 0x100 * q2;
    assert q2 == q2 % 0x100 + 0x100 * (q2 / 0x100);
    assert q2 / 0x100 < 0x100;
    assert UInt32LE(EncodeWord(v), 0) == u;
  }

  /** Any four bytes are the encoding of the word they hold. */
  lemma WordBytes(b: seq<Byte>, off: nat)
    requires off + 4 <= |b|
    ensures EncodeWord(Int32LE(b, off)) == b[off..off + 4]
    ensures EncodeWord(UInt32LE(b, off)) == b[off..off + 4]
  {
    var u := UInt32LE(b, off);
    var b0, b1, b2, b3 := b[off] as int, b[off + 1] as int, b[off + 2] as int, b[off + 3] as int;
    var q2 := b2 + 0x100 * b3;
    var q1 := b1 + 0x100 * q2;
    assert u == b0 + 0x100 * q1;
    ByteSplit(u, b0, q1);
    ByteSplit(q1, b1, q2);
    ByteSplit(q2, b2, b3);
    assert Int32LE(b, off) % TwoTo32 == u;
    assert u % TwoTo32 == u;
    assert EncodeWord(u) == [b0, b1, b2, b3];
  }

  /** The thirteen words of one record, in wire order. */
  datatype LapRecord = LapRecord(
    competitorId: int, lapId: int, lapNumber: int, raceLapNumber: int, lapPos: int,
    sector1: int, sector2: int, sector3: int, lapTimeMs: int,
    timestampLow: int, timestampHigh: int, lapFlags: int, sector4: int)

  /** Reads the record that starts at `off`. */
  function ReadRecord(b: seq<Byte>, off: nat): (r: LapRecord)
    requires off + RecordSize <= |b|
    ensures InRange(r)
  {
    LapRecord(
      Int32LE(b, off), Int32LE(b, off + 4), Int32LE(b, off + 8), Int32LE(b, off + 12),
      Int32LE(b, off + 16), Int32LE(b, off + 20), Int32LE(b, off + 24), Int32LE(b, off + 28),
      Int32LE(b, off + 32), UInt32LE(b, off + 36), UInt32LE(b, off + 40), Int32LE(b, off + 44),
      Int32LE(b, off + 48))
  }

  /** A record read after dropping `d` leading bytes is the record read `d`
      bytes further on. */
  lemma ReadRecordShift(b: seq<Byte>, d: nat, off: nat)
    requires d + off + RecordSize <= |b|
    ensures ReadRecord(b[d..], off) == ReadRecord(b, d + off)
  {
  }

  lemma ReadRecordShiftTo(b: seq<Byte>, d: nat, off: nat, at: nat)
    requires at == d + off && at + RecordSize <= |b|
    ensures ReadRecord(b[d..], off) == ReadRecord(b, at)
  {
    ReadRecordShift(b, d, off);
  }

  /** A record depends only on its own 52 bytes. */
  lemma ReadRecordPrefix(p: seq<Byte>, q: seq<Byte>, off: nat)
    requires off + RecordSize <= |p|
    ensures ReadRecord(p + q, off) == ReadRecord(p, off)
  {
  }

  /** Cuts the bytes into records, one per complete 52-byte block; a
      trailing partial block is ignored. */
  function Records(b: seq<Byte>): (rs: seq<LapRecord>)
    ensures |rs| == |b| / RecordSize
    ensures forall k :: 0 <= k < |rs| ==> rs[k] == ReadRecord(b, RecordSize * k)
    decreases |b|
  {
    if |b| < RecordSize then []
    else
      var rest := Records(b[RecordSize..]);
      ShiftedRecords(b, rest);
      [ReadRecord(b, 0)] + rest
  }

  /** The records read from the bytes after the first block are the
      records read one block further on. */
  lemma ShiftedRecords(b: seq<Byte>, rest: seq<LapRecord>)
    requires |b| >= RecordSize && |rest| == (|b| - RecordSize) / RecordSize
    requires forall k :: 0 <= k < |rest| ==> rest[k] == ReadRecord(b[RecordSize..], RecordSize * k)
    ensures forall k :: 0 < k < |rest| + 1 ==> ([ReadRecord(b, 0)] + rest)[k] == ReadRecord(b, RecordSize * k)
  {
    forall k | 0 < k < |rest| + 1 ensures ([ReadRecord(b, 0)] + rest)[k] == ReadRecord(b, RecordSize * k) {
      ReadRecordShiftTo(b, RecordSize, RecordSize * (k - 1), RecordSize * k);
    }
  }

  predicate InRange(r: LapRecord) {
    && -TwoTo31 <= r.competitorId < TwoTo31 && -TwoTo31 <= r.lapId < TwoTo31
    && -TwoTo31 <= r.lapNumber < TwoTo31 && -TwoTo31 <= r.raceLapNumber < TwoTo31
    && -TwoTo31 <= r.lapPos < TwoTo31 && -TwoTo31 <= r.sector1 < TwoTo31
    && -TwoTo31 <= r.sector2 < TwoTo31 && -TwoTo31 <= r.sector3 < TwoTo31
    && -TwoTo31 <= r.lapTimeMs < TwoTo31 && 0 <= r.timestampLow < TwoTo32
    && 0 <= r.timestampHigh < TwoTo32 && -TwoTo31 <= r.lapFlags < TwoTo31
    && -TwoTo31 <= r.sector4 < TwoTo31
  }

  /** The thirteen words of a record in wire order. */
  function Fields(r: LapRecord): seq<int> {
    [r.competitorId, r.lapId, r.lapNumber, r.raceLapNumber, r.lapPos, r.sector1,
     r.sector2, r.sector3, r.lapTimeMs, r.timestampLow, r.timestampHigh, r.lapFlags,
     r.sector4]
  }

  function Words(ws: seq<int>): (b: seq<Byte>)
    ensures |b| == 4 * |ws|
  {
    if |ws| == 0 then [] else EncodeWord(ws[0]) + Words(ws[1..])
  }

  lemma {:induction false} WordsAt(ws: seq<int>, k: nat)
    requires k < |ws|
    ensures Words(ws)[4 * k..4 * k + 4] == EncodeWord(ws[k])
  {
    if k > 0 {
      WordsAt(ws[1..], k - 1);
      assert Words(ws)[4 * k..4 * k + 4] == Words(ws[1..])[4 * (k - 1)..4 * (k - 1) + 4];
    }
  }

  /** The wire form of a record: its thirteen words in order. */
  function EncodeRecord(r: LapRecord): (b: seq<Byte>)
    ensures |b| == RecordSize
  {
    Words(Fields(r))
  }

  lemma WordAt(b: seq<Byte>, off: nat, v: int)
    requires off + 4 <= |b| && b[off..off + 4] == EncodeWord(v)
    ensures UInt32LE(b, off) == v % TwoTo32
    ensures -TwoTo31 <= v < TwoTo31 ==> Int32LE(b, off) == v
  {
    WordRoundTrip(v);
    assert b[off..off + 4][0] == b[off];
    assert b[off..off + 4][1] == b[off + 1];
    assert b[off..off + 4][2] == b[off + 2];
    assert b[off..off + 4][3] == b[off + 3];
  }

  lemma FieldAt(r: LapRecord, k: nat)
    requires k < 13
    ensures UInt32LE(EncodeRecord(r), 4 * k) == Fields(r)[k] % TwoTo32
    ensures -TwoTo31 <= Fields(r)[k] < TwoTo31 ==> Int32LE(EncodeRecord(r), 4 * k) == Fields(r)[k]
  {
    WordsAt(Fields(r), k);
    WordAt(EncodeRecord(r), 4 * k, Fields(r)[k]);
  }

  /** Reading an encoded record gives the record back: the offsets of the
      reader and of the layout agree. */
  lemma ReadEncodeRecord(r: LapRecord)
    requires InRange(r)
    ensures ReadRecord(EncodeRecord(r), 0) == r
  {
    forall k | 0 <= k < 13 ensures WordOf(EncodeRecord(r), k) == EncodeWord(Fields(r)[k]) {
      WordsAt(Fields(r), k);
    }
    ReadFields(EncodeRecord(r), r);
  }

  /** The `k`-th four-byte word of `b`. */
  function WordOf(b: seq<Byte>, k: nat): seq<Byte>
    requires 4 * k + 4 <= |b|
  {
    b[4 * k..4 * k + 4]
  }

  lemma WordOfAt(b: seq<Byte>, k: nat, off: nat, v: int)
    requires off == 4 * k && off + 4 <= |b| && WordOf(b, k) == EncodeWord(v)
    ensures UInt32LE(b, off) == v % TwoTo32
    ensures -TwoTo31 <= v < TwoTo31 ==> Int32LE(b, off) == v
  {
    WordAt(b, off, v);
  }

  /** Fifty-two bytes whose words are those of `r` read as `r`. */
  lemma ReadFields(b: seq<Byte>, r: LapRecord)
    requires |b| == RecordSize && InRange(r)
    requires forall k :: 0 <= k < 13 ==> WordOf(b, k) == EncodeWord(Fields(r)[k])
    ensures ReadRecord(b, 0) == r
  {
    ReadLeadingFields(b, r);
    ReadTimingFields(b, r);
    ReadStampFields(b, r);
    ReadTrailingFields(b, r);
  }

  /** The first seven words of such bytes. */
  lemma ReadLeadingFields(b: seq<Byte>, r: LapRecord)
    requires |b| == RecordSize && InRange(r)
    requires forall k :: 0 <= k < 13 ==> WordOf(b, k) == EncodeWord(Fields(r)[k])
    ensures Int32LE(b, 0) == r.competitorId && Int32LE(b, 4) == r.lapId
    ensures Int32LE(b, 8) == r.lapNumber && Int32LE(b, 12) == r.raceLapNumber
    ensures Int32LE(b, 16) == r.lapPos && Int32LE(b, 20) == r.sector1
    ensures Int32LE(b, 24) == r.sector2
  {
    WordOfAt(b, 0, 0, Fields(r)[0]);
    WordOfAt(b, 1, 4, Fields(r)[1]);
    WordOfAt(b, 2, 8, Fields(r)[2]);
    WordOfAt(b, 3, 12, Fields(r)[3]);
    WordOfAt(b, 4, 16, Fields(r)[4]);
    WordOfAt(b, 5, 20, Fields(r)[5]);
    WordOfAt(b, 6, 24, Fields(r)[6]);
  }

  /** The third sector and lap time words of such bytes. */
  lemma ReadTimingFields(b: seq<Byte>, r: LapRecord)
    requires |b| == RecordSize && InRange(r)
    requires forall k :: 0 <= k < 13 ==> WordOf(b, k) == EncodeWord(Fields(r)[k])
    ensures Int32LE(b, 28) == r.sector3 && Int32LE(b, 32) == r.lapTimeMs
  {
    WordOfAt(b, 7, 28, Fields(r)[7]);
    WordOfAt(b, 8, 32, Fields(r)[8]);
  }

  /** The two unsigned timestamp words of such bytes. */
  lemma ReadStampFields(b: seq<Byte>, r: LapRecord)
    requires |b| == RecordSize && InRange(r)
    requires forall k :: 0 <= k < 13 ==> WordOf(b, k) == EncodeWord(Fields(r)[k])
    ensures UInt32LE(b, 36) == r.timestampLow && UInt32LE(b, 40) == r.timestampHigh
  {
    WordOfAt(b, 9, 36, Fields(r)[9]);
    WordOfAt(b, 10, 40, Fields(r)[10]);
    assert r.timestampLow % TwoTo32 == r.timestampLow;
    assert r.timestampHigh % TwoTo32 == r.timestampHigh;
  }

  /** The last two words of such bytes. */
  lemma ReadTrailingFields(b: seq<Byte>, r: LapRecord)
    requires |b| == RecordSize && InRange(r)
    requires forall k :: 0 <= k < 13 ==> WordOf(b, k) == EncodeWord(Fields(r)[k])
    ensures Int32LE(b, 44) == r.lapFlags && Int32LE(b, 48) == r.sector4
  {
    WordOfAt(b, 11, 44, Fields(r)[11]);
    WordOfAt(b, 12, 48, Fields(r)[12]);
  }

  function EncodeRecords(rs: seq<LapRecord>): (b: seq<Byte>)
    ensures |b| == RecordSize * |rs|
  {
    if |rs| == 0 then [] else EncodeRecord(rs[0]) + EncodeRecords(rs[1..])
  }

  /** Cutting the wire form of a list of records gives the list back. */
  lemma {:induction false} RecordsOfEncoded(rs: seq<LapRecord>)
    requires forall k :: 0 <= k < |rs| ==> InRange(rs[k])
    ensures Records(EncodeRecords(rs)) == rs
  {
    if |rs| > 0 {
      var b := EncodeRecords(rs);
      RecordsOfEncoded(rs[1..]);
      assert b[RecordSize..] == EncodeRecords(rs[1..]);
      ReadRecordPrefix(EncodeRecord(rs[0]), EncodeRecords(rs[1..]), 0);
      ReadEncodeRecord(rs[0]);
    }
  }

  /** Bytes after the last complete record change nothing. */
  lemma TrailingBytesIgnored(b: seq<Byte>, extra: seq<Byte>)
    requires |b| % RecordSize == 0 && |extra| < RecordSize
    ensures Records(b + extra) == Records(b)
  {
    var rs, rs' := Records(b + extra), Records(b);
    assert |rs| == |rs'|;
    forall k | 0 <= k < |rs| ensures rs[k] == rs'[k] {
      ReadRecordPrefix(b, extra, RecordSize * k);
    }
  }

  /** A sector value is a timing signal only when positive. */
  function Sector(v: int): Option<string> {
    if v > 0 then Some(FormatTime(v)) else None
  }

  /** The lap time a non-start record stands for: the recorded time when it
      is positive and under ten minutes, otherwise the sum of the sectors. */
  function EffectiveLapTime(r: LapRecord): int {
    if 0 < r.lapTimeMs < LapTimeLimit then r.lapTimeMs
    else r.sector1 + r.sector2 + r.sector3 + r.sector4
  }

  /** `o` carries the duration `v` when `v > 0` (as canonical clock text
      that reads back as `v`) and nothing otherwise. */
  predicate Signals(o: Option<string>, v: int) {
    && (o.Some? <==> v > 0)
    && (o.Some? ==> Canonical(o.value) && TimeStringToMs(o.value) == v)
  }

  /** A signal is exactly the `_format_time` text of its duration. */
  lemma SignalsText(o: Option<string>, v: int)
    requires Signals(o, v)
    ensures o == Sector(v)
  {
    if v > 0 {
      FormatTimeCanonical(o.value, v);
    }
  }

  lemma SectorSignals(v: int)
    ensures Signals(Sector(v), v)
  {
    if v > 0 {
      FormatTimeRoundTrip(v);
    }
  }

  /** The `LapData` one record decodes to. The start lap (number 0) has an
      empty lap time and no first sector, whatever its words say. */
  function LapOf(r: LapRecord): (lap: LapData)
    ensures lap.lapNumber == r.lapNumber
    ensures r.lapNumber == 0 ==> lap.lapTime == Some("") && lap.sector1 == None
    ensures r.lapNumber != 0 ==> Signals(lap.lapTime, EffectiveLapTime(r)) && Signals(lap.sector1, r.sector1)
    ensures Signals(lap.sector2, r.sector2) && Signals(lap.sector3, r.sector3)
    ensures Signals(lap.sector4, r.sector4)
  {
    SectorSignals(r.sector1);
    SectorSignals(r.sector2);
    SectorSignals(r.sector3);
    SectorSignals(r.sector4);
    SectorSignals(EffectiveLapTime(r));
    if r.lapNumber == 0 then
      LapData(0, Some(""), None, Sector(r.sector2), Sector(r.sector3), Sector(r.sector4))
    else
      LapData(r.lapNumber, Sector(EffectiveLapTime(r)), Sector(r.sector1),
              Sector(r.sector2), Sector(r.sector3), Sector(r.sector4))
  }

  /** A lap other than the start lap takes the recorded time when it is
      positive and under ten minutes, and the sum of the four sectors
      otherwise; either way only a positive time is shown. */
  lemma LapTimeSource(r: LapRecord)
    requires r.lapNumber != 0
    ensures 0 < r.lapTimeMs < LapTimeLimit ==> Signals(LapOf(r).lapTime, r.lapTimeMs)
    ensures !(0 < r.lapTimeMs < LapTimeLimit) ==>
      Signals(LapOf(r).lapTime, r.sector1 + r.sector2 + r.sector3 + r.sector4)
  {
  }

  function LapNumber(l: LapData): int {
    l.lapNumber
  }

  /** The laps of the records, in blob order. */
  function LapsOf(rs: seq<LapRecord>): (laps: seq<LapData>)
    ensures |laps| == |rs|
    ensures forall k :: 0 <= k < |rs| ==> laps[k] == LapOf(rs[k])
  {
    seq(|rs|, k requires 0 <= k < |rs| => LapOf(rs[k]))
  }

  /** `_decode_binary_laps`: empty text and text that does not decode give
      no laps; otherwise one lap per complete record, stably sorted by lap
      number. */
  function DecodeBinaryLaps(text: string): (laps: seq<LapData>)
    ensures |text| == 0 || Decode(text).None? ==> laps == []
    ensures |text| > 0 && Decode(text).Some? ==> |laps| == |Decode(text).value| / RecordSize
    ensures SortedBy(laps, LapNumber)
  {
    if |text| == 0 then []
    else
      match Decode(text)
      case None => []
      case Some(b) => SortBy(LapsOf(Records(b)), LapNumber)
  }

  /** The decoder's output when the text decodes to `b`: exactly one lap per
      complete 52-byte block, ordered by lap number, with the laps of
      equal number in blob order and none dropped or merged. */
  lemma DecodeBinaryLapsContents(text: string, b: seq<Byte>)
    requires |text| > 0 && Decode(text) == Some(b)
    ensures var laps := DecodeBinaryLaps(text);
      && |laps| == |b| / RecordSize
      && SortedBy(laps, LapNumber)
      && multiset(laps) == multiset(LapsOf(Records(b)))
      && forall n :: KeyFilter(laps, LapNumber, n) == KeyFilter(LapsOf(Records(b)), LapNumber, n)
  {
    forall n ensures KeyFilter(DecodeBinaryLaps(text), LapNumber, n) == KeyFilter(LapsOf(Records(b)), LapNumber, n) {
      SortByStable(LapsOf(Records(b)), LapNumber, n);
    }
  }

  lemma DecodeBinaryLapsOf(text: string, b: seq<Byte>)
    requires |text| > 0 && Decode(text) == Some(b)
    ensures DecodeBinaryLaps(text) == SortBy(LapsOf(Records(b)), LapNumber)
  {
  }

  /** Text that is not base64 gives no laps rather than an error. */
  lemma DecodeFailureGivesNoLaps(text: string)
    requires Decode(text) == None
    ensures DecodeBinaryLaps(text) == []
  {
  }

  /** Every decoded start lap has an empty lap time and no first sector, and
      every decoded lap's sectors carry exactly the positive sector words. */
  lemma DecodedStartLaps(text: string, i: int)
    requires 0 <= i < |DecodeBinaryLaps(text)|
    ensures var l := DecodeBinaryLaps(text)[i];
      l.lapNumber == 0 ==> l.lapTime == Some("") && l.sector1 == None
    ensures exists r :: DecodeBinaryLaps(text)[i] == LapOf(r)
  {
    var r := DecodedRecord(text, i);
  }

  /** The record a decoded lap comes from. */
  lemma DecodedRecord(text: string, i: int) returns (r: LapRecord)
    requires 0 <= i < |DecodeBinaryLaps(text)|
    ensures DecodeBinaryLaps(text)[i] == LapOf(r)
  {
    var b := DecodedBytes(text);
    var unsorted := LapsOf(Records(b));
    assert DecodeBinaryLaps(text)[i] in unsorted by {
      DecodeBinaryLapsOf(text, b);
      SortByMember(unsorted, LapNumber, i);
    }
    r := LapFrom(Records(b), DecodeBinaryLaps(text)[i]);
  }

  lemma LapFrom(rs: seq<LapRecord>, l: LapData) returns (r: LapRecord)
    requires l in LapsOf(rs)
    ensures l == LapOf(r)
  {
    var k :| 0 <= k < |rs| && LapsOf(rs)[k] == l;
    r := rs[k];
  }

  /** Text that gives laps is non-empty base64. */
  lemma DecodedBytes(text: string) returns (b: seq<Byte>)
    requires |DecodeBinaryLaps(text)| > 0
    ensures |text| > 0 && Decode(text) == Some(b)
  {
    b := Decode(text).value;
  }

  lemma DecodeEncodedNoRecords(rs: seq<LapRecord>)
    requires |rs| == 0
    ensures DecodeBinaryLaps(Base64.Encode(EncodeRecords(rs))) == SortBy(LapsOf(rs), LapNumber)
  {
    assert LapsOf(rs) == [];
    assert EncodeRecords(rs) == [];
  }

  lemma DecodeEncodedRecords(rs: seq<LapRecord>)
    requires |rs| > 0
    requires forall k :: 0 <= k < |rs| ==> InRange(rs[k])
    ensures DecodeBinaryLaps(Base64.Encode(EncodeRecords(rs))) == SortBy(LapsOf(rs), LapNumber)
  {
    var b := EncodeRecords(rs);
    var text := Base64.Encode(b);
    assert |text| > 0;
    DecodeEncode(b);
    DecodeBinaryLapsOf(text, b);
    RecordsOfEncoded(rs);
  }

  /** Encoding records and then base64 gives text that decodes to the
      records' laps, stably sorted by lap number. */
  lemma DecodeEncodedLaps(rs: seq<LapRecord>)
    requires forall k :: 0 <= k < |rs| ==> InRange(rs[k])
    ensures DecodeBinaryLaps(Base64.Encode(EncodeRecords(rs))) == SortBy(LapsOf(rs), LapNumber)
  {
    if |rs| == 0 {
      DecodeEncodedNoRecords(rs);
    } else {
      DecodeEncodedRecords(rs);
    }
  }

  /** `_calculate_sector1`: the first sector as what remains of the lap time
      after the other three, when all three are positive and the remainder
      lies between one second and two minutes. */
  function CalculateSector1(lapTimeMs: int, s2: int, s3: int, s4: int): (r: Option<string>)
    ensures r.Some? <==> s2 > 0 && s3 > 0 && s4 > 0 && 1000 <= lapTimeMs - s2 - s3 - s4 <= 120000
    ensures r.Some? ==> TimeStringToMs(r.value) == lapTimeMs - s2 - s3 - s4
    ensures r.Some? ==> Canonical(r.value)
  {
    if s2 > 0 && s3 > 0 && s4 > 0 then
      var s1 := lapTimeMs - s2 - s3 - s4;
      if 1000 <= s1 <= 120000 then
        FormatTimeRoundTrip(s1);
        Some(FormatTime(s1))
      else None
    else None
  }
}
