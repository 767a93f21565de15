/**
 * The typed log-record codec of pkg/disk/logRecord.go. On disk a record is
 *   crc u32 | typ u8 | tmStamp u64 | ksz u64 | [valueSz u64] | key | [value]
 * in little-endian order; the bracketed fields exist only for normal records, and
 * the crc is CRC-32 (IEEE) of every byte after it.
 */
module LogRecordCodec {
  import opened Common
  import LE = LittleEndian
  import Crc32

  type LogRecordType = byte

  const NormalRecord: LogRecordType := 0
  const DeleteRecord: LogRecordType := 1

  const CrcSz := 4
  const TypeSz := 1
  const TmStampSz := 8
  const KszSz := 8
  const VszSz := 8

  /** Offset of the key in a normal record and in a delete record. */
  const NormalKeyPos := CrcSz + TypeSz + TmStampSz + KszSz + VszSz
  const DeleteKeyPos := CrcSz + TypeSz + TmStampSz + KszSz

  datatype LogRecord = LogRecord(
    crc: u32,
    typ: LogRecordType,
    tmStamp: u64,
    ksz: u64,
    valueSz: u64,
    key: seq<byte>,
    value: seq<byte>)

  predicate KnownType(t: LogRecordType)
  {
    t == NormalRecord || t == DeleteRecord
  }

  /** The length fields agree with the payload, and a delete record has no value. */
  predicate WellFormed(d: LogRecord)
  {
    && KnownType(d.typ)
    && d.ksz == |d.key|
    && (d.typ == NormalRecord ==> d.valueSz == |d.value|)
    && (d.typ == DeleteRecord ==> d.valueSz == 0 && d.value == [])
  }

  /** The stored crc is the checksum of the record's crc input. */
  predicate ValidCrc(d: LogRecord)
  {
    d.crc == Crc32.ChecksumIEEE(CrcData(d))
  }

  /** crcData: every field after the crc, in wire order; nothing for an unknown type. */
  function CrcData(d: LogRecord): seq<byte>
  {
    if d.typ == NormalRecord then
      [d.typ] + LE.PutU64(d.tmStamp) + LE.PutU64(d.ksz) + LE.PutU64(d.valueSz) + d.key + d.value
    else if d.typ == DeleteRecord then
      [d.typ] + LE.PutU64(d.tmStamp) + LE.PutU64(d.ksz) + d.key
    else
      []
  }

  /** calCrc: the record with its crc replaced by the checksum of crcInput. */
  function CalCrc(d: LogRecord, crcInput: seq<byte>): LogRecord
  {
    d.(crc := Crc32.ChecksumIEEE(crcInput))
  }

  lemma CrcDataIgnoresCrc(d: LogRecord, c: u32)
    ensures CrcData(d.(crc := c)) == CrcData(d)
  {
  }

  /** NewNormalLogRecord, with the clock reading as a parameter. */
  function NewNormalLogRecord(k: seq<byte>, v: seq<byte>, now: u64): (r: LogRecord)
    ensures r.typ == NormalRecord && r.tmStamp == now && r.key == k && r.value == v
    ensures r.ksz == Uint64(|k|) && r.valueSz == Uint64(|v|)
    ensures ValidCrc(r)
    ensures |k| < Two64 && |v| < Two64 ==> WellFormed(r)
  {
    var res := LogRecord(0, NormalRecord, now, Uint64(|k|), Uint64(|v|), k, v);
    CrcDataIgnoresCrc(res, Crc32.ChecksumIEEE(CrcData(res)));
    CalCrc(res, CrcData(res))
  }

  /** NewDeleteLogRecord, with the clock reading as a parameter: no value, valueSz zero. */
  function NewDeleteLogRecord(k: seq<byte>, now: u64): (r: LogRecord)
    ensures r.typ == DeleteRecord && r.tmStamp == now && r.key == k
    ensures r.ksz == Uint64(|k|) && r.valueSz == 0 && r.value == []
    ensures ValidCrc(r)
    ensures |k| < Two64 ==> WellFormed(r)
  {
    var res := LogRecord(0, DeleteRecord, now, Uint64(|k|), 0, k, []);
    CrcDataIgnoresCrc(res, Crc32.ChecksumIEEE(CrcData(res)));
    CalCrc(res, CrcData(res))
  }

  /** Size: the number of bytes Serialize produces (0 for an unknown type). */
  function Size(d: LogRecord): int
  {
    if d.typ == NormalRecord then CrcSz + TypeSz + TmStampSz + KszSz + VszSz + |d.key| + |d.value|
    else if d.typ == DeleteRecord then CrcSz + TypeSz + TmStampSz + KszSz + |d.key|
    else 0
  }

  /**
   * What Serialize leaves behind: the receiver, whose crc it has overwritten,
   * and the bytes it returns.
   */
  datatype Serialized = Serialized(record: LogRecord, bytes: seq<byte>)

  function Serialize(d: LogRecord): (r: Serialized)
    ensures r.record == d.(crc := r.record.crc) && ValidCrc(r.record)
    ensures |r.bytes| >= CrcSz && LE.U32(r.bytes[..CrcSz]) == Crc32.ChecksumIEEE(r.bytes[CrcSz..])
  {
    var crcData := CrcData(d);
    var d' := CalCrc(d, crcData);
    CrcDataIgnoresCrc(d, d'.crc);
    var bytes := LE.PutU32(d'.crc) + crcData;
    assert bytes[..CrcSz] == LE.PutU32(d'.crc) && bytes[CrcSz..] == crcData;
    LE.U32RoundTrip(d'.crc);
    Serialized(d', bytes)
  }

  /**
   * The fields Deserialize reads before it checks the crc. Input too short for the
   * lengths it declares makes the Go code panic on a slice expression.
   */
  function Parse(b: seq<byte>): (r: Result<LogRecord>)
    ensures r.Ok? ==> |b| >= CrcSz + TypeSz && r.value.crc == LE.U32(b[..CrcSz]) && r.value.typ == b[CrcSz]
    ensures r.Err? ==> r.error == PanicSliceBounds
  {
    if |b| < CrcSz + TypeSz then Err(PanicSliceBounds)
    else
      var crc := LE.U32(b[..CrcSz]);
      var typ := b[CrcSz];
      if typ == NormalRecord then
        if |b| < NormalKeyPos then Err(PanicSliceBounds)
        else
          var tm := LE.U64(b[5..13]);
          var ksz := LE.U64(b[13..21]);
          var vsz := LE.U64(b[21..29]);
          if NormalKeyPos + ksz + vsz > |b| then Err(PanicSliceBounds)
          else
            Ok(LogRecord(crc, typ, tm, ksz, vsz,
                         b[NormalKeyPos..NormalKeyPos + ksz],
                         b[NormalKeyPos + ksz..NormalKeyPos + ksz + vsz]))
      else if typ == DeleteRecord then
        if |b| < DeleteKeyPos then Err(PanicSliceBounds)
        else
          var tm := LE.U64(b[5..13]);
          var ksz := LE.U64(b[13..21]);
          if DeleteKeyPos + ksz > |b| then Err(PanicSliceBounds)
          else Ok(LogRecord(crc, typ, tm, ksz, 0, b[DeleteKeyPos..DeleteKeyPos + ksz], []))
      else
        Ok(LogRecord(crc, typ, 0, 0, 0, [], []))
  }

  /** Deserialize: parse the fields, recompute the crc and fail closed on a mismatch. */
  function Deserialize(b: seq<byte>): (r: Result<LogRecord>)
    ensures r.Ok? ==> ValidCrc(r.value) && |b| >= CrcSz + TypeSz
    ensures r.Ok? ==> r.value.crc == LE.U32(b[..CrcSz]) && r.value.typ == b[CrcSz]
    ensures r.Ok? && KnownType(r.value.typ) ==> WellFormed(r.value)
    ensures Parse(b).Ok? && !ValidCrc(Parse(b).value) ==> r == Err(ErrCrcCheckFailed)
    ensures Parse(b).Err? ==> r == Err(PanicSliceBounds)
  {
    match Parse(b)
    case Err(e) => Err(e)
    case Ok(res) =>
      if Crc32.ChecksumIEEE(CrcData(res)) != res.crc then Err(ErrCrcCheckFailed)
      else Ok(res)
  }

  /** Where each piece lands in crc | typ | tmStamp | ksz | valueSz | key | value. */
  lemma NormalPieces(c: seq<byte>, x: byte, t: seq<byte>, k: seq<byte>, v: seq<byte>,
                     key: seq<byte>, value: seq<byte>)
    requires |c| == CrcSz && |t| == TmStampSz && |k| == KszSz && |v| == VszSz
    ensures var bs := c + ([x] + t + k + v + key + value);
      && |bs| == NormalKeyPos + |key| + |value|
      && bs[..CrcSz] == c && bs[CrcSz] == x
      && bs[5..13] == t && bs[13..21] == k && bs[21..29] == v
      && bs[NormalKeyPos..NormalKeyPos + |key|] == key
      && bs[NormalKeyPos + |key|..] == value
  {
    var bs := c + ([x] + t + k + v + key + value);
    var p4 := c + [x] + t + k + v;
    var tail := key + value;
    assert bs == p4 + tail;
    assert bs[NormalKeyPos..] == tail;
    assert tail[..|key|] == key && tail[|key|..] == value;
    var p3 := c + [x] + t + k;
    assert bs[21..29] == p4[21..29] == v;
    assert bs[13..21] == p3[13..21] == k;
    assert bs[5..13] == (c + [x] + t)[5..13] == t;
  }

  /** Where each piece lands in crc | typ | tmStamp | ksz | key. */
  lemma DeletePieces(c: seq<byte>, x: byte, t: seq<byte>, k: seq<byte>, key: seq<byte>)
    requires |c| == CrcSz && |t| == TmStampSz && |k| == KszSz
    ensures var bs := c + ([x] + t + k + key);
      && |bs| == DeleteKeyPos + |key|
      && bs[..CrcSz] == c && bs[CrcSz] == x
      && bs[5..13] == t && bs[13..21] == k
      && bs[DeleteKeyPos..] == key
  {
    var bs := c + ([x] + t + k + key);
    var p3 := c + [x] + t + k;
    assert bs == p3 + key;
    assert bs[13..21] == p3[13..21] == k;
    assert bs[5..13] == (c + [x] + t)[5..13] == t;
  }

  /** The wire layout of a serialized normal record, field by field. */
  lemma NormalLayout(d: LogRecord)
    requires d.typ == NormalRecord
    ensures var bs := Serialize(d).bytes;
      && |bs| == NormalKeyPos + |d.key| + |d.value|
      && bs[..CrcSz] == LE.PutU32(Serialize(d).record.crc)
      && bs[CrcSz] == d.typ
      && bs[5..13] == LE.PutU64(d.tmStamp)
      && bs[13..21] == LE.PutU64(d.ksz)
      && bs[21..29] == LE.PutU64(d.valueSz)
      && bs[NormalKeyPos..NormalKeyPos + |d.key|] == d.key
      && bs[NormalKeyPos + |d.key|..] == d.value
  {
    NormalPieces(LE.PutU32(Serialize(d).record.crc), d.typ, LE.PutU64(d.tmStamp),
                 LE.PutU64(d.ksz), LE.PutU64(d.valueSz), d.key, d.value);
  }

  /** The wire layout of a serialized delete record: no valueSz and no value. */
  lemma DeleteLayout(d: LogRecord)
    requires d.typ == DeleteRecord
    ensures var bs := Serialize(d).bytes;
      && |bs| == DeleteKeyPos + |d.key|
      && bs[..CrcSz] == LE.PutU32(Serialize(d).record.crc)
      && bs[CrcSz] == d.typ
      && bs[5..13] == LE.PutU64(d.tmStamp)
      && bs[13..21] == LE.PutU64(d.ksz)
      && bs[DeleteKeyPos..] == d.key
  {
    DeletePieces(LE.PutU32(Serialize(d).record.crc), d.typ, LE.PutU64(d.tmStamp),
                 LE.PutU64(d.ksz), d.key);
  }

  /** Serialize produces exactly Size() bytes for both record kinds. */
  lemma SerializedLength(d: LogRecord)
    requires KnownType(d.typ)
    ensures |Serialize(d).bytes| == Size(d)
    ensures Size(d) == if d.typ == NormalRecord then 29 + |d.key| + |d.value| else 21 + |d.key|
  {
    if d.typ == NormalRecord { NormalLayout(d); } else { DeleteLayout(d); }
  }

  /** Decoding what was encoded gives back the record (with the crc Serialize stored). */
  lemma RoundTrip(d: LogRecord)
    requires WellFormed(d)
    ensures Deserialize(Serialize(d).bytes) == Ok(Serialize(d).record)
  {
    if d.typ == NormalRecord {
      RoundTripNormal(d);
    } else {
      RoundTripDelete(d);
    }
  }

  lemma RoundTripNormal(d: LogRecord)
    requires WellFormed(d) && d.typ == NormalRecord
    ensures Parse(Serialize(d).bytes) == Ok(Serialize(d).record)
  {
    NormalLayout(d);
    ParseNormal(Serialize(d).bytes, Serialize(d).record.crc, d.tmStamp, d.key, d.value);
  }

  /** Parse of bytes laid out as a normal record gives back its fields. */
  lemma ParseNormal(b: seq<byte>, crc: u32, tm: u64, key: seq<byte>, value: seq<byte>)
    requires |key| < Two64 && |value| < Two64 && |b| == NormalKeyPos + |key| + |value|
    requires b[..CrcSz] == LE.PutU32(crc) && b[CrcSz] == NormalRecord && b[5..13] == LE.PutU64(tm)
    requires b[13..21] == LE.PutU64(|key|) && b[21..29] == LE.PutU64(|value|)
    requires b[NormalKeyPos..NormalKeyPos + |key|] == key && b[NormalKeyPos + |key|..] == value
    ensures Parse(b) == Ok(LogRecord(crc, NormalRecord, tm, |key|, |value|, key, value))
  {
    LE.U32RoundTrip(crc);
    LE.U64RoundTrip(tm);
    LE.U64RoundTrip(|key|);
    LE.U64RoundTrip(|value|);
    assert b[NormalKeyPos + |key|..NormalKeyPos + |key| + |value|] == value;
  }

  lemma RoundTripDelete(d: LogRecord)
    requires WellFormed(d) && d.typ == DeleteRecord
    ensures Parse(Serialize(d).bytes) == Ok(Serialize(d).record)
  {
    var s := Serialize(d);
    var bs := s.bytes;
    LE.U32RoundTrip(s.record.crc);
    LE.U64RoundTrip(d.tmStamp);
    LE.U64RoundTrip(d.ksz);
    DeleteLayout(d);
    assert bs[DeleteKeyPos..DeleteKeyPos + d.ksz] == d.key;
  }

  /** The round trip for the records the constructors build: the same record comes back. */
  lemma ConstructorsRoundTrip(k: seq<byte>, v: seq<byte>, now: u64)
    requires |k| < Two64 && |v| < Two64
    ensures Deserialize(Serialize(NewNormalLogRecord(k, v, now)).bytes) == Ok(NewNormalLogRecord(k, v, now))
    ensures Deserialize(Serialize(NewDeleteLogRecord(k, now)).bytes) == Ok(NewDeleteLogRecord(k, now))
  {
    RoundTrip(NewNormalLogRecord(k, v, now));
    RoundTrip(NewDeleteLogRecord(k, now));
  }

  /** Parse reads the crc from the first four bytes only; the other fields come after them. */
  lemma ParseReplacedCrc(b: seq<byte>, c: u32)
    requires |b| >= CrcSz
    ensures var b' := LE.PutU32(c) + b[CrcSz..];
      && (Parse(b').Ok? <==> Parse(b).Ok?)
      && (Parse(b).Ok? ==> Parse(b') == Ok(Parse(b).value.(crc := c)))
  {
    var b' := LE.PutU32(c) + b[CrcSz..];
    assert b'[..CrcSz] == LE.PutU32(c);
    LE.U32RoundTrip(c);
    assert |b'| == |b|;
    if |b| > CrcSz {
      assert b'[CrcSz] == b[CrcSz];
      if b[CrcSz] == NormalRecord {
        ParseReplacedCrcNormal(b, b', c);
      } else if b[CrcSz] == DeleteRecord {
        ParseReplacedCrcDelete(b, b', c);
      }
    }
  }

  /** Two inputs that agree from k on agree on every slice that starts at or after k. */
  lemma SameSlice(b: seq<byte>, b': seq<byte>, k: nat, i: nat, j: nat)
    requires |b| == |b'| && k <= i <= j <= |b| && b[k..] == b'[k..]
    ensures b[i..j] == b'[i..j]
  {
    forall t | i <= t < j
      ensures b[t] == b'[t]
    {
      assert b[t] == b[k..][t - k] && b'[t] == b'[k..][t - k];
    }
  }

  lemma ParseReplacedCrcNormal(b: seq<byte>, b': seq<byte>, c: u32)
    requires |b| == |b'| > CrcSz && b'[CrcSz..] == b[CrcSz..] && LE.U32(b'[..CrcSz]) == c
    requires b[CrcSz] == NormalRecord
    ensures Parse(b').Ok? <==> Parse(b).Ok?
    ensures Parse(b).Ok? ==> Parse(b') == Ok(Parse(b).value.(crc := c))
  {
    assert b'[CrcSz] == b'[CrcSz..][0];
    if |b| >= NormalKeyPos {
      SameSlice(b, b', CrcSz, 5, 13);
      SameSlice(b, b', CrcSz, 13, 21);
      SameSlice(b, b', CrcSz, 21, 29);
      var ksz := LE.U64(b[13..21]);
      var vsz := LE.U64(b[21..29]);
      if NormalKeyPos + ksz + vsz <= |b| {
        SameSlice(b, b', CrcSz, NormalKeyPos, NormalKeyPos + ksz);
        SameSlice(b, b', CrcSz, NormalKeyPos + ksz, NormalKeyPos + ksz + vsz);
      }
    }
  }

  lemma ParseReplacedCrcDelete(b: seq<byte>, b': seq<byte>, c: u32)
    requires |b| == |b'| > CrcSz && b'[CrcSz..] == b[CrcSz..] && LE.U32(b'[..CrcSz]) == c
    requires b[CrcSz] == DeleteRecord
    ensures Parse(b').Ok? <==> Parse(b).Ok?
    ensures Parse(b).Ok? ==> Parse(b') == Ok(Parse(b).value.(crc := c))
  {
    assert b'[CrcSz] == b'[CrcSz..][0];
    if |b| >= DeleteKeyPos {
      SameSlice(b, b', CrcSz, 5, 13);
      SameSlice(b, b', CrcSz, 13, 21);
      var ksz := LE.U64(b[13..21]);
      if DeleteKeyPos + ksz <= |b| {
        SameSlice(b, b', CrcSz, DeleteKeyPos, DeleteKeyPos + ksz);
      }
    }
  }

  /** A stored crc that differs from the checksum of the payload is rejected. */
  lemma StoredCrcMismatch(d: LogRecord, c: u32)
    requires WellFormed(d)
    requires c != Crc32.ChecksumIEEE(CrcData(d))
    ensures Deserialize(LE.PutU32(c) + Serialize(d).bytes[CrcSz..]) == Err(ErrCrcCheckFailed)
  {
    var s := Serialize(d);
    RoundTrip(d);
    assert Parse(s.bytes) == Ok(s.record);
    ParseReplacedCrc(s.bytes, c);
    CrcDataIgnoresCrc(s.record, c);
    CrcDataIgnoresCrc(d, s.record.crc);
  }

  /**
   * An unknown type byte carries no fields, and its crc input is empty, so an input
   * whose stored crc is zero decodes successfully into a record of that type.
   */
  lemma UnknownTypeAccepted(t: LogRecordType, rest: seq<byte>)
    requires !KnownType(t)
    ensures Deserialize([0, 0, 0, 0, t] + rest) == Ok(LogRecord(0, t, 0, 0, 0, [], []))
  {
    var b := [0, 0, 0, 0, t] + rest;
    assert b[..CrcSz] == LE.PutU32(0);
    LE.U32RoundTrip(0);
    Crc32.ChecksumOfEmpty();
  }
}
