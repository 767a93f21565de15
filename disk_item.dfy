/**
 * The untyped record codec of pkg/disk/disk_item.go, an earlier snapshot of the
 * log-record codec with no type byte. On disk an item is
 *   crc u32 | tmStamp u64 | ksz u64 | valueSz u64 | key | value
 * in little-endian order, and the crc is CRC-32 (IEEE) of every byte after it.
 */
module ItemCodec {
  import opened Common
  import LE = LittleEndian
  import Crc32

  const CrcSz := 4
  const TmStampSz := 8
  const KszSz := 8
  const VszSz := 8

  /** Offset of the key: everything before it is the fixed-size header. */
  const KeyPos := CrcSz + TmStampSz + KszSz + VszSz

  datatype Item = Item(
    crc: u32,
    tmStamp: u64,
    ksz: u64,
    valueSz: u64,
    key: seq<byte>,
    value: seq<byte>)

  /** The length fields agree with the payload. */
  predicate WellFormed(d: Item)
  {
    d.ksz == |d.key| && d.valueSz == |d.value|
  }

  /** The stored crc is the checksum of the item's crc input. */
  predicate ValidCrc(d: Item)
  {
    d.crc == Crc32.ChecksumIEEE(CrcData(d))
  }

  /** CrcData: every field except the crc, in wire order. */
  function CrcData(d: Item): seq<byte>
  {
    LE.PutU64(d.tmStamp) + LE.PutU64(d.ksz) + LE.PutU64(d.valueSz) + d.key + d.value
  }

  /** CalCrc: the item with its crc replaced by the checksum of crcInput. */
  function CalCrc(d: Item, crcInput: seq<byte>): Item
  {
    d.(crc := Crc32.ChecksumIEEE(crcInput))
  }

  lemma CrcDataIgnoresCrc(d: Item, c: u32)
    ensures CrcData(d.(crc := c)) == CrcData(d)
  {
  }

  /** NewItem, with the clock reading as a parameter. */
  function NewItem(k: seq<byte>, v: seq<byte>, now: u64): (r: Item)
    ensures r.tmStamp == now && r.key == k && r.value == v
    ensures r.ksz == Uint64(|k|) && r.valueSz == Uint64(|v|)
    ensures ValidCrc(r)
    ensures |k| < Two64 && |v| < Two64 ==> WellFormed(r)
  {
    var res := Item(0, now, Uint64(|k|), Uint64(|v|), k, v);
    CrcDataIgnoresCrc(res, Crc32.ChecksumIEEE(CrcData(res)));
    CalCrc(res, CrcData(res))
  }

  /** What Serialize leaves behind: the receiver with its crc recomputed, and the bytes. */
  datatype Serialized = Serialized(item: Item, bytes: seq<byte>)

  function Serialize(d: Item): (r: Serialized)
    ensures r.item == d.(crc := r.item.crc) && ValidCrc(r.item)
    ensures |r.bytes| >= CrcSz && LE.U32(r.bytes[..CrcSz]) == Crc32.ChecksumIEEE(r.bytes[CrcSz..])
  {
    var crcData := CrcData(d);
    var d' := CalCrc(d, crcData);
    CrcDataIgnoresCrc(d, d'.crc);
    var bytes := LE.PutU32(d'.crc) + crcData;
    assert bytes[..CrcSz] == LE.PutU32(d'.crc) && bytes[CrcSz..] == crcData;
    LE.U32RoundTrip(d'.crc);
    Serialized(d', bytes)
  }

  /**
   * The fields Deserialize slices out before it checks the crc. Input shorter than
   * the header or than the lengths it declares makes the Go code panic.
   */
  function Parse(b: seq<byte>): (r: Result<Item>)
    ensures r.Ok? ==> |b| >= KeyPos && r.value.crc == LE.U32(b[..CrcSz])
    ensures r.Ok? ==> WellFormed(r.value)
    ensures r.Err? ==> r.error == PanicSliceBounds
  {
    if |b| < KeyPos then Err(PanicSliceBounds)
    else
      var crc := LE.U32(b[..CrcSz]);
      var tm := LE.U64(b[4..12]);
      var ksz := LE.U64(b[12..20]);
      var vsz := LE.U64(b[20..28]);
      if KeyPos + ksz + vsz > |b| then Err(PanicSliceBounds)
      else Ok(Item(crc, tm, ksz, vsz, b[KeyPos..KeyPos + ksz], b[KeyPos + ksz..KeyPos + ksz + vsz]))
  }

  /** Deserialize: slice the fields out, recompute the crc and reject a mismatch. */
  function Deserialize(b: seq<byte>): (r: Result<Item>)
    ensures r.Ok? ==> ValidCrc(r.value) && WellFormed(r.value)
    ensures r.Ok? ==> |b| >= KeyPos && r.value.crc == LE.U32(b[..CrcSz])
    ensures Parse(b).Ok? && !ValidCrc(Parse(b).value) ==> r == Err(ErrCrcCheckFailed)
    ensures Parse(b).Err? ==> r == Err(PanicSliceBounds)
  {
    match Parse(b)
    case Err(e) => Err(e)
    case Ok(res) =>
      if Crc32.ChecksumIEEE(CrcData(res)) != res.crc then Err(ErrCrcCheckFailed)
      else Ok(res)
  }

  /** Where each piece lands in crc | tmStamp | ksz | valueSz | key | value. */
  lemma Pieces(c: seq<byte>, t: seq<byte>, k: seq<byte>, v: seq<byte>,
               key: seq<byte>, value: seq<byte>)
    requires |c| == CrcSz && |t| == TmStampSz && |k| == KszSz && |v| == VszSz
    ensures var bs := c + (t + k + v + key + value);
      && |bs| == KeyPos + |key| + |value|
      && bs[..CrcSz] == c
      && bs[4..12] == t && bs[12..20] == k && bs[20..28] == v
      && bs[KeyPos..KeyPos + |key|] == key
      && bs[KeyPos + |key|..] == value
  {
    var bs := c + (t + k + v + key + value);
    var p3 := c + t + k + v;
    var tail := key + value;
    assert bs == p3 + tail;
    assert bs[KeyPos..] == tail;
    assert tail[..|key|] == key && tail[|key|..] == value;
    assert bs[20..28] == p3[20..28] == v;
    assert bs[12..20] == (c + t + k)[12..20] == k;
    assert bs[4..12] == (c + t)[4..12] == t;
  }

  /** The wire layout of a serialized item, at offsets 0, 4, 12, 20 and 28. */
  lemma Layout(d: Item)
    ensures var bs := Serialize(d).bytes;
      && |bs| == KeyPos + |d.key| + |d.value|
      && bs[..CrcSz] == LE.PutU32(Serialize(d).item.crc)
      && bs[4..12] == LE.PutU64(d.tmStamp)
      && bs[12..20] == LE.PutU64(d.ksz)
      && bs[20..28] == LE.PutU64(d.valueSz)
      && bs[KeyPos..KeyPos + |d.key|] == d.key
      && bs[KeyPos + |d.key|..] == d.value
  {
    Pieces(LE.PutU32(Serialize(d).item.crc), LE.PutU64(d.tmStamp), LE.PutU64(d.ksz),
           LE.PutU64(d.valueSz), d.key, d.value);
  }

  /** Decoding what was encoded gives back the item with the crc Serialize stored. */
  lemma RoundTrip(d: Item)
    requires WellFormed(d)
    ensures Deserialize(Serialize(d).bytes) == Ok(Serialize(d).item)
  {
    var s := Serialize(d);
    var bs := s.bytes;
    Layout(d);
    LE.U32RoundTrip(s.item.crc);
    LE.U64RoundTrip(d.tmStamp);
    LE.U64RoundTrip(d.ksz);
    LE.U64RoundTrip(d.valueSz);
    assert bs[KeyPos + d.ksz..KeyPos + d.ksz + d.valueSz] == d.value;
    assert Parse(bs) == Ok(s.item);
  }

  /** The round trip for what NewItem builds: the very same item comes back. */
  lemma NewItemRoundTrip(k: seq<byte>, v: seq<byte>, now: u64)
    requires |k| < Two64 && |v| < Two64
    ensures Deserialize(Serialize(NewItem(k, v, now)).bytes) == Ok(NewItem(k, v, now))
  {
    RoundTrip(NewItem(k, v, now));
  }

  /** Parse reads the crc from the first four bytes only. */
  lemma ParseReplacedCrc(b: seq<byte>, c: u32)
    requires |b| >= CrcSz
    ensures var b' := LE.PutU32(c) + b[CrcSz..];
      && (Parse(b').Ok? <==> Parse(b).Ok?)
      && (Parse(b).Ok? ==> Parse(b') == Ok(Parse(b).value.(crc := c)))
  {
    var b' := LE.PutU32(c) + b[CrcSz..];
    assert b'[..CrcSz] == LE.PutU32(c);
    LE.U32RoundTrip(c);
    assert |b'| == |b|;
    assert forall i :: CrcSz <= i < |b| ==> b'[i] == b[i];
    if |b| >= KeyPos {
      assert b'[4..12] == b[4..12] && b'[12..20] == b[12..20] && b'[20..28] == b[20..28];
      var ksz := LE.U64(b[12..20]);
      var vsz := LE.U64(b[20..28]);
      if KeyPos + ksz + vsz <= |b| {
        assert b'[KeyPos..KeyPos + ksz] == b[KeyPos..KeyPos + ksz];
        assert b'[KeyPos + ksz..KeyPos + ksz + vsz] == b[KeyPos + ksz..KeyPos + ksz + vsz];
      }
    }
  }

  /** A stored crc that differs from the checksum of the payload is rejected. */
  lemma StoredCrcMismatch(d: Item, c: u32)
    requires WellFormed(d)
    requires c != Crc32.ChecksumIEEE(CrcData(d))
    ensures Deserialize(LE.PutU32(c) + Serialize(d).bytes[CrcSz..]) == Err(ErrCrcCheckFailed)
  {
    var s := Serialize(d);
    RoundTrip(d);
    assert Parse(s.bytes) == Ok(s.item);
    ParseReplacedCrc(s.bytes, c);
    CrcDataIgnoresCrc(s.item, c);
    CrcDataIgnoresCrc(d, s.item.crc);
  }
}
