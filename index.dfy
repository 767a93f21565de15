/**
 * The shared part of pkg/index/index.go: the metadata an index maps a key to,
 * the nil-key check every Indexer operation starts with, and the result an
 * Indexer's Get promises.
 */
module Index {
  import opened Common

  /**
   * Where a key's latest record lives. valueSz is the length of the whole record
   * (crc, timestamp, sizes, key and value), not of the value alone.
   */
  datatype ValueMetadata = ValueMetadata(fileID: u64, valueSz: u64, valuePos: u64, tsTamp: i64)

  /** A `*ValueMetadata`: None is the nil pointer, which an index may store. */
  type Ptr = Option<ValueMetadata>

  function NewValueMetadata(fileID: u64, valueSz: u64, valuePos: u64, ts: i64): (r: ValueMetadata)
    ensures r.fileID == fileID && r.valueSz == valueSz && r.valuePos == valuePos && r.tsTamp == ts
  {
    ValueMetadata(fileID, valueSz, valuePos, ts)
  }

  /** checkKey: a nil key is refused; every other key, the empty one included, passes. */
  function CheckKey(k: Slice): (r: Option<Error>)
    ensures r.Some? <==> k.None?
    ensures r.Some? ==> r.value == ErrKeyIsNil
  {
    if k.None? then Some(ErrKeyIsNil) else None
  }

  /**
   * The Indexer contract for Get: given what the index holds for the key (None when
   * it holds nothing), a nil key is an error, an absent key is a nil result without
   * an error, and a present key returns the stored pointer.
   */
  function GetResult(key: Slice, found: Option<Ptr>): (r: Result<Ptr>)
    ensures r.Err? <==> key.None?
    ensures r.Err? ==> r.error == ErrKeyIsNil
    ensures r.Ok? ==> r.value == (if found.Some? then found.value else None)
  {
    if CheckKey(key).Some? then Err(CheckKey(key).value)
    else if found.None? then Ok(None)
    else Ok(found.value)
  }

  /** The operations an Indexer is driven with, used to compare the two implementations. */
  datatype IndexOp = SetOp(key: Slice, val: Ptr) | DelOp(key: Slice)
}
