# bitcask-go in Dafny

This project models the core of bitcask-go, a small Bitcask-style key-value store written in Go.
Every Put and Del appends one checksummed log record to the *active data file*.
When a record does not fit under the file-size limit, the active file is turned into a read-only
*older file* and a new active file is opened.
An in-memory index maps each key to the position of its latest record: file id, record length,
offset and timestamp.

The model has one module per source file:

- `Common`: byte and integer widths, the errors, and Go's `uint64(int)` and `int64(uint64)` conversions.
- `LittleEndian`: little-endian encoding of fixed-width integers (`encoding/binary`).
- `Crc32`: CRC-32 with the IEEE 802.3 polynomial in reflected form, defined bit by bit over `bv32`.
- `LogRecordCodec`: the typed record codec of `pkg/disk/logRecord.go`.
  A normal record is `crc | typ | tmStamp | ksz | valueSz | key | value`.
  A delete record (tombstone) is `crc | typ | tmStamp | ksz | key`.
- `ItemCodec`: the earlier untyped codec of `pkg/disk/disk_item.go`, laid out as `crc | tmStamp | ksz | valueSz | key | value`.
- `Index`: `ValueMetadata`, the nil-key check, and the result an Indexer's Get promises.
- `BtreeIndex`: the B-tree Indexer.
  The tree is a strictly sorted association list ordered by `bytes.Compare`.
  The class `Btree` updates it in place.
- `MapIndex`: the map Indexer, keyed by the lowercase hexadecimal (base16) encoding of the key.
  The class `HexMap` updates it in place.
  This module also proves that both Indexers agree after any sequence of Set and Del calls.
- `Persistent`: the append-only file handle.
  The class `FilePersistent` holds the file contents as a byte sequence.
  Its methods are proved to agree with the pure functions `Write`, `ReadAt` and `CloseHandle`.
- `DataFiles`: a data file (`disk_manager.go`).
  This covers its `dir/%06d.db` name, the size-limit check, Write/Del/Read, Close and the in-place
  rotation `ToOlderFile`.
  The class `DataFile` is proved against the pure functions `FileWrite`, `FileDel`, `Append`,
  `FileRead`, `FileClose` and `FileToOlder`.
- `DbOptions`: the defaults, and the in-order fold of the functional options.
- `Engine`: the DB state machine of `db.go`.
  The pure functions `DbPut`, `DbGet`, `DbDel` and `DbClose` say what each operation does to the whole state.
  `DbPut` is staged as `WithActive`, `PutActive`, `Rotate` and `Retry`.
  The class `DB` holds the objects and is proved to perform exactly those transitions.
  It has an active `DataFile`, a map of older `DataFile`s, the counter `maxFileID` and a `Btree` index.

Each class method's contract ties it to one of these pure functions, and the properties are proved
as lemmas about the functions.

The engine keeps four behaviours exactly as the Go code has them, and lemmas document each one:

- A write error in Put other than "file too small" is dropped.
  The key's index entry is set to nil and Put reports success (`Engine.PutLosesWriteError`).
- Get always reads from the active file, whatever file id the index entry holds (`Engine.MaxSizeZeroScenario`).
- Del always appends a forced tombstone, removes the key and then sets it again to the tombstone's
  position, so the key stays in the index (`Engine.DelLeavesTombstone`).
- The second branch of the size check (record larger than the whole limit) is implied by the first
  (`DataFiles.SecondBranchSubsumed`).

It is easy to expect that, with a size limit of 0, writing the same key twice leaves two data files.
The code leaves three: the first Put creates file 1, finds no room, rotates it out while it is still
empty, and writes to file 2.
`Engine.MaxSizeZeroScenario` states the code's behaviour.

Clock readings, I/O faults and the order in which Go ranges over the older-files map are parameters
of the operations that meet them.

## Model

| member | source | states |
|---|---|---|
| Common.Uint64 | pkg/disk/disk_manager.go:67 | `uint64(n)` of an int: the identity in range, otherwise congruent modulo 2^64 |
| Common.Int64 | pkg/disk/disk_manager.go:67 | `int64(u)`: the identity below 2^63, negative above it, and inverted by `Uint64` |
| LittleEndian.Pow256Widths | pkg/disk/logRecord.go:187-199 | 4 and 8 bytes hold exactly 2^32 and 2^64 values |
| LittleEndian.DecodeEncode | pkg/disk/logRecord.go:187-199 | decoding the n-byte little-endian encoding of x < 256^n gives x |
| LittleEndian.EncodeDecode | pkg/disk/logRecord.go:176-181 | encoding the decoded value of b to len(b) bytes gives b |
| LittleEndian.U32 | pkg/disk/logRecord.go:187 | `Uint32` of 4 bytes is the value whose encoding is those bytes |
| LittleEndian.U64 | pkg/disk/logRecord.go:192-194 | `Uint64` of 8 bytes is the value whose encoding is those bytes |
| LittleEndian.U32RoundTrip | pkg/disk/logRecord.go:176-187 | `Uint32(PutUint32(x)) == x` |
| LittleEndian.U64RoundTrip | pkg/disk/logRecord.go:124-130 | `Uint64(PutUint64(x)) == x` |
| Crc32.ChecksumOfEmpty | pkg/disk/logRecord.go:158-160 | the checksum of no bytes is 0 |
| Crc32.UpdateConcat | pkg/disk/logRecord.go:158-160 | the checksum register over a ++ b is the register over a, continued over b |
| Crc32.CheckStringSteps | pkg/disk/logRecord.go:158-160 | the register after each byte of "123456789" |
| Crc32.CheckStringTail | pkg/disk/logRecord.go:158-160 | the register over the last four bytes of "123456789" |
| Crc32.CheckValue | pkg/disk/logRecord.go:158-160 | CRC-32/IEEE of "123456789" is 0xCBF43926, the standard check value |
| LogRecordCodec.CrcDataIgnoresCrc | pkg/disk/logRecord.go:110-156 | crcData does not depend on the crc field |
| LogRecordCodec.NewNormalLogRecord | pkg/disk/logRecord.go:64-78 | kind Normal, the given timestamp, key and value, ksz = len(k) and valueSz = len(v) as uint64, and a crc matching crcData |
| LogRecordCodec.NewDeleteLogRecord | pkg/disk/logRecord.go:82-94 | kind Delete, ksz = len(k), valueSz 0, no value, and a crc matching crcData |
| LogRecordCodec.Serialize | pkg/disk/logRecord.go:162-183 | the receiver keeps every field except crc, which now matches crcData; the first 4 bytes are the LE checksum of the remaining bytes |
| LogRecordCodec.Parse | pkg/disk/logRecord.go:185-201 | the fields read before the crc check: the crc from bytes 0-3 and the type byte; input shorter than the declared lengths is the Go slice panic |
| LogRecordCodec.Deserialize | pkg/disk/logRecord.go:185-215 | success only with a matching crc, and then well-formed for a known kind; a parsed record whose crc does not match gives `ErrCrcCheckFailed` and no record |
| LogRecordCodec.NormalLayout | pkg/disk/logRecord.go:118-181 | the bytes of a normal record: LE crc, typ, LE tmStamp, LE ksz, LE valueSz, key, value, at offsets 0/4/5/13/21/29 |
| LogRecordCodec.DeleteLayout | pkg/disk/logRecord.go:139-181 | the bytes of a delete record: LE crc, typ, LE tmStamp, LE ksz, key; no valueSz and no value |
| LogRecordCodec.SerializedLength | pkg/disk/logRecord.go:97-183 | the serialized length is `Size()`, which is 29+len(key)+len(value) for a normal record and 21+len(key) for a delete record |
| LogRecordCodec.RoundTrip | pkg/disk/logRecord.go:162-215 | Deserialize(Serialize(r)) is r with the crc Serialize stored, for both kinds |
| LogRecordCodec.RoundTripNormal | pkg/disk/logRecord.go:162-196 | the normal-record half of the round trip, before the crc check |
| LogRecordCodec.ParseNormal | pkg/disk/logRecord.go:185-196 | bytes laid out as a normal record parse to exactly those fields |
| LogRecordCodec.RoundTripDelete | pkg/disk/logRecord.go:162-200 | the delete-record half: the decoded record has valueSz 0 and no value |
| LogRecordCodec.ConstructorsRoundTrip | pkg/disk/logRecord_test.go:23-51 | records made by the two constructors decode back to themselves |
| LogRecordCodec.ParseReplacedCrc | pkg/disk/logRecord.go:185-201 | replacing the stored crc changes nothing in the parse but the crc |
| LogRecordCodec.StoredCrcMismatch | pkg/disk/logRecord.go:204-213 | a serialized record whose stored crc is replaced by any wrong value is rejected with `ErrCrcCheckFailed` |
| LogRecordCodec.UnknownTypeAccepted | pkg/disk/logRecord.go:188-213 | a record of unknown type with crc 0 is accepted with only crc and typ read, since its crcData is empty |
| ItemCodec.CrcDataIgnoresCrc | pkg/disk/disk_item.go:61-85 | CrcData does not depend on the crc field |
| ItemCodec.NewItem | pkg/disk/disk_item.go:45-58 | the given timestamp, key and value, ksz and valueSz set to the lengths, and a matching crc |
| ItemCodec.Serialize | pkg/disk/disk_item.go:91-112 | the crc is recomputed from CrcData before writing, so the first 4 bytes always match the payload |
| ItemCodec.Parse | pkg/disk/disk_item.go:114-121 | the read fields: crc from bytes 0-3, lengths agreeing with key and value; short input is the slice panic |
| ItemCodec.Deserialize | pkg/disk/disk_item.go:114-135 | success only with a matching crc; a mismatch gives `ErrCrcCheckFailed` and no item |
| ItemCodec.Layout | pkg/disk/disk_item.go:68-110 | LE crc, tmStamp, ksz, valueSz, key, value at offsets 0/4/12/20/28; length 28+len(key)+len(value) |
| ItemCodec.RoundTrip | pkg/disk/disk_item.go:91-135 | Deserialize(Serialize(d)) is d with the crc Serialize stored |
| ItemCodec.NewItemRoundTrip | pkg/disk/disk_item_test.go:28-37 | an item made by NewItem decodes back to itself |
| ItemCodec.ParseReplacedCrc | pkg/disk/disk_item.go:114-121 | replacing the stored crc changes nothing in the parse but the crc |
| ItemCodec.StoredCrcMismatch | pkg/disk/disk_item.go:128-133 | any wrong stored crc makes Deserialize return `ErrCrcCheckFailed` |
| Index.NewValueMetadata | pkg/index/index.go:21-23 | stores its four arguments unchanged in FileID, ValueSz, ValuePos and TsTamp |
| Index.CheckKey | pkg/index/index.go:35-40 | `ErrKeyIsNil` exactly when the key is nil, so a non-nil empty key passes |
| Index.GetResult | pkg/index/index.go:26-33 | an Indexer's Get: `ErrKeyIsNil` exactly for a nil key, otherwise the stored pointer or nil when absent |
| BtreeIndex.Compare | pkg/index/btree_Indexer_impl.go:24-26 | `bytes.Compare` returns -1, 0 or 1, and 0 exactly for equal keys |
| BtreeIndex.CompareAntisymmetric | pkg/index/btree_Indexer_impl.go:24-26 | swapping the arguments negates `bytes.Compare` |
| BtreeIndex.CompareTransitive | pkg/index/btree_Indexer_impl.go:24-26 | `bytes.Compare` order is transitive |
| BtreeIndex.LessStrictTotalOrder | pkg/index/btree_Indexer_impl.go:24-26 | `Less` is irreflexive, asymmetric, total on distinct keys and transitive |
| BtreeIndex.LessIsLexicographic | pkg/index/btree_Indexer_impl.go:24-26 | `Less` is byte-lexicographic order, with a proper prefix first |
| BtreeIndex.InsertSorted | pkg/index/btree_Indexer_impl.go:41-49 | ReplaceOrInsert keeps the keys strictly sorted, hence unique |
| BtreeIndex.RemoveSorted | pkg/index/btree_Indexer_impl.go:51-59 | Delete keeps the keys strictly sorted |
| BtreeIndex.FindInsertSame | pkg/index/btree_Indexer_impl.go:46 | after Set(k, v), k maps to v, whatever it mapped to before |
| BtreeIndex.FindInsertOther | pkg/index/btree_Indexer_impl.go:46 | Set(k, v) leaves every other key's entry unchanged |
| BtreeIndex.FindRemoveSame | pkg/index/btree_Indexer_impl.go:56 | after Del(k), k is absent |
| BtreeIndex.FindRemoveOther | pkg/index/btree_Indexer_impl.go:56 | Del(k) leaves every other key's entry unchanged |
| BtreeIndex.RemoveAbsent | pkg/index/btree_Indexer_impl.go:56 | deleting an absent key changes nothing |
| BtreeIndex.TreeRunSorted | pkg/index/btree_Indexer_impl.go:41-59 | any sequence of Set and Del keeps the tree sorted |
| BtreeIndex.Btree.Get | pkg/index/btree_Indexer_impl.go:28-39 | `ErrKeyIsNil` for a nil key; otherwise the stored pointer, or nil with no error when absent |
| BtreeIndex.Btree.Set | pkg/index/btree_Indexer_impl.go:41-49 | nil key: `ErrKeyIsNil` and the tree unchanged; otherwise the key is inserted or replaced; the tree stays sorted |
| BtreeIndex.Btree.Del | pkg/index/btree_Indexer_impl.go:51-59 | nil key: `ErrKeyIsNil` and the tree unchanged; otherwise the key is removed; the tree stays sorted |
| MapIndex.HexValueOfDigit | pkg/index/map_indexer_impl.go:18-20 | each lowercase hex digit decodes to its value |
| MapIndex.ByteToStringAt | pkg/index/map_indexer_impl.go:18-20 | characters 2i and 2i+1 of `byteToString` are the high and low nibble of byte i |
| MapIndex.LowercaseHex | pkg/index/map_indexer_impl.go:18-20 | `byteToString` uses only the digits 0-9a-f, and its length is 2·len(key) |
| MapIndex.HexDecodeEncode | pkg/index/map_indexer_impl.go:18-20 | hex decoding undoes `byteToString` |
| MapIndex.ByteToStringInjective | pkg/index/map_indexer_impl.go:18-40 | two byte keys share a map entry exactly when they are equal |
| MapIndex.MapFindSet | pkg/index/map_indexer_impl.go:34-42 | after Set(k, v), k maps to v and every other key is unchanged |
| MapIndex.MapFindDel | pkg/index/map_indexer_impl.go:44-51 | after Del(k), k is absent and every other key is unchanged |
| MapIndex.MapDelAbsent | pkg/index/map_indexer_impl.go:48-50 | deleting an absent key changes nothing |
| MapIndex.RunAgrees | pkg/index/map_indexer_impl.go:22-51 | the same Set/Del sequence keeps a sorted tree and a hex map holding the same entries |
| MapIndex.IndexersAgree | pkg/index/btree_Indexer_impl.go:28-59 | after any Set/Del sequence on fresh indexes, `Map.Get` and `Btree.Get` agree on every key |
| MapIndex.HexMap.Get | pkg/index/map_indexer_impl.go:22-32 | `ErrKeyIsNil` for a nil key; otherwise the stored pointer, or nil when absent |
| MapIndex.HexMap.Set | pkg/index/map_indexer_impl.go:34-42 | nil key: `ErrKeyIsNil` and the map unchanged; otherwise the hex key maps to the value |
| MapIndex.HexMap.Del | pkg/index/map_indexer_impl.go:44-51 | nil key: `ErrKeyIsNil` and the map unchanged; otherwise the hex key is removed |
| Persistent.Write | pkg/disk/disk_persistent_impl.go:39-48 | success exactly on an open writable handle with no fault; then offset is the old length, wn = len(bs) and the contents are old ++ bs; on error nothing changes |
| Persistent.ReadAt | pkg/disk/disk_persistent_impl.go:32-37 | success exactly when the range is inside the file; then the result is file[off..off+n] |
| Persistent.CloseHandle | pkg/disk/disk_persistent_impl.go:56-60 | the handle is closed with its contents kept; the error is the fault, or closing twice |
| Persistent.FirstWriteAtZero | pkg/disk/disk_persistent_impl_test.go:39 | the first write to a new file is at offset 0 |
| Persistent.ConsecutiveWrites | pkg/disk/disk_persistent_impl_test.go:49-52 | a second write starts exactly where the first ended |
| Persistent.WriteThenRead | pkg/disk/disk_persistent_impl_test.go:38-44 | reading back at the returned offset gives the written bytes |
| Persistent.ReadStableUnderAppend | pkg/disk/disk_persistent_impl.go:11-48 | a later append does not change a read that succeeded |
| Persistent.FilePersistent.Offset | pkg/disk/interface.go:34-35 | the write position is the current length |
| Persistent.FilePersistent.WriteToDisk | pkg/disk/disk_persistent_impl.go:39-48 | the new state and the result are those of `Write` |
| Persistent.FilePersistent.ReadFromDisk | pkg/disk/disk_persistent_impl.go:32-37 | fills the caller's buffer with `ReadAt`'s bytes; the file is unchanged |
| Persistent.FilePersistent.Close | pkg/disk/disk_persistent_impl.go:56-60 | the new state and the error are those of `CloseHandle` |
| DataFiles.FileName | pkg/disk/disk_manager.go:24 | the name starts with dir and "/" and ends with ".db" |
| DataFiles.PaddedValue | pkg/disk/disk_manager.go:24 | the six-digit zero-padded `%06d` field reads back as the suffix |
| DataFiles.FileNameInjective | pkg/disk/disk_manager.go:24 | two suffixes give the same name exactly when they are equal |
| DataFiles.FirstFileName | pkg/disk/disk_manager.go:24 | file 1 in dir "d" is "d/000001.db" |
| DataFiles.NewManager | pkg/disk/disk_manager.go:20-31 | suffix and name set; maxSize only for an active file (0 otherwise); an open handle, writable exactly when active |
| DataFiles.CheckExceedFileSizeLimit | pkg/disk/disk_manager.go:35-45 | `ErrFileTooSmall` exactly when Size + Offset > maxSize |
| DataFiles.SecondBranchSubsumed | pkg/disk/disk_manager.go:41-43 | whenever the second branch's condition holds, the first branch already returns `ErrFileTooSmall` |
| DataFiles.Append | pkg/disk/disk_manager.go:47-93 | success exactly when forced or within the limit, on a writable handle with no fault; an unforced record that does not fit gives `ErrFileTooSmall`; on error the file is unchanged; on success the serialized record is appended and the metadata is (suffix, Size, old end, timestamp) |
| DataFiles.FileToOlder | pkg/disk/disk_manager.go:121-130 | the same ID, name, maxSize and contents; success exactly on an open handle with no close fault; the storage is then reopened in non-active mode |
| DataFiles.ReadAppended | pkg/disk/disk_manager.go:95-107 | reading at the metadata of a forced append gives back its bytes and the record's value |
| DataFiles.WriteThenRead | pkg/disk/disk_manager_test.go:35-56 | `Read(Write(k, v))` returns v, for any key including the empty and nil one |
| DataFiles.DelThenRead | pkg/disk/disk_manager.go:71-107 | reading a tombstone gives no value and no error |
| DataFiles.ConsecutiveWrites | pkg/disk/disk_manager_test.go:32-53 | next.ValuePos = prev.ValuePos + prev.ValueSz |
| DataFiles.FirstWriteAtZero | pkg/disk/disk_manager_test.go:32 | the first write to a fresh file has ValuePos 0 |
| DataFiles.ReadStableUnderAppend | pkg/disk/interface.go:39-40 | appending never changes a read that succeeded |
| DataFiles.OlderFileKeepsReads | pkg/disk/interface.go:39-52 | after rotation, reads are unchanged and writes fail |
| DataFiles.DataFile.Write | pkg/disk/disk_manager.go:47-69 | the new state and the result are those of `FileWrite` |
| DataFiles.DataFile.Del | pkg/disk/disk_manager.go:71-93 | the new state and the result are those of `FileDel` |
| DataFiles.DataFile.AppendRecord | pkg/disk/disk_manager.go:58-67 | the new state and the result are those of `Append` |
| DataFiles.DataFile.Read | pkg/disk/disk_manager.go:95-107 | the result is `FileRead` of the state, and nothing changes |
| DataFiles.DataFile.Close | pkg/disk/disk_manager.go:113-115 | the new state and the error are those of `FileClose` |
| DataFiles.DataFile.ToOlderFile | pkg/disk/disk_manager.go:121-130 | the same object with a fresh storage handle on success, nil on error; the state is `FileToOlder` |
| DbOptions.NewDefaultOptions | options.go:4-24 | Dir "bit_cask_data_dir", MaxSize 4194304 (4<<20), AlwaysSync false |
| DbOptions.NewOptions | options.go:27-33 | the options of folding the list in order over zero-valued Options |
| DbOptions.ApplySetsOnlyItsField | options.go:37-53 | each option sets its own field and no other |
| DbOptions.LastSetterWins | options.go:29-31 | the last option in the list that sets a field decides it |
| DbOptions.UnsetFieldKept | options.go:29-31 | a field no option sets keeps its starting value |
| DbOptions.NewOptionsWithoutOptions | options.go:28 | with no options, NewOptions gives zero values, not the defaults |
| Engine.NewDbState | db.go:19-25 | no active file, no older files, an empty index, counter 0 |
| Engine.CloseOldsStep | db.go:96-101 | one more iteration of the close loop closes the next file and keeps the first error |
| Engine.RetryPreservesInv | db.go:48-54 | the forced retry keeps the invariant: files numbered by their ids, all below the counter, and the index sorted |
| Engine.RotateStages | db.go:37-52 | rotation returns the ToOlderFile error, or retries after moving the file into oldFiles and creating the next file |
| Engine.RotatePreservesInv | db.go:39-52 | rotation keeps the invariant, raising the counter by at most 1 and losing no older file |
| Engine.PutActiveStages | db.go:36-54 | only `ErrFileTooSmall` rotates; any other outcome sets the index to the metadata or to nil |
| Engine.PutActivePreservesInv | db.go:36-54 | the write stage keeps the invariant |
| Engine.PutPreservesInv | db.go:13-56 | Put keeps the invariant; maxFileID only increases (by at most 2), and no older file is lost |
| Engine.FirstPutCreatesFile | db.go:29-54 | with no active file, Put creates file maxFileID+1 named by it, appends the record at 0 and indexes it |
| Engine.FirstPutOnNewDb | db.go:29-34 | on a new DB the first file has id 1, and the key is indexed at offset 0 of it |
| Engine.RetryResult | db.go:48-54 | the retry's fault is returned with the index untouched; otherwise the record is appended and indexed |
| Engine.RetryAppends | db.go:48-54 | a retry that meets no fault appends the record at offset 0 of the new file and indexes it |
| Engine.PutRotates | db.go:37-54 | on `ErrFileTooSmall` the file moves to oldFiles[its ID] read-only, the next counter value names the new active file, and the write is retried forced |
| Engine.RetryThenGet | db.go:48-69 | after a faultless retry, Get returns the value |
| Engine.RotateThenGet | db.go:37-69 | after a faultless rotation, Get returns the value |
| Engine.PutThenGet | db_test.go:12-25 | after a faultless Put(k, v), Get(k) returns v, with or without rotation |
| Engine.PutLosesWriteError | db.go:36-54 | a failed unrotated write reports success, leaves the file as is and sets the key to nil, so Get returns nil |
| Engine.PutNilKey | db.go:54 | on any state, a nil key yields an error and leaves the index unchanged |
| Engine.PutNilKeyAppends | db.go:36-54 | on a writable active file with room and no fault, a nil-key Put still appends its record (with an empty key) and returns exactly `ErrKeyIsNil`, the index unchanged |
| Engine.RetryNilKey | db.go:48-54 | a nil key in the retry yields an error and leaves the index unchanged |
| Engine.PutKeepsOtherKeys | db.go:36-54 | an unrotated Put does not change what Get returns for any other key |
| Engine.ReadWholeFile | db.go:68 | a file holding one record reads it back at offset 0 |
| Engine.MaxSizeZeroScenario | db.go:28-69 | with maxSize 0, two Puts give three files, the first one empty; Get of the last key returns its value; Get of a key written to file 2 returns the active file's record of the same length |
| Engine.FirstPutWithNoRoom | db.go:29-54 | with maxSize 0 the first Put rotates the empty file 1 out and writes to file 2 |
| Engine.PutRotatesAgain | db.go:37-68 | the next Put rotates file 2 out and writes to file 3 |
| Engine.ScenarioSecondRead | db.go:68 | Get uses the active file whatever FileID the index holds |
| Engine.DelPreservesInv | db.go:72-87 | Del keeps the invariant, the counter and the older files |
| Engine.DelLeavesTombstone | db.go:75-86 | Del appends a tombstone at the old end of the file, the key stays in the index pointing at it, and Get returns nil |
| Engine.DelKeepsOtherKeys | db.go:79-85 | Del does not change what Get returns for another key |
| Engine.DelNilKey | db.go:79-82 | on any state, a nil key yields an error and leaves the index unchanged |
| Engine.DelNilKeyResult | db.go:75-82 | on an open writable active file, a nil-key Del appends the tombstone and returns exactly `ErrKeyIsNil`; with a write fault it returns that fault and the file is unchanged; the index is unchanged either way |
| Engine.FirstCloseErrorSnoc | db.go:96-101 | one more file closed keeps an earlier error, else takes its own |
| Engine.FirstCloseErrorNone | db.go:96-102 | no error exactly when every older file was open and met no fault |
| Engine.CloseOldsState | db.go:96-101 | the loop closes exactly the files it visits and changes nothing else |
| Engine.CloseOldsFirstError | db.go:94-102 | the loop's error is the first error met in iteration order |
| Engine.CloseSemantics | db.go:89-103 | a failed active close is returned at once and the older files stay open; otherwise every older file is closed with its contents kept, and the first error is returned |
| Engine.DB.constructor | db.go:19-25 | the objects start in the state `NewDbState` |
| Engine.DB.Put | db.go:28-56 | the new state and the error are those of `DbPut` |
| Engine.DB.Get | db.go:59-69 | the result is `DbGet` of the state, and nothing changes |
| Engine.DB.Del | db.go:72-87 | the new state and the error are those of `DbDel` |
| Engine.DB.Close | db.go:89-103 | the new state and the error are those of `DbClose` |
| Engine.DB.CloseOlderFiles | db.go:94-102 | the loop over the older files gives the state and the first error of `CloseOlds` |

## Left out

- Concurrency: `sync.RWMutex`, the `sync.Map` and `atomic.Uint64` are left out, and the model runs one operation at a time. The lock defect in `Sync` is not modelled either.
- The `bfPool` buffer reuse: every buffer is a fresh sequence. In the Go code the slice Serialize returns still aliases a pooled buffer after the deferred `Reset`. The model does not capture that aliasing.
- File-system effects: `os.OpenFile`, `Seek`, fsync durability and directories. Files are in-memory byte sequences, and opening a file always succeeds.
- Existing data files: `NewDb` starts `maxFileID` at 0 and never looks at the directory, and `NewManager` opens `dir/%06d.db` with `O_CREATE|O_APPEND` without checking whether it exists. A DB reopened on a used directory therefore appends to the old files after their old bytes. The model starts every active file empty (`NewActiveFile`), so it does not capture that case; `Engine.FirstPutOnNewDb` holds only for an empty directory. Reopening in `ToOlderFile` keeps the contents.
- `Sync`, `Delete` (`os.Remove`) and `DataFile.Delete`: nothing in the core calls them, and file removal has no in-memory meaning.
- Short writes and read errors other than out-of-range: a successful write appends everything, and a faultless read in range is complete. Write and close faults are parameters.
- `NewFilePersistentImpl` is modelled with the three arguments disk_manager.go calls it with. The third one decides whether the handle accepts writes. The two-argument version in disk_persistent_impl.go is not part of this model.
- `Read` returns `item.Value()`. That method is not part of this model; it is taken to be the record's value, which is nil for a tombstone.
- Errors of `binary.Write` and `bytes.Buffer.Write` on an in-memory buffer cannot happen, so those branches are left out.
- Go slice-bounds panics in `Deserialize` and nil-interface calls are modelled as error outcomes (`PanicSliceBounds`, `PanicNilDereference`), not as aborts.
- The clock (`time.Now().Unix()`) is a parameter of each operation that stamps a record.
- Go's unspecified map iteration order in `Close` is a parameter: any ordering of the older files' ids.
- Functional options are a datatype with one constructor per option function, not closures.
- `AlwaysSync` is never read by the engine, so it has no behaviour beyond its default.
- The in-place crc update of `Serialize` and `calCrc` is modelled by returning the updated record.
- Engine.PutPreservesInv: requires the counter to stay below 2^64 - 2, so it does not cover `maxFileID` wrapping around.
- A CRC detecting corruption with high probability cannot be stated; only "a stored crc different from the recomputed one is rejected" is proved.
- The `pkg/key_dir` package is an earlier copy of the index package and is not part of this model; its tests are cited as evidence of the shared index contract.
