/**
 * The data file of pkg/disk/disk_manager.go: a numbered file of log records that
 * Write and Del append to, Read decodes from, and ToOlderFile turns from the
 * active file into a read-only older one. The clock reading that stamps each
 * record and the faults the file handle may report are parameters.
 */
module DataFiles {
  import opened Common
  import opened Index
  import opened LogRecordCodec
  import P = Persistent

  const DataFileExt := ".db"

  function DigitChar(d: nat): (c: char)
    requires d < 10
    ensures '0' <= c <= '9'
  {
    "0123456789"[d]
  }

  /** n in decimal, without leading zeros ("0" for zero). */
  function Decimal(n: nat): (s: string)
    ensures |s| >= 1
    ensures forall i :: 0 <= i < |s| ==> '0' <= s[i] <= '9'
  {
    if n < 10 then [DigitChar(n)] else Decimal(n / 10) + [DigitChar(n % 10)]
  }

  /** The number a string of decimal digits denotes, leading zeros allowed. */
  function DecimalValue(s: string): nat
  {
    if s == [] then 0
    else
      var d := s[|s| - 1] as int - '0' as int;
      DecimalValue(s[..|s| - 1]) * 10 + (if 0 <= d then d else 0)
  }

  function Zeros(k: nat): (s: string)
    ensures |s| == k && forall i :: 0 <= i < k ==> s[i] == '0'
  {
    seq(k, _ => '0')
  }

  /** %06d: at least six digits, padded with zeros on the left. */
  function Pad6(s: string): (r: string)
    ensures |r| == if |s| >= 6 then |s| else 6
    ensures r[|r| - |s|..] == s
  {
    if |s| >= 6 then s else Zeros(6 - |s|) + s
  }

  /** The name of the data file with a given number: dir/%06d.db. */
  function FileName(dir: string, suffix: u64): (r: string)
    ensures |r| >= |dir| + 1 + 6 + |DataFileExt|
    ensures r[..|dir|] == dir && r[|dir|] == '/' && r[|r| - |DataFileExt|..] == DataFileExt
  {
    var r := dir + "/" + Pad6(Decimal(suffix)) + DataFileExt;
    assert r[..|dir|] == dir;
    assert r[|r| - |DataFileExt|..] == DataFileExt;
    r
  }

  lemma DigitValue(d: nat)
    requires d < 10
    ensures DigitChar(d) as int - '0' as int == d
  {
    if d < 5 {
      assert DigitChar(d) == ['0', '1', '2', '3', '4'][d];
    } else {
      assert DigitChar(d) == ['5', '6', '7', '8', '9'][d - 5];
    }
  }

  lemma {:induction false} DecimalValueOfDecimal(n: nat)
    ensures DecimalValue(Decimal(n)) == n
    decreases n
  {
    var s := Decimal(n);
    DigitValue(n % 10);
    if n < 10 {
      assert s[..|s| - 1] == [];
    } else {
      assert s[..|s| - 1] == Decimal(n / 10) && s[|s| - 1] == DigitChar(n % 10);
      DecimalValueOfDecimal(n / 10);
    }
  }

  lemma {:induction false} ZerosValue(k: nat)
    ensures DecimalValue(Zeros(k)) == 0
    decreases k
  {
    if k > 0 {
      assert Zeros(k)[..k - 1] == Zeros(k - 1);
      ZerosValue(k - 1);
    }
  }

  /** Leading zeros do not change the number. */
  lemma {:induction false} LeadingZerosValue(k: nat, s: string)
    ensures DecimalValue(Zeros(k) + s) == DecimalValue(s)
    decreases |s|
  {
    if s == [] {
      assert Zeros(k) + s == Zeros(k);
      ZerosValue(k);
    } else {
      var t := Zeros(k) + s;
      assert t[..|t| - 1] == Zeros(k) + s[..|s| - 1];
      LeadingZerosValue(k, s[..|s| - 1]);
    }
  }

  lemma PaddedValue(n: nat)
    ensures DecimalValue(Pad6(Decimal(n))) == n
  {
    DecimalValueOfDecimal(n);
    if |Decimal(n)| < 6 {
      LeadingZerosValue(6 - |Decimal(n)|, Decimal(n));
    }
  }

  /** Distinct file numbers give distinct file names in the same directory. */
  lemma FileNameInjective(dir: string, a: u64, b: u64)
    ensures FileName(dir, a) == FileName(dir, b) <==> a == b
  {
    if FileName(dir, a) == FileName(dir, b) {
      var na, nb := FileName(dir, a), FileName(dir, b);
      var pa, pb := Pad6(Decimal(a)), Pad6(Decimal(b));
      assert na == (dir + "/") + pa + DataFileExt;
      assert nb == (dir + "/") + pb + DataFileExt;
      assert pa == na[|dir| + 1..|na| - |DataFileExt|];
      assert pb == nb[|dir| + 1..|nb| - |DataFileExt|];
      PaddedValue(a);
      PaddedValue(b);
    }
  }

  /** The first file of a store in directory "d" is "d/000001.db". */
  lemma FirstFileName()
    ensures FileName("d", 1) == "d/000001.db"
  {
    assert Decimal(1) == "1";
    assert Pad6("1") == "000001";
  }

  /** A data file: its number, its name, its size limit and the handle to its bytes. */
  datatype DataFileState = DataFileState(suffix: u64, name: string, maxSize: i64, handle: P.Handle)

  /**
   * NewManager, with `existing` the bytes the file already holds. Only an active file
   * carries a size limit; an older one gets 0.
   */
  function NewManager(dir: string, suffix: u64, isActive: bool, maxSize: i64, existing: seq<byte>): (r: DataFileState)
    ensures r.suffix == suffix && r.name == FileName(dir, suffix)
    ensures r.maxSize == if isActive then maxSize else 0
    ensures r.handle == P.Handle(existing, isActive, true)
  {
    DataFileState(suffix, FileName(dir, suffix), if isActive then maxSize else 0, P.Handle(existing, isActive, true))
  }

  /** ID: the file's number. */
  function ID(f: DataFileState): u64
  {
    f.suffix
  }

  /**
   * checkExceedFileSizeLimit, both branches as written. Because the offset is never
   * negative, the second branch never decides anything: the record is refused
   * exactly when it would end past the limit.
   */
  function CheckExceedFileSizeLimit(f: DataFileState, recordSize: int): (r: Option<Error>)
    ensures r.Some? <==> recordSize + P.EndOf(f.handle) > f.maxSize
    ensures r.Some? ==> r.value == ErrFileTooSmall
  {
    if recordSize + P.EndOf(f.handle) > f.maxSize then Some(ErrFileTooSmall)
    else if recordSize > f.maxSize then Some(ErrFileTooSmall)
    else None
  }

  /** The second branch alone: a record larger than the limit by itself. */
  lemma SecondBranchSubsumed(f: DataFileState, recordSize: int)
    requires recordSize > f.maxSize
    ensures recordSize + P.EndOf(f.handle) > f.maxSize
    ensures CheckExceedFileSizeLimit(f, recordSize) == Some(ErrFileTooSmall)
  {
  }

  /**
   * The shared tail of Write and Del: check the limit unless forced, serialize, append
   * and describe where the record went.
   */
  function Append(f: DataFileState, rec: LogRecord, force: bool, fault: Option<nat>): (r: (DataFileState, Result<ValueMetadata>))
    requires KnownType(rec.typ)
    ensures r.1.Ok? <==> (force || CheckExceedFileSizeLimit(f, Size(rec)).None?) && f.handle.isOpen && f.handle.writable && fault.None?
    ensures !force && CheckExceedFileSizeLimit(f, Size(rec)).Some? ==> r.1 == Err(ErrFileTooSmall)
    ensures r.1.Err? ==> r.0 == f
    ensures r.1.Ok? ==> r.0 == f.(handle := f.handle.(contents := f.handle.contents + Serialize(rec).bytes))
    ensures r.1.Ok? ==> r.1.value == ValueMetadata(f.suffix, Uint64(Size(rec)), Uint64(P.EndOf(f.handle)), Int64(rec.tmStamp))
  {
    if !force && CheckExceedFileSizeLimit(f, Size(rec)).Some? then (f, Err(CheckExceedFileSizeLimit(f, Size(rec)).value))
    else
      var bs := Serialize(rec).bytes;
      SerializedLength(rec);
      var (h', w) := P.Write(f.handle, bs, fault);
      if w.err.Some? then (f.(handle := h'), Err(w.err.value))
      else (f.(handle := h'), Ok(NewValueMetadata(ID(f), Uint64(w.wn), Uint64(w.offset), Int64(rec.tmStamp))))
  }

  /** Write: append a normal record for key and value. */
  function FileWrite(f: DataFileState, key: Slice, value: Slice, force: bool, now: u64, fault: Option<nat>): (r: (DataFileState, Result<ValueMetadata>))
  {
    Append(f, NewNormalLogRecord(Bytes(key), Bytes(value), now), force, fault)
  }

  /** Del: append a delete record (a tombstone) for key. */
  function FileDel(f: DataFileState, key: Slice, force: bool, now: u64, fault: Option<nat>): (r: (DataFileState, Result<ValueMetadata>))
  {
    Append(f, NewDeleteLogRecord(Bytes(key), now), force, fault)
  }

  /**
   * Value() of a decoded record. A normal record's value is a slice of the bytes read;
   * Deserialize leaves the value of any other record nil.
   */
  function RecordValue(rec: LogRecord): Slice
  {
    if rec.typ == NormalRecord then Some(rec.value) else None
  }

  /** Read: read ValueSz bytes at ValuePos, decode them as one record and return its value. */
  function FileRead(f: DataFileState, mv: ValueMetadata): (r: Result<Slice>)
  {
    var (bs, err) := P.ReadAt(f.handle, mv.valueSz, mv.valuePos);
    if err.Some? then Err(err.value)
    else match Deserialize(bs)
      case Err(e) => Err(e)
      case Ok(rec) => Ok(RecordValue(rec))
  }

  /**
   * ToOlderFile: close the handle and reopen the same file read-only. The number, the
   * name and the size limit stay; a failing close leaves the handle closed.
   */
  function FileToOlder(f: DataFileState, fault: Option<nat>): (r: (DataFileState, Option<Error>))
    ensures r.0.suffix == f.suffix && r.0.name == f.name && r.0.maxSize == f.maxSize
    ensures r.0.handle.contents == f.handle.contents
    ensures r.1.None? <==> f.handle.isOpen && fault.None?
    ensures r.1.None? ==> r.0.handle.isOpen && !r.0.handle.writable
    ensures r.1.Some? ==> !r.0.handle.isOpen
  {
    var (h', err) := P.CloseHandle(f.handle, fault);
    if err.Some? then (f.(handle := h'), err)
    else (f.(handle := P.Handle(h'.contents, false, true)), None)
  }

  function FileClose(f: DataFileState, fault: Option<nat>): (r: (DataFileState, Option<Error>))
  {
    var (h', err) := P.CloseHandle(f.handle, fault);
    (f.(handle := h'), err)
  }

  /** What the lemmas below need of a file: open for appending, with room for the offsets. */
  predicate Appendable(f: DataFileState, room: nat)
  {
    f.handle.isOpen && f.handle.writable && |f.handle.contents| + room < Two63
  }

  /** Reading the bytes of a record written just before returns that record. */
  lemma ReadAppended(f: DataFileState, rec: LogRecord)
    requires WellFormed(rec) && Appendable(f, Size(rec))
    ensures var (f', r) := Append(f, rec, true, None);
      && r.Ok?
      && P.ReadAt(f'.handle, r.value.valueSz, r.value.valuePos) == (Serialize(rec).bytes, None)
      && FileRead(f', r.value) == Ok(RecordValue(Serialize(rec).record))
  {
    var (f', r) := Append(f, rec, true, None);
    SerializedLength(rec);
    P.WriteThenRead(f.handle, Serialize(rec).bytes);
    RoundTrip(rec);
  }

  /** Read(Write(k, v)) returns v, the empty key included. */
  lemma WriteThenRead(f: DataFileState, key: Slice, value: Slice, force: bool, now: u64)
    requires Appendable(f, NormalKeyPos + |Bytes(key)| + |Bytes(value)|)
    ensures var (f', r) := FileWrite(f, key, value, force, now, None);
      r.Ok? ==> FileRead(f', r.value) == Ok(Some(Bytes(value)))
  {
    var rec := NewNormalLogRecord(Bytes(key), Bytes(value), now);
    if force || CheckExceedFileSizeLimit(f, Size(rec)).None? {
      assert Append(f, rec, force, None) == Append(f, rec, true, None);
      ReadAppended(f, rec);
    }
  }

  /** Reading a tombstone Del wrote gives a nil value and no error. */
  lemma DelThenRead(f: DataFileState, key: Slice, force: bool, now: u64)
    requires Appendable(f, DeleteKeyPos + |Bytes(key)|)
    ensures var (f', r) := FileDel(f, key, force, now, None);
      r.Ok? ==> FileRead(f', r.value) == Ok(None)
  {
    var rec := NewDeleteLogRecord(Bytes(key), now);
    if force || CheckExceedFileSizeLimit(f, Size(rec)).None? {
      assert Append(f, rec, force, None) == Append(f, rec, true, None);
      ReadAppended(f, rec);
    }
  }

  /** A write starts where the previous one ended: next.ValuePos = prev.ValuePos + prev.ValueSz. */
  lemma ConsecutiveWrites(f: DataFileState, a: LogRecord, b: LogRecord, fa: bool, fb: bool)
    requires KnownType(a.typ) && KnownType(b.typ) && Appendable(f, Size(a))
    ensures var (f1, r1) := Append(f, a, fa, None);
      var (f2, r2) := Append(f1, b, fb, None);
      r1.Ok? && r2.Ok? ==> r2.value.valuePos == r1.value.valuePos + r1.value.valueSz
  {
    SerializedLength(a);
  }

  /** The first write to a new, empty file starts at offset 0. */
  lemma FirstWriteAtZero(f: DataFileState, rec: LogRecord, force: bool)
    requires KnownType(rec.typ) && f.handle.contents == []
    ensures var (_, r) := Append(f, rec, force, None);
      r.Ok? ==> r.value.valuePos == 0
  {
  }

  /** Appending more records does not change what an earlier successful read returns. */
  lemma ReadStableUnderAppend(f: DataFileState, mv: ValueMetadata, rec: LogRecord, force: bool, fault: Option<nat>)
    requires KnownType(rec.typ) && FileRead(f, mv).Ok?
    ensures FileRead(Append(f, rec, force, fault).0, mv) == FileRead(f, mv)
  {
    var (f', _) := Append(f, rec, force, fault);
    if f'.handle != f.handle {
      P.ReadStableUnderAppend(f.handle, mv.valueSz, mv.valuePos, Serialize(rec).bytes);
    }
  }

  /** An older file still serves every read the active file did, but refuses forced writes. */
  lemma OlderFileKeepsReads(f: DataFileState, mv: ValueMetadata, rec: LogRecord)
    requires KnownType(rec.typ) && f.handle.isOpen && FileRead(f, mv).Ok?
    ensures var (g, err) := FileToOlder(f, None);
      && err.None?
      && FileRead(g, mv) == FileRead(f, mv)
      && Append(g, rec, true, None) == (g, Err(ErrReadOnly))
  {
    var (g, err) := FileToOlder(f, None);
    assert g.handle == f.handle.(writable := false);
    assert P.ReadAt(g.handle, mv.valueSz, mv.valuePos) == P.ReadAt(f.handle, mv.valueSz, mv.valuePos);
    assert P.Write(g.handle, Serialize(rec).bytes, None) == (g.handle, P.WriteResult(P.EndOf(g.handle), 0, Some(ErrReadOnly)));
  }

  /**
   * DataFileImpl: a data file as an object. Its handle is a field that ToOlderFile
   * replaces in place; the number, the name and the size limit are fixed.
   */
  class DataFile {
    var persistent: P.FilePersistent
    const name: string
    const suffix: u64
    const maxSize: i64

    function State(): DataFileState
      reads this, persistent
    {
      DataFileState(suffix, name, maxSize, persistent.State())
    }

    /** NewManager: open (or create) the file dir/%06d.db holding `existing`. */
    constructor (dir: string, suffix: u64, isActive: bool, maxSize: i64, existing: seq<byte>)
      ensures State() == NewManager(dir, suffix, isActive, maxSize, existing)
      ensures fresh(persistent)
    {
      this.suffix := suffix;
      this.name := FileName(dir, suffix);
      this.persistent := new P.FilePersistent(FileName(dir, suffix), suffix, isActive, existing);
      this.maxSize := if isActive then maxSize else 0;
    }

    function ID(): u64
      reads this
    {
      suffix
    }

    /** Write appends through the handle the record built from key, value and the clock. */
    method Write(key: Slice, value: Slice, force: bool, now: u64, fault: Option<nat>) returns (r: Result<ValueMetadata>)
      modifies persistent
      ensures (State(), r) == FileWrite(old(State()), key, value, force, now, fault)
    {
      var rec := NewNormalLogRecord(Bytes(key), Bytes(value), now);
      r := AppendRecord(rec, force, fault);
    }

    method Del(key: Slice, force: bool, now: u64, fault: Option<nat>) returns (r: Result<ValueMetadata>)
      modifies persistent
      ensures (State(), r) == FileDel(old(State()), key, force, now, fault)
    {
      var rec := NewDeleteLogRecord(Bytes(key), now);
      r := AppendRecord(rec, force, fault);
    }

    method AppendRecord(rec: LogRecord, force: bool, fault: Option<nat>) returns (r: Result<ValueMetadata>)
      requires KnownType(rec.typ)
      modifies persistent
      ensures (State(), r) == Append(old(State()), rec, force, fault)
    {
      if !force {
        var check := CheckExceedFileSizeLimit(State(), Size(rec));
        if check.Some? {
          return Err(check.value);
        }
      }
      var bs := Serialize(rec).bytes;
      SerializedLength(rec);
      var offset, wn, err := persistent.WriteToDisk(bs, fault);
      if err.Some? {
        return Err(err.value);
      }
      r := Ok(NewValueMetadata(suffix, Uint64(wn), Uint64(offset), Int64(rec.tmStamp)));
    }

    /** Read: a fresh buffer of ValueSz bytes, filled from ValuePos and decoded. */
    method Read(mv: ValueMetadata) returns (r: Result<Slice>)
      ensures r == FileRead(State(), mv)
    {
      var bs := new byte[mv.valueSz];
      var n, err := persistent.ReadFromDisk(bs, mv.valuePos);
      if err.Some? {
        return Err(err.value);
      }
      assert bs[..] == bs[..n];
      var item := Deserialize(bs[..]);
      if item.Err? {
        return Err(item.error);
      }
      r := Ok(RecordValue(item.value));
    }

    method Close(fault: Option<nat>) returns (err: Option<Error>)
      modifies persistent
      ensures (State(), err) == FileClose(old(State()), fault)
    {
      err := persistent.Close(fault);
    }

    /**
     * ToOlderFile: close, then reopen the same file read-only in place. The file
     * returned is this one; a failing close returns none.
     */
    method ToOlderFile(fault: Option<nat>) returns (f: DataFile?, err: Option<Error>)
      modifies this, persistent
      ensures (State(), err) == FileToOlder(old(State()), fault)
      ensures err.None? ==> f == this && fresh(persistent)
      ensures err.Some? ==> f == null && unchanged(this)
    {
      err := Close(fault);
      if err.Some? {
        return null, err;
      }
      persistent := new P.FilePersistent(name, suffix, false, persistent.contents);
      f := this;
    }
  }
}
