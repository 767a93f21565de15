/**
 * The storage engine of db.go: a state machine over the active data file, the
 * older data files by number, the file counter and the B-tree index. The pure
 * functions below state what each operation does to the whole state; the DB class
 * at the end performs them on objects and is proved to agree with them.
 */
module Engine {
  import opened Common
  import opened Index
  import opened DbOptions
  import opened DataFiles
  import opened LogRecordCodec
  import opened BtreeIndex
  import P = Persistent

  /** The whole state of a DB. */
  datatype DbState = DbState(
    opts: Options,
    maxFileID: u64,
    active: Option<DataFileState>,
    olds: map<u64, DataFileState>,
    index: seq<BTreeItem>)

  /** NewDb: a B-tree index, no data file yet, no older files. */
  function NewDbState(opts: Options): (s: DbState)
    ensures s.active.None? && s.olds == map[] && s.index == [] && s.maxFileID == 0 && s.opts == opts
  {
    DbState(opts, 0, None, map[], [])
  }

  /** maxFileID.Add(1): the counter's next value, wrapping like a uint64. */
  function NextID(n: u64): u64
  {
    Uint64(n + 1)
  }

  /** A new active data file: size-limited, and empty, since the engine only creates new files. */
  function NewActiveFile(opts: Options, id: u64): DataFileState
  {
    NewManager(opts.dir, id, true, opts.maxSize, [])
  }

  /** The clock readings and the faults one Put meets, in the order it meets them. */
  datatype PutEnv = PutEnv(
    now: u64,                  // stamps the record of the first write
    writeFault: Option<nat>,   // the first write's handle fault
    rotateFault: Option<nat>,  // closing the full file in ToOlderFile
    retryNow: u64,             // stamps the record of the forced retry
    retryFault: Option<nat>)   // the retry's handle fault

  /** index.Set(key, vMeta): the error is the nil-key check's. */
  function SetIndex(s: DbState, key: Slice, p: Ptr): (DbState, Option<Error>)
  {
    (s.(index := TreeSet(s.index, key, p)), CheckKey(key))
  }

  /** The state once Put has made sure there is an active file. */
  function WithActive(s: DbState): (r: DbState)
    ensures r.active.Some?
  {
    if s.active.Some? then s
    else
      var id := NextID(s.maxFileID);
      s.(maxFileID := id, active := Some(NewActiveFile(s.opts, id)))
  }

  /**
   * Put as written. A record that does not fit rotates the active file into the
   * older files and is written again, forced, to a new active file. Any other write
   * error is dropped: the index is then set to nil for the key.
   */
  function DbPut(s: DbState, key: Slice, value: Slice, env: PutEnv): (DbState, Option<Error>)
  {
    PutActive(WithActive(s), key, value, env)
  }

  /** Put once there is an active file: the first, unforced, write and what follows it. */
  function PutActive(s1: DbState, key: Slice, value: Slice, env: PutEnv): (DbState, Option<Error>)
    requires s1.active.Some?
  {
    var (f1, r) := FileWrite(s1.active.value, key, value, false, env.now, env.writeFault);
    if r == Err(ErrFileTooSmall) then Rotate(s1.(active := Some(f1)), key, value, env)
    else SetIndex(s1.(active := Some(f1)), key, if r.Ok? then Some(r.value) else None)
  }

  /**
   * The rotation inside Put: ToOlderFile on the active file, whose error is returned;
   * then the file joins the older files under its ID and a new active file is made.
   */
  function Rotate(s1: DbState, key: Slice, value: Slice, env: PutEnv): (DbState, Option<Error>)
    requires s1.active.Some?
  {
    var (g, e) := FileToOlder(s1.active.value, env.rotateFault);
    if e.Some? then (s1.(active := Some(g)), e)
    else Retry(Rotated(s1, g), key, value, env)
  }

  /** The state Rotate hands to the retry once ToOlderFile has succeeded. */
  function Rotated(s1: DbState, g: DataFileState): DbState
  {
    var id := NextID(s1.maxFileID);
    s1.(olds := s1.olds[ID(g) := g], maxFileID := id, active := Some(NewActiveFile(s1.opts, id)))
  }

  /** The forced write to the new active file; its error is returned, else the index is set. */
  function Retry(s2: DbState, key: Slice, value: Slice, env: PutEnv): (DbState, Option<Error>)
    requires s2.active.Some?
  {
    var (nf, r2) := FileWrite(s2.active.value, key, value, true, env.retryNow, env.retryFault);
    if r2.Err? then (s2.(active := Some(nf)), Some(r2.error))
    else SetIndex(s2.(active := Some(nf)), key, Some(r2.value))
  }

  /** Get: look the key up, then read the record from the active file, whatever FileID says. */
  function DbGet(s: DbState, key: Slice): Result<Slice>
  {
    match TreeGet(s.index, key)
    case Err(e) => Err(e)
    case Ok(p) =>
      if p.None? then Ok(None)
      else if s.active.None? then Err(PanicNilDereference)
      else FileRead(s.active.value, p.value)
  }

  /**
   * Del as written: a forced tombstone is always appended, then the key is removed
   * from the index and set again to the tombstone's metadata.
   */
  function DbDel(s: DbState, key: Slice, now: u64, fault: Option<nat>): (DbState, Option<Error>)
  {
    if s.active.None? then (s, Some(PanicNilDereference))
    else
      var (f1, r) := FileDel(s.active.value, key, true, now, fault);
      var s1 := s.(active := Some(f1));
      if r.Err? then (s1, Some(r.error))
      else if CheckKey(key).Some? then (s1, CheckKey(key))
      else SetIndex(s1.(index := TreeDel(s1.index, key)), key, Some(r.value))
  }

  /** The fault closing older file id meets, if any. */
  function FaultOf(faults: map<u64, nat>, id: u64): Option<nat>
  {
    if id in faults then Some(faults[id]) else None
  }

  /** Close the older files in the given order, keeping the first error. */
  function CloseOlds(olds: map<u64, DataFileState>, order: seq<u64>, faults: map<u64, nat>): (r: (map<u64, DataFileState>, Option<Error>))
    requires forall i :: 0 <= i < |order| ==> order[i] in olds
    ensures r.0.Keys == olds.Keys
  {
    if order == [] then (olds, None)
    else
      var (o, e) := CloseOlds(olds, order[..|order| - 1], faults);
      var id := order[|order| - 1];
      var (f, e') := FileClose(o[id], FaultOf(faults, id));
      (o[id := f], if e.Some? then e else e')
  }

  /** One more step of CloseOlds: the next file in the order is closed. */
  lemma CloseOldsStep(olds: map<u64, DataFileState>, order: seq<u64>, i: nat, faults: map<u64, nat>)
    requires i < |order| && forall j :: 0 <= j < |order| ==> order[j] in olds
    ensures var (o, e) := CloseOlds(olds, order[..i], faults);
      var (f, e') := FileClose(o[order[i]], FaultOf(faults, order[i]));
      CloseOlds(olds, order[..i + 1], faults) == (o[order[i] := f], if e.Some? then e else e')
  {
    assert order[..i + 1][..i] == order[..i];
  }

  /** Distinct ids covering exactly the older files: an order `range` may visit them in. */
  predicate IsOrder(ids: set<u64>, order: seq<u64>)
  {
    && (forall i, j :: 0 <= i < j < |order| ==> order[i] != order[j])
    && (forall i :: 0 <= i < |order| ==> order[i] in ids)
    && (forall id :: id in ids ==> id in order)
  }

  /**
   * Close: a failure to close the active file is returned at once. Otherwise every
   * older file is closed, in the order given, and the first error is returned.
   */
  function DbClose(s: DbState, activeFault: Option<nat>, order: seq<u64>, faults: map<u64, nat>): (DbState, Option<Error>)
    requires IsOrder(s.olds.Keys, order)
  {
    if s.active.None? then (s, Some(PanicNilDereference))
    else
      var (f, e) := FileClose(s.active.value, activeFault);
      var s1 := s.(active := Some(f));
      if e.Some? then (s1, e)
      else
        var (olds, err) := CloseOlds(s.olds, order, faults);
        (s1.(olds := olds), err)
  }

  /**
   * What the engine keeps true: the active file carries the counter's number, every
   * older file sits under its own number, which is below the counter, and the index
   * is sorted. So the files' numbers are distinct and at most maxFileID.
   */
  ghost predicate Inv(s: DbState)
  {
    FilesNumbered(s) && Sorted(s.index)
  }

  ghost predicate FilesNumbered(s: DbState)
  {
    && (s.active.Some? ==> s.active.value.suffix == s.maxFileID)
    && (forall id :: id in s.olds ==> s.olds[id].suffix == id && id < s.maxFileID)
  }

  /** Set keeps the index sorted. */
  lemma TreeSetSorted(t: seq<BTreeItem>, key: Slice, p: Ptr)
    requires Sorted(t)
    ensures Sorted(TreeSet(t, key, p))
  {
    if key.Some? {
      InsertSorted(t, key.value, p);
    }
  }

  /** The forced retry keeps the invariant, the counter and the older files. */
  lemma RetryPreservesInv(s2: DbState, key: Slice, value: Slice, env: PutEnv)
    requires Inv(s2) && s2.active.Some?
    ensures var s' := Retry(s2, key, value, env).0;
      Inv(s') && s'.maxFileID == s2.maxFileID && s'.olds == s2.olds && s'.opts == s2.opts
  {
    var (nf, r2) := FileWrite(s2.active.value, key, value, true, env.retryNow, env.retryFault);
    if r2.Ok? {
      TreeSetSorted(s2.index, key, Some(r2.value));
    }
  }

  /** Rotate is the retry on the rotated state, unless ToOlderFile fails. */
  lemma RotateStages(s1: DbState, key: Slice, value: Slice, env: PutEnv)
    requires s1.active.Some?
    ensures var (g, e) := FileToOlder(s1.active.value, env.rotateFault);
      Rotate(s1, key, value, env) == if e.Some? then (s1.(active := Some(g)), e) else Retry(Rotated(s1, g), key, value, env)
  {
  }

  /** Rotation keeps the invariant: the full file goes under its number, below the next one. */
  lemma RotatePreservesInv(s1: DbState, key: Slice, value: Slice, env: PutEnv)
    requires Inv(s1) && s1.active.Some? && s1.maxFileID as int + 1 < Two64
    ensures var s' := Rotate(s1, key, value, env).0;
      && Inv(s')
      && s1.maxFileID <= s'.maxFileID <= s1.maxFileID + 1
      && s1.olds.Keys <= s'.olds.Keys
      && s'.opts == s1.opts
  {
    RotateStages(s1, key, value, env);
    var (g, e) := FileToOlder(s1.active.value, env.rotateFault);
    if e.None? {
      assert Inv(Rotated(s1, g));
      RetryPreservesInv(Rotated(s1, g), key, value, env);
    }
  }

  /** PutActive is the rotation when the first write does not fit, and sets the index otherwise. */
  lemma PutActiveStages(s1: DbState, key: Slice, value: Slice, env: PutEnv)
    requires s1.active.Some?
    ensures var (f1, r) := FileWrite(s1.active.value, key, value, false, env.now, env.writeFault);
      && (r == Err(ErrFileTooSmall) ==> f1 == s1.active.value && PutActive(s1, key, value, env) == Rotate(s1, key, value, env))
      && (r != Err(ErrFileTooSmall) ==>
        PutActive(s1, key, value, env) == SetIndex(s1.(active := Some(f1)), key, if r.Ok? then Some(r.value) else None))
  {
  }

  lemma PutActivePreservesInv(s1: DbState, key: Slice, value: Slice, env: PutEnv)
    requires Inv(s1) && s1.active.Some? && s1.maxFileID as int + 1 < Two64
    ensures var s' := PutActive(s1, key, value, env).0;
      && Inv(s')
      && s1.maxFileID <= s'.maxFileID <= s1.maxFileID + 1
      && s1.olds.Keys <= s'.olds.Keys
      && s'.opts == s1.opts
  {
    PutActiveStages(s1, key, value, env);
    var (f1, r) := FileWrite(s1.active.value, key, value, false, env.now, env.writeFault);
    if r == Err(ErrFileTooSmall) {
      RotatePreservesInv(s1, key, value, env);
    } else {
      TreeSetSorted(s1.index, key, if r.Ok? then Some(r.value) else None);
    }
  }

  /**
   * Put keeps the invariant, and the counter only grows, by at most the two files one
   * Put can create (ruling out the uint64 wrap), while older files are only added.
   */
  lemma PutPreservesInv(s: DbState, key: Slice, value: Slice, env: PutEnv)
    requires Inv(s) && s.maxFileID as int + 2 < Two64
    ensures var s' := DbPut(s, key, value, env).0;
      && Inv(s')
      && s.maxFileID <= s'.maxFileID <= s.maxFileID + 2
      && s.olds.Keys <= s'.olds.Keys
      && s'.opts == s.opts
  {
    var s1 := WithActive(s);
    assert Inv(s1) && s.maxFileID <= s1.maxFileID <= s.maxFileID + 1;
    PutActivePreservesInv(s1, key, value, env);
  }

  /**
   * The first Put on a DB without an active file creates data file maxFileID+1 and,
   * when the record fits, appends it there.
   */
  lemma FirstPutCreatesFile(s: DbState, key: Slice, value: Slice, env: PutEnv)
    requires s.active.None? && s.maxFileID as int + 1 < Two64 && env.writeFault.None?
    requires NormalKeyPos + |Bytes(key)| + |Bytes(value)| <= s.opts.maxSize as int
    ensures var (s', err) := DbPut(s, key, value, env);
      var rec := NewNormalLogRecord(Bytes(key), Bytes(value), env.now);
      && err == CheckKey(key)
      && s'.maxFileID == s.maxFileID + 1 && s'.olds == s.olds
      && s'.active.Some?
      && s'.active.value.suffix == s.maxFileID + 1
      && s'.active.value.name == FileName(s.opts.dir, s.maxFileID + 1)
      && s'.active.value.handle.contents == Serialize(rec).bytes
      && s'.index == TreeSet(s.index, key, Some(ValueMetadata(s.maxFileID + 1, Uint64(Size(rec)), 0, Int64(env.now))))
  {
    SerializedLength(NewNormalLogRecord(Bytes(key), Bytes(value), env.now));
    var s1 := WithActive(s);
    PutActiveStages(s1, key, value, env);
    var (f1, r) := FileWrite(s1.active.value, key, value, false, env.now, None);
    assert r.Ok?;
  }

  /** On a new DB the first file is number 1, and the first record sits at offset 0 of it. */
  lemma FirstPutOnNewDb(opts: Options, key: Slice, value: Slice, env: PutEnv)
    requires key.Some? && env.writeFault.None?
    requires NormalKeyPos + |key.value| + |Bytes(value)| <= opts.maxSize as int
    ensures var (s', err) := DbPut(NewDbState(opts), key, value, env);
      var rec := NewNormalLogRecord(key.value, Bytes(value), env.now);
      && err.None?
      && s'.active.Some? && s'.active.value.suffix == 1 && s'.active.value.name == FileName(opts.dir, 1)
      && TreeGet(s'.index, key) == Ok(Some(ValueMetadata(1, Uint64(Size(rec)), 0, Int64(env.now))))
  {
    var rec := NewNormalLogRecord(key.value, Bytes(value), env.now);
    FirstPutCreatesFile(NewDbState(opts), key, value, env);
    FindInsertSame([], key.value, Some(ValueMetadata(1, Uint64(Size(rec)), 0, Int64(env.now))));
  }

  /** What the retry into a new, empty file leaves: the record appended, or its error. */
  lemma RetryResult(s2: DbState, key: Slice, value: Slice, env: PutEnv)
    requires s2.active.Some? && s2.active.value.handle == P.Handle([], true, true)
    ensures var (s', err) := Retry(s2, key, value, env);
      var rec := NewNormalLogRecord(Bytes(key), Bytes(value), env.retryNow);
      var nf := s2.active.value;
      && s'.olds == s2.olds && s'.maxFileID == s2.maxFileID
      && (env.retryFault.Some? ==>
        && s'.active == Some(nf) && s'.index == s2.index
        && err == Some(IoFault(env.retryFault.value)))
      && (env.retryFault.None? ==>
        && s'.active == Some(nf.(handle := nf.handle.(contents := Serialize(rec).bytes)))
        && s'.index == TreeSet(s2.index, key, Some(ValueMetadata(nf.suffix, Uint64(Size(rec)), 0, Int64(env.retryNow))))
        && err == CheckKey(key))
  {
    if env.retryFault.None? {
      RetryAppends(s2, key, value, env);
    }
  }

  /** The retry without a fault: the record is the new file's only content. */
  lemma RetryAppends(s2: DbState, key: Slice, value: Slice, env: PutEnv)
    requires s2.active.Some? && s2.active.value.handle == P.Handle([], true, true) && env.retryFault.None?
    ensures var (s', err) := Retry(s2, key, value, env);
      var rec := NewNormalLogRecord(Bytes(key), Bytes(value), env.retryNow);
      var nf := s2.active.value;
      && s'.active == Some(nf.(handle := nf.handle.(contents := Serialize(rec).bytes)))
      && s'.index == TreeSet(s2.index, key, Some(ValueMetadata(nf.suffix, Uint64(Size(rec)), 0, Int64(env.retryNow))))
      && err == CheckKey(key)
  {
    var rec := NewNormalLogRecord(Bytes(key), Bytes(value), env.retryNow);
    SerializedLength(rec);
    assert [] + Serialize(rec).bytes == Serialize(rec).bytes;
  }


  /**
   * A record that does not fit the active file rotates it: the file, closed and
   * reopened read-only with its contents, joins the older files under its number, and
   * the record is written, forced, to a new active file with the next number.
   */
  lemma PutRotates(s: DbState, key: Slice, value: Slice, env: PutEnv)
    requires s.active.Some? && s.active.value.handle.isOpen && env.rotateFault.None?
    requires CheckExceedFileSizeLimit(s.active.value, NormalKeyPos + |Bytes(key)| + |Bytes(value)|).Some?
    ensures var (s', err) := DbPut(s, key, value, env);
      var f := s.active.value;
      var id := NextID(s.maxFileID);
      var rec := NewNormalLogRecord(Bytes(key), Bytes(value), env.retryNow);
      var nf := NewActiveFile(s.opts, id);
      && s'.olds == s.olds[f.suffix := f.(handle := P.Handle(f.handle.contents, false, true))]
      && s'.maxFileID == id
      && s'.active.Some? && s'.active.value.suffix == id && s'.active.value.name == FileName(s.opts.dir, id)
      && (env.retryFault.Some? ==>
        && s'.active == Some(nf) && s'.index == s.index
        && err == Some(IoFault(env.retryFault.value)))
      && (env.retryFault.None? ==>
        && s'.active == Some(nf.(handle := nf.handle.(contents := Serialize(rec).bytes)))
        && s'.index == TreeSet(s.index, key, Some(ValueMetadata(id, Uint64(Size(rec)), 0, Int64(env.retryNow))))
        && err == CheckKey(key))
  {
    SerializedLength(NewNormalLogRecord(Bytes(key), Bytes(value), env.now));
    PutActiveStages(s, key, value, env);
    assert DbPut(s, key, value, env) == PutActive(s, key, value, env) == Rotate(s, key, value, env);
    RotateStages(s, key, value, env);
    var (g, e) := FileToOlder(s.active.value, None);
    assert e.None? && ID(g) == s.active.value.suffix;
    RetryResult(Rotated(s, g), key, value, env);
  }

  /** The retry into a file with room succeeds, and Get then returns the value. */
  lemma RetryThenGet(s2: DbState, key: Slice, value: Slice, env: PutEnv)
    requires key.Some? && env.retryFault.None?
    requires s2.active.Some? && Appendable(s2.active.value, NormalKeyPos + |key.value| + |Bytes(value)|)
    ensures var (s', err) := Retry(s2, key, value, env);
      err.None? && DbGet(s', key) == Ok(Some(Bytes(value)))
  {
    var (nf, r2) := FileWrite(s2.active.value, key, value, true, env.retryNow, None);
    WriteThenRead(s2.active.value, key, value, true, env.retryNow);
    FindInsertSame(s2.index, key.value, Some(r2.value));
  }

  /** Rotation of an open file, without faults, ends with the value readable. */
  lemma RotateThenGet(s1: DbState, key: Slice, value: Slice, env: PutEnv)
    requires key.Some? && env.rotateFault.None? && env.retryFault.None?
    requires NormalKeyPos + |key.value| + |Bytes(value)| < Two63
    requires s1.active.Some? && s1.active.value.handle.isOpen
    ensures var (s', err) := Rotate(s1, key, value, env);
      err.None? && DbGet(s', key) == Ok(Some(Bytes(value)))
  {
    RotateStages(s1, key, value, env);
    var (g, e) := FileToOlder(s1.active.value, None);
    RetryThenGet(Rotated(s1, g), key, value, env);
  }

  /** Get after a successful Put returns the value just put, rotation or not. */
  lemma PutThenGet(s: DbState, key: Slice, value: Slice, env: PutEnv)
    requires key.Some?
    requires env.writeFault.None? && env.rotateFault.None? && env.retryFault.None?
    requires NormalKeyPos + |key.value| + |Bytes(value)| < Two63
    requires s.active.Some? ==> Appendable(s.active.value, NormalKeyPos + |key.value| + |Bytes(value)|)
    ensures var (s', err) := DbPut(s, key, value, env);
      err.None? && DbGet(s', key) == Ok(Some(Bytes(value)))
  {
    var s1 := WithActive(s);
    var f := s1.active.value;
    assert Appendable(f, NormalKeyPos + |key.value| + |Bytes(value)|);
    PutActiveStages(s1, key, value, env);
    var (f1, r) := FileWrite(f, key, value, false, env.now, None);
    WriteThenRead(f, key, value, false, env.now);
    if r == Err(ErrFileTooSmall) {
      RotateThenGet(s1, key, value, env);
    } else {
      FindInsertSame(s1.index, key.value, Some(r.value));
    }
  }

  /**
   * A write that fails for any reason but size is lost: Put still succeeds, and the
   * key is set to nil, so Get then reports it absent.
   */
  lemma PutLosesWriteError(s: DbState, key: Slice, value: Slice, env: PutEnv)
    requires key.Some? && s.active.Some?
    requires CheckExceedFileSizeLimit(s.active.value, NormalKeyPos + |key.value| + |Bytes(value)|).None?
    requires !s.active.value.handle.isOpen || !s.active.value.handle.writable || env.writeFault.Some?
    ensures var (s', err) := DbPut(s, key, value, env);
      && err.None?
      && s'.active == s.active
      && TreeGet(s'.index, key) == Ok(None)
      && DbGet(s', key) == Ok(None)
  {
    SerializedLength(NewNormalLogRecord(key.value, Bytes(value), env.now));
    PutActiveStages(s, key, value, env);
    var (f1, r) := FileWrite(s.active.value, key, value, false, env.now, env.writeFault);
    assert r.Err? && r != Err(ErrFileTooSmall) && f1 == s.active.value;
    FindInsertSame(s.index, key.value, None);
  }

  /** A nil key is refused by the index, whatever happens to the record. */
  lemma PutNilKey(s: DbState, value: Slice, env: PutEnv)
    ensures var (s', err) := DbPut(s, None, value, env);
      err.Some? && s'.index == s.index
  {
    var s1 := WithActive(s);
    PutActiveStages(s1, None, value, env);
    var (f1, r) := FileWrite(s1.active.value, None, value, false, env.now, env.writeFault);
    if r == Err(ErrFileTooSmall) {
      RotateStages(s1, None, value, env);
      var (g, e) := FileToOlder(s1.active.value, env.rotateFault);
      if e.None? {
        RetryNilKey(Rotated(s1, g), value, env);
      }
    }
  }

  /**
   * On a writable active file with room, a nil-key Put still appends its record, as
   * one with an empty key, and then returns exactly the index's ErrKeyIsNil.
   */
  lemma PutNilKeyAppends(s: DbState, value: Slice, env: PutEnv)
    requires s.active.Some? && s.active.value.handle.isOpen && s.active.value.handle.writable
    requires env.writeFault.None?
    requires CheckExceedFileSizeLimit(s.active.value, NormalKeyPos + |Bytes(value)|).None?
    ensures var (s', err) := DbPut(s, None, value, env);
      && err == Some(ErrKeyIsNil)
      && s'.index == s.index
      && s'.active.Some?
      && s'.active.value.handle.contents == s.active.value.handle.contents + Serialize(NewNormalLogRecord([], Bytes(value), env.now)).bytes
  {
    SerializedLength(NewNormalLogRecord([], Bytes(value), env.now));
    PutActiveStages(s, None, value, env);
  }

  lemma RetryNilKey(s2: DbState, value: Slice, env: PutEnv)
    requires s2.active.Some?
    ensures var (s', err) := Retry(s2, None, value, env);
      err.Some? && s'.index == s2.index
  {
  }

  /** Put of one key leaves what Get returns for any other key, as long as the record fits. */
  lemma PutKeepsOtherKeys(s: DbState, key: Slice, value: Slice, env: PutEnv, other: Slice)
    requires other != key && s.active.Some?
    requires CheckExceedFileSizeLimit(s.active.value, NormalKeyPos + |Bytes(key)| + |Bytes(value)|).None?
    requires DbGet(s, other).Ok?
    ensures DbGet(DbPut(s, key, value, env).0, other) == DbGet(s, other)
  {
    var rec := NewNormalLogRecord(Bytes(key), Bytes(value), env.now);
    SerializedLength(rec);
    PutActiveStages(s, key, value, env);
    var (f1, r) := FileWrite(s.active.value, key, value, false, env.now, env.writeFault);
    assert r != Err(ErrFileTooSmall);
    var p: Ptr := if r.Ok? then Some(r.value) else None;
    if other.Some? && key.Some? {
      FindInsertOther(s.index, key.value, p, other.value);
    }
    var e := TreeGet(s.index, other);
    if e.Ok? && e.value.Some? {
      ReadStableUnderAppend(s.active.value, e.value.value, rec, false, env.writeFault);
    }
  }

  /** A file holding exactly one record returns its value for a read of the whole file. */
  lemma ReadWholeFile(f: DataFileState, rec: LogRecord, m: ValueMetadata)
    requires WellFormed(rec) && f.handle.isOpen && f.handle.contents == Serialize(rec).bytes
    requires m.valuePos == 0 && m.valueSz as int == Size(rec)
    ensures FileRead(f, m) == Ok(RecordValue(Serialize(rec).record))
  {
    SerializedLength(rec);
    assert f.handle.contents[0..Size(rec)] == f.handle.contents;
    RoundTrip(rec);
  }

  /**
   * With a size limit of 0 every record rotates, so two Puts on a new DB, with the
   * same key or two keys, leave three files: an empty file 1, file 2 with the first
   * record, and the active file 3.
   * Get reads whatever the active file holds at the stored position: for a key
   * written to file 2, a second record of the same length is returned instead.
   */
  lemma MaxSizeZeroScenario(opts: Options, k1: Slice, v1: Slice, k2: Slice, v2: Slice, env1: PutEnv, env2: PutEnv)
    requires opts.maxSize == 0 && k1.Some? && k2.Some?
    requires env1.writeFault.None? && env1.rotateFault.None? && env1.retryFault.None?
    requires env2.writeFault.None? && env2.rotateFault.None? && env2.retryFault.None?
    requires NormalKeyPos + |k1.value| + |Bytes(v1)| + NormalKeyPos + |k2.value| + |Bytes(v2)| < Two63
    ensures var (s1, e1) := DbPut(NewDbState(opts), k1, v1, env1);
      var (s2, e2) := DbPut(s1, k2, v2, env2);
      && e1.None? && e2.None?
      && s2.maxFileID == 3 && s2.olds.Keys == {1, 2} && s2.olds[1].handle.contents == []
      && s2.active.Some? && s2.active.value.suffix == 3
      && DbGet(s2, k2) == Ok(Some(Bytes(v2)))
      && (|k1.value| + |Bytes(v1)| == |k2.value| + |Bytes(v2)| ==> DbGet(s2, k1) == Ok(Some(Bytes(v2))))
  {
    FirstPutWithNoRoom(opts, k1, v1, env1);
    var rec1 := NewNormalLogRecord(k1.value, Bytes(v1), env1.retryNow);
    var m1 := ValueMetadata(2, Uint64(Size(rec1)), 0, Int64(env1.retryNow));
    SerializedLength(rec1);
    PutRotatesAgain(DbPut(NewDbState(opts), k1, v1, env1).0, k1, v1, k2, v2, env2, m1);
  }

  /** The first half of the scenario above: the first Put rotates the empty file 1 out. */
  lemma FirstPutWithNoRoom(opts: Options, k1: Slice, v1: Slice, env1: PutEnv)
    requires opts.maxSize == 0 && k1.Some?
    requires env1.writeFault.None? && env1.rotateFault.None? && env1.retryFault.None?
    requires NormalKeyPos + |k1.value| + |Bytes(v1)| < Two63
    ensures var (s1, e1) := DbPut(NewDbState(opts), k1, v1, env1);
      var rec1 := NewNormalLogRecord(k1.value, Bytes(v1), env1.retryNow);
      && e1.None? && s1.opts == opts
      && s1.maxFileID == 2 && s1.olds.Keys == {1} && s1.olds[1].handle.contents == []
      && s1.active.Some? && s1.active.value.suffix == 2 && s1.active.value.maxSize == 0
      && s1.active.value.handle.isOpen && s1.active.value.handle.writable
      && s1.active.value.handle.contents == Serialize(rec1).bytes
      && s1.index == TreeSet([], k1, Some(ValueMetadata(2, Uint64(Size(rec1)), 0, Int64(env1.retryNow))))
  {
    var s0 := NewDbState(opts);
    var s0' := s0.(maxFileID := 1, active := Some(NewActiveFile(opts, 1)));
    assert DbPut(s0, k1, v1, env1) == DbPut(s0', k1, v1, env1);
    FirstRotationOlds(s0', k1, v1, env1);
    FirstRotationActive(s0', k1, v1, env1);
  }

  /** The rotation in the first Put: file 1, empty, becomes the only older file. */
  lemma FirstRotationOlds(s0: DbState, k1: Slice, v1: Slice, env1: PutEnv)
    requires s0.opts.maxSize == 0 && k1.Some? && s0.maxFileID == 1 && s0.olds == map[] && s0.index == []
    requires s0.active == Some(NewActiveFile(s0.opts, 1))
    requires env1.writeFault.None? && env1.rotateFault.None? && env1.retryFault.None?
    requires NormalKeyPos + |k1.value| + |Bytes(v1)| < Two63
    ensures var (s1, e1) := DbPut(s0, k1, v1, env1);
      && e1.None? && s1.opts == s0.opts
      && s1.maxFileID == 2 && s1.olds.Keys == {1} && s1.olds[1].handle.contents == []
  {
    PutRotates(s0, k1, v1, env1);
    var f := s0.active.value;
    SingleOld(s0.olds, DbPut(s0, k1, v1, env1).0.olds, f.(handle := P.Handle(f.handle.contents, false, true)));
  }

  lemma SingleOld(o1: map<u64, DataFileState>, o2: map<u64, DataFileState>, g: DataFileState)
    requires o1 == map[] && g.suffix == 1 && g.handle.contents == [] && o2 == o1[g.suffix := g]
    ensures o2.Keys == {1} && o2[1].handle.contents == []
  {
  }

  /** The retry in the first Put: file 2 is active and holds the record the index points at. */
  lemma FirstRotationActive(s0: DbState, k1: Slice, v1: Slice, env1: PutEnv)
    requires s0.opts.maxSize == 0 && k1.Some? && s0.maxFileID == 1 && s0.olds == map[] && s0.index == []
    requires s0.active == Some(NewActiveFile(s0.opts, 1))
    requires env1.writeFault.None? && env1.rotateFault.None? && env1.retryFault.None?
    requires NormalKeyPos + |k1.value| + |Bytes(v1)| < Two63
    ensures var (s1, e1) := DbPut(s0, k1, v1, env1);
      var rec1 := NewNormalLogRecord(k1.value, Bytes(v1), env1.retryNow);
      && s1.active.Some? && s1.active.value.suffix == 2 && s1.active.value.maxSize == 0
      && s1.active.value.handle.isOpen && s1.active.value.handle.writable
      && s1.active.value.handle.contents == Serialize(rec1).bytes
      && s1.index == TreeSet([], k1, Some(ValueMetadata(2, Uint64(Size(rec1)), 0, Int64(env1.retryNow))))
  {
    PutRotates(s0, k1, v1, env1);
  }

  /** The second half of the scenario above: the next Put rotates file 2 out. */
  lemma PutRotatesAgain(s1: DbState, k1: Slice, v1: Slice, k2: Slice, v2: Slice, env2: PutEnv, m1: ValueMetadata)
    requires s1.opts.maxSize == 0 && k1.Some? && k2.Some?
    requires env2.writeFault.None? && env2.rotateFault.None? && env2.retryFault.None?
    requires s1.maxFileID == 2 && s1.olds.Keys == {1} && s1.olds[1].handle.contents == []
    requires s1.active.Some? && s1.active.value.suffix == 2 && s1.active.value.maxSize == 0
    requires s1.active.value.handle.isOpen && s1.active.value.handle.writable
    requires |s1.active.value.handle.contents| + NormalKeyPos + |k2.value| + |Bytes(v2)| < Two63
    requires s1.index == TreeSet([], k1, Some(m1))
    requires m1.valuePos == 0 && m1.valueSz as int == NormalKeyPos + |k1.value| + |Bytes(v1)|
    ensures var (s2, e2) := DbPut(s1, k2, v2, env2);
      && e2.None?
      && s2.maxFileID == 3 && s2.olds.Keys == {1, 2} && s2.olds[1].handle.contents == []
      && s2.active.Some? && s2.active.value.suffix == 3
      && DbGet(s2, k2) == Ok(Some(Bytes(v2)))
      && (|k1.value| + |Bytes(v1)| == |k2.value| + |Bytes(v2)| ==> DbGet(s2, k1) == Ok(Some(Bytes(v2))))
  {
    PutRotates(s1, k2, v2, env2);
    var rec2 := NewNormalLogRecord(k2.value, Bytes(v2), env2.retryNow);
    var m2 := ValueMetadata(3, Uint64(Size(rec2)), 0, Int64(env2.retryNow));
    var s2 := DbPut(s1, k2, v2, env2).0;
    var nf := NewActiveFile(s1.opts, 3);
    assert s2.active == Some(nf.(handle := nf.handle.(contents := Serialize(rec2).bytes)));
    assert s2.index == Insert(s1.index, k2.value, Some(m2));
    SerializedLength(rec2);
    var f := s1.active.value;
    OldsShape(s1.olds, s2.olds, f.(handle := P.Handle(f.handle.contents, false, true)));
    ScenarioSecondRead(s1.index, s2, k1.value, k2.value, rec2, m1, m2);
  }

  lemma OldsShape(o1: map<u64, DataFileState>, o2: map<u64, DataFileState>, g: DataFileState)
    requires o1.Keys == {1} && o1[1].handle.contents == [] && o2 == o1[2 := g]
    ensures o2.Keys == {1, 2} && o2[1].handle.contents == []
  {
  }

  /**
   * Get in the state above: k2 reads its record, and k1, whose record went to file 2,
   * reads the active file's only record too when the lengths agree.
   */
  lemma ScenarioSecondRead(t: seq<BTreeItem>, s2: DbState, k1: seq<byte>, k2: seq<byte>, rec2: LogRecord, m1: ValueMetadata, m2: ValueMetadata)
    requires t == Insert([], k1, Some(m1)) && s2.index == Insert(t, k2, Some(m2))
    requires WellFormed(rec2) && rec2.typ == NormalRecord
    requires s2.active.Some? && s2.active.value.handle.isOpen && s2.active.value.handle.contents == Serialize(rec2).bytes
    requires m2.valuePos == 0 && m2.valueSz as int == Size(rec2) && m1.valuePos == 0
    ensures DbGet(s2, Some(k2)) == Ok(Some(rec2.value))
    ensures m1.valueSz == m2.valueSz ==> DbGet(s2, Some(k1)) == Ok(Some(rec2.value))
  {
    FindInsertSame(t, k2, Some(m2));
    ReadWholeFile(s2.active.value, rec2, m2);
    if m1.valueSz == m2.valueSz {
      if k1 != k2 {
        FindInsertSame([], k1, Some(m1));
        FindInsertOther(t, k2, Some(m2), k1);
      }
      ReadWholeFile(s2.active.value, rec2, m1);
    }
  }

  /** Del keeps the invariant, the counter and the older files. */
  lemma DelPreservesInv(s: DbState, key: Slice, now: u64, fault: Option<nat>)
    requires Inv(s)
    ensures var s' := DbDel(s, key, now, fault).0;
      Inv(s') && s'.maxFileID == s.maxFileID && s'.olds == s.olds && s'.opts == s.opts
  {
    if s.active.Some? && key.Some? {
      RemoveSorted(s.index, key.value);
      var (_, r) := FileDel(s.active.value, key, true, now, fault);
      if r.Ok? {
        TreeSetSorted(TreeDel(s.index, key), key, Some(r.value));
      }
    }
  }

  /**
   * A successful Del leaves the key in the index, bound to the tombstone just
   * appended at the end of the active file; Get then reports the key absent.
   */
  lemma DelLeavesTombstone(s: DbState, key: Slice, now: u64)
    requires key.Some? && s.active.Some? && Appendable(s.active.value, DeleteKeyPos + |key.value|)
    ensures var (s', err) := DbDel(s, key, now, None);
      && err.None?
      && TreeGet(s'.index, key).Ok? && TreeGet(s'.index, key).value.Some?
      && TreeGet(s'.index, key).value.value.valuePos == |s.active.value.handle.contents|
      && DbGet(s', key) == Ok(None)
  {
    var (f1, r) := FileDel(s.active.value, key, true, now, None);
    DelThenRead(s.active.value, key, true, now);
    FindInsertSame(TreeDel(s.index, key), key.value, Some(r.value));
  }

  /** Del of one key leaves what Get returns for any other key. */
  lemma DelKeepsOtherKeys(s: DbState, key: Slice, now: u64, fault: Option<nat>, other: Slice)
    requires other != key && s.active.Some? && DbGet(s, other).Ok?
    ensures DbGet(DbDel(s, key, now, fault).0, other) == DbGet(s, other)
  {
    var rec := NewDeleteLogRecord(Bytes(key), now);
    var (f1, r) := FileDel(s.active.value, key, true, now, fault);
    if other.Some? && key.Some? {
      FindRemoveOther(s.index, key.value, other.value);
      if r.Ok? {
        FindInsertOther(TreeDel(s.index, key), key.value, Some(r.value), other.value);
      }
    }
    var e := TreeGet(s.index, other);
    if e.Ok? && e.value.Some? {
      ReadStableUnderAppend(s.active.value, e.value.value, rec, true, fault);
    }
  }

  /** Del of a nil key fails and leaves the index as it was. */
  lemma DelNilKey(s: DbState, now: u64, fault: Option<nat>)
    ensures var (s', err) := DbDel(s, None, now, fault);
      err.Some? && s'.index == s.index
  {
  }

  /**
   * Del of a nil key on an active file: the forced tombstone, for the empty key, is
   * still appended when the handle takes it, and then the index's ErrKeyIsNil is
   * returned; a write fault is returned instead, with the file as it was.
   */
  lemma DelNilKeyResult(s: DbState, now: u64, fault: Option<nat>)
    requires s.active.Some? && s.active.value.handle.isOpen && s.active.value.handle.writable
    ensures var (s', err) := DbDel(s, None, now, fault);
      var f := s.active.value;
      && s'.index == s.index && s'.active.Some?
      && (fault.None? ==>
        && err == Some(ErrKeyIsNil)
        && s'.active.value.handle.contents == f.handle.contents + Serialize(NewDeleteLogRecord([], now)).bytes)
      && (fault.Some? ==> err == Some(IoFault(fault.value)) && s'.active == s.active)
  {
  }

  /** The first error closing the older files in order meets, each on its own state. */
  function FirstCloseError(olds: map<u64, DataFileState>, order: seq<u64>, faults: map<u64, nat>): Option<Error>
    requires forall i :: 0 <= i < |order| ==> order[i] in olds
  {
    if order == [] then None
    else
      var e := FileClose(olds[order[0]], FaultOf(faults, order[0])).1;
      if e.Some? then e else FirstCloseError(olds, order[1..], faults)
  }

  lemma {:induction false} FirstCloseErrorSnoc(olds: map<u64, DataFileState>, order: seq<u64>, id: u64, faults: map<u64, nat>)
    requires (forall i :: 0 <= i < |order| ==> order[i] in olds) && id in olds
    ensures var e := FirstCloseError(olds, order, faults);
      FirstCloseError(olds, order + [id], faults) == if e.Some? then e else FileClose(olds[id], FaultOf(faults, id)).1
    decreases |order|
  {
    if order != [] {
      assert (order + [id])[1..] == order[1..] + [id];
      FirstCloseErrorSnoc(olds, order[1..], id, faults);
    }
  }

  /** There is no error exactly when every file closed was open and met no fault. */
  lemma {:induction false} FirstCloseErrorNone(olds: map<u64, DataFileState>, order: seq<u64>, faults: map<u64, nat>)
    requires forall i :: 0 <= i < |order| ==> order[i] in olds
    ensures FirstCloseError(olds, order, faults).None? <==>
      forall i :: 0 <= i < |order| ==> olds[order[i]].handle.isOpen && order[i] !in faults
    decreases |order|
  {
    if order != [] {
      FirstCloseErrorNone(olds, order[1..], faults);
      assert forall i :: 1 <= i < |order| ==> order[i] == order[1..][i - 1];
    }
  }

  /** Closing in order closes exactly the files named, and changes nothing else about them. */
  lemma {:induction false} CloseOldsState(olds: map<u64, DataFileState>, order: seq<u64>, faults: map<u64, nat>)
    requires forall i :: 0 <= i < |order| ==> order[i] in olds
    ensures forall id :: id in olds ==>
      CloseOlds(olds, order, faults).0[id] == if id in order then olds[id].(handle := olds[id].handle.(isOpen := false)) else olds[id]
    decreases |order|
  {
    if order != [] {
      var prefix := order[..|order| - 1];
      CloseOldsState(olds, prefix, faults);
      assert order == prefix + [order[|order| - 1]];
    }
  }

  /** The error Close keeps is the first one met, file by file, in the order given. */
  lemma {:induction false} CloseOldsFirstError(olds: map<u64, DataFileState>, order: seq<u64>, faults: map<u64, nat>)
    requires forall i :: 0 <= i < |order| ==> order[i] in olds
    requires forall i, j :: 0 <= i < j < |order| ==> order[i] != order[j]
    ensures CloseOlds(olds, order, faults).1 == FirstCloseError(olds, order, faults)
    decreases |order|
  {
    if order != [] {
      var prefix := order[..|order| - 1];
      var id := order[|order| - 1];
      CloseOldsFirstError(olds, prefix, faults);
      CloseOldsState(olds, prefix, faults);
      assert id !in prefix;
      assert order == prefix + [id];
      FirstCloseErrorSnoc(olds, prefix, id, faults);
    }
  }

  /**
   * Close: when the active file closes, every older file ends closed with its contents,
   * and the error is the first met in the order given, none exactly when every older
   * file was open and met no fault. Otherwise that error is returned and no older
   * file is touched.
   */
  lemma CloseSemantics(s: DbState, activeFault: Option<nat>, order: seq<u64>, faults: map<u64, nat>)
    requires s.active.Some? && IsOrder(s.olds.Keys, order)
    ensures var (s', err) := DbClose(s, activeFault, order, faults);
      var e := FileClose(s.active.value, activeFault).1;
      && s'.active.Some? && !s'.active.value.handle.isOpen
      && s'.active.value.handle.contents == s.active.value.handle.contents
      && (e.Some? ==> err == e && s'.olds == s.olds)
      && (e.None? ==>
        && err == FirstCloseError(s.olds, order, faults)
        && (err.None? <==> forall id :: id in s.olds ==> s.olds[id].handle.isOpen && id !in faults)
        && s'.olds.Keys == s.olds.Keys
        && forall id :: id in s'.olds ==> !s'.olds[id].handle.isOpen && s'.olds[id].handle.contents == s.olds[id].handle.contents)
  {
    CloseOldsFirstError(s.olds, order, faults);
    CloseOldsState(s.olds, order, faults);
    FirstCloseErrorNone(s.olds, order, faults);
    forall id | id in s.olds
      ensures exists i :: 0 <= i < |order| && order[i] == id
    {
      assert id in order;
    }
  }

  /**
   * The DB object: the options, the file counter, the B-tree index, the active data
   * file (none before the first Put) and the older files by number. Its methods
   * perform the operations above on the objects and leave View() where those
   * functions say.
   */
  class DB {
    var opts: Options
    var maxFileID: u64
    var index: Btree
    var activeFile: DataFile?
    var oldFiles: map<u64, DataFile>
    ghost var Repr: set<object>

    /** Every object is in Repr, and no two data files share a handle. */
    ghost predicate Valid()
      reads this, Repr
    {
      && this in Repr && index in Repr && index.Valid()
      && (activeFile != null ==> activeFile in Repr && activeFile.persistent in Repr)
      && (forall id :: id in oldFiles ==> oldFiles[id] in Repr && oldFiles[id].persistent in Repr)
      && (activeFile != null ==> forall id :: id in oldFiles ==> oldFiles[id].persistent != activeFile.persistent)
      && (forall i, j :: i in oldFiles && j in oldFiles && i != j ==> oldFiles[i].persistent != oldFiles[j].persistent)
    }

    ghost function OldsView(): map<u64, DataFileState>
      requires Valid()
      reads this, Repr
    {
      map id | id in oldFiles :: oldFiles[id].State()
    }

    /** The whole state, as the functions above describe it. */
    ghost function View(): DbState
      requires Valid()
      reads this, Repr
    {
      DbState(opts, maxFileID, if activeFile == null then None else Some(activeFile.State()), OldsView(), index.tree)
    }

    /** NewDb: a B-tree index and no data file yet. */
    constructor (opts: Options)
      ensures Valid() && fresh(Repr) && View() == NewDbState(opts)
    {
      this.opts := opts;
      maxFileID := 0;
      var t := new Btree();
      index := t;
      activeFile := null;
      oldFiles := map[];
      Repr := {this, t};
    }

    /** Put; see DbPut. */
    method Put(key: Slice, value: Slice, env: PutEnv) returns (err: Option<Error>)
      requires Valid()
      modifies Repr
      ensures Valid() && fresh(Repr - old(Repr))
      ensures (View(), err) == DbPut(old(View()), key, value, env)
    {
      EnsureActive();
      err := PutToActive(key, value, env);
    }

    /** Put's first step: open a new active file when there is none. */
    method EnsureActive()
      requires Valid()
      modifies this
      ensures Valid() && fresh(Repr - old(Repr)) && activeFile != null
      ensures View() == WithActive(old(View()))
    {
      if activeFile == null {
        maxFileID := NextID(maxFileID);
        var f := new DataFile(opts.dir, maxFileID, true, opts.maxSize, []);
        activeFile := f;
        Repr := Repr + {f, f.persistent};
        NewActive(this);
      }
    }

    /** The part of Put after the active file exists; see PutActive. */
    method PutToActive(key: Slice, value: Slice, env: PutEnv) returns (err: Option<Error>)
      requires Valid() && activeFile != null
      modifies Repr
      ensures Valid() && fresh(Repr - old(Repr))
      ensures (View(), err) == PutActive(old(View()), key, value, env)
    {
      ghost var s0 := View();
      PutActiveStages(s0, key, value, env);
      var vMeta := activeFile.Write(key, value, false, env.now, env.writeFault);
      ActiveHandleChanged(this);
      if vMeta == Err(ErrFileTooSmall) {
        err := RotateActive(key, value, env);
        return;
      }
      err := SetIndexEntry(key, if vMeta.Ok? then Some(vMeta.value) else None);
    }

    /** ToOlderFile on the active file, then a new active file and the retry; see Rotate. */
    method RotateActive(key: Slice, value: Slice, env: PutEnv) returns (err: Option<Error>)
      requires Valid() && activeFile != null
      modifies Repr
      ensures Valid() && fresh(Repr - old(Repr))
      ensures (View(), err) == Rotate(old(View()), key, value, env)
    {
      ghost var s0 := View();
      RotateStages(s0, key, value, env);
      ghost var g := FileToOlder(s0.active.value, env.rotateFault).0;
      var e := ActiveToOlder(env.rotateFault);
      if e.Some? {
        return e;
      }
      InstallNewActive();
      assert View() == Rotated(s0, g);
      err := RetryWrite(key, value, env);
    }

    /** ToOlderFile on the active file: closed, and reopened read-only when the close succeeds. */
    method ActiveToOlder(fault: Option<nat>) returns (e: Option<Error>)
      requires Valid() && activeFile != null
      modifies Repr
      ensures Valid() && fresh(Repr - old(Repr)) && activeFile == old(activeFile)
      ensures (View(), e) == (old(View()).(active := Some(FileToOlder(old(activeFile.State()), fault).0)), FileToOlder(old(activeFile.State()), fault).1)
    {
      var oldFile, err := activeFile.ToOlderFile(fault);
      e := err;
      if e.Some? {
        ActiveHandleChanged(this);
        return;
      }
      Repr := Repr + {oldFile.persistent};
      ActiveReopened(this);
    }

    /** The active file joins the older files under its ID and a new, empty file becomes active; see Rotated. */
    method InstallNewActive()
      requires Valid() && activeFile != null
      modifies this
      ensures Valid() && fresh(Repr - old(Repr)) && activeFile != null
      ensures View() == Rotated(old(View()), old(activeFile.State()))
    {
      DetachActive();
      EnsureActive();
    }

    /** The active file joins the older files under its ID, leaving no active file. */
    method DetachActive()
      requires Valid() && activeFile != null
      modifies this
      ensures Valid() && Repr == old(Repr) && activeFile == null
      ensures View() == old(View()).(olds := old(OldsView())[old(activeFile).ID() := old(activeFile.State())], active := None)
    {
      oldFiles := oldFiles[activeFile.ID() := activeFile];
      activeFile := null;
      Detached(this);
    }

    /** The forced write to the new active file; see Retry. */
    method RetryWrite(key: Slice, value: Slice, env: PutEnv) returns (err: Option<Error>)
      requires Valid() && activeFile != null
      modifies Repr
      ensures Valid() && Repr == old(Repr)
      ensures (View(), err) == Retry(old(View()), key, value, env)
    {
      var vMeta := activeFile.Write(key, value, true, env.retryNow, env.retryFault);
      ActiveHandleChanged(this);
      if vMeta.Err? {
        return Some(vMeta.error);
      }
      err := SetIndexEntry(key, Some(vMeta.value));
    }

    /** index.Set, as the engine sees it; see SetIndex. */
    method SetIndexEntry(key: Slice, p: Ptr) returns (err: Option<Error>)
      requires Valid()
      modifies index
      ensures Valid()
      ensures (View(), err) == SetIndex(old(View()), key, p)
    {
      err := index.Set(key, p);
      IndexChanged(this);
    }

    /** index.Delete, as the engine sees it. */
    method DelIndexEntry(key: Slice) returns (err: Option<Error>)
      requires Valid()
      modifies index
      ensures Valid() && err == CheckKey(key)
      ensures View() == old(View()).(index := TreeDel(old(index.tree), key))
    {
      err := index.Del(key);
      IndexChanged(this);
    }

    /** One pass of Close's loop: close order[i] and keep the first error; see CloseOldsStep. */
    method CloseNext(ghost olds0: map<u64, DataFileState>, order: seq<u64>, i: nat, faults: map<u64, nat>, err: Option<Error>)
      returns (err': Option<Error>)
      requires Valid() && i < |order| && olds0.Keys == oldFiles.Keys && forall j :: 0 <= j < |order| ==> order[j] in oldFiles
      requires (OldsView(), err) == CloseOlds(olds0, order[..i], faults)
      modifies Repr
      ensures Valid() && unchanged(this)
      ensures (OldsView(), err') == CloseOlds(olds0, order[..i + 1], faults)
      ensures activeFile != null ==> activeFile.State() == old(activeFile.State())
      ensures index.tree == old(index.tree)
    {
      CloseOldsStep(olds0, order, i, faults);
      var id := order[i];
      var newErr := CloseOldFile(id, FaultOf(faults, id));
      err' := if err.None? then newErr else err;
    }

    /** Close one older file, leaving the rest of the DB as it was. */
    method CloseOldFile(id: u64, fault: Option<nat>) returns (err: Option<Error>)
      requires Valid() && id in oldFiles
      modifies oldFiles[id].persistent
      ensures Valid() && unchanged(this)
      ensures (OldsView(), err) == (old(OldsView())[id := FileClose(old(OldsView())[id], fault).0], FileClose(old(OldsView())[id], fault).1)
      ensures activeFile != null ==> activeFile.State() == old(activeFile.State())
      ensures index.tree == old(index.tree)
    {
      err := oldFiles[id].Close(fault);
      assert forall j :: j in oldFiles && j != id ==> oldFiles[j].State() == old(oldFiles[j].State());
      assert OldsView() == old(OldsView())[id := oldFiles[id].State()];
    }

    /** Get; see DbGet. */
    method Get(key: Slice) returns (r: Result<Slice>)
      requires Valid()
      ensures r == DbGet(View(), key)
    {
      var vMeta := index.Get(key);
      if vMeta.Err? {
        return Err(vMeta.error);
      }
      if vMeta.value.None? {
        return Ok(None);
      }
      if activeFile == null {
        return Err(PanicNilDereference);
      }
      r := activeFile.Read(vMeta.value.value);
    }

    /** Del; see DbDel. */
    method Del(key: Slice, now: u64, fault: Option<nat>) returns (err: Option<Error>)
      requires Valid()
      modifies Repr
      ensures Valid() && Repr == old(Repr)
      ensures (View(), err) == DbDel(old(View()), key, now, fault)
    {
      if activeFile == null {
        return Some(PanicNilDereference);
      }
      var vm := activeFile.Del(key, true, now, fault);
      ActiveHandleChanged(this);
      if vm.Err? {
        return Some(vm.error);
      }
      err := DelIndexEntry(key);
      if err.Some? {
        return;
      }
      err := SetIndexEntry(key, Some(vm.value));
    }

    /** Close; see DbClose. Go's range visits the older files in the given order. */
    method Close(activeFault: Option<nat>, order: seq<u64>, faults: map<u64, nat>) returns (err: Option<Error>)
      requires Valid() && IsOrder(oldFiles.Keys, order)
      modifies Repr
      ensures Valid() && Repr == old(Repr)
      ensures (View(), err) == DbClose(old(View()), activeFault, order, faults)
    {
      if activeFile == null {
        return Some(PanicNilDereference);
      }
      err := activeFile.Close(activeFault);
      ActiveHandleChanged(this);
      if err.Some? {
        return;
      }
      err := CloseOlderFiles(order, faults);
    }

    /** Close's loop over the older files, in the given order, keeping the first error; see CloseOlds. */
    method CloseOlderFiles(order: seq<u64>, faults: map<u64, nat>) returns (err: Option<Error>)
      requires Valid() && forall i :: 0 <= i < |order| ==> order[i] in oldFiles
      modifies Repr
      ensures Valid() && unchanged(this)
      ensures (OldsView(), err) == CloseOlds(old(OldsView()), order, faults)
      ensures activeFile != null ==> activeFile.State() == old(activeFile.State())
      ensures index.tree == old(index.tree)
    {
      err := None;
      ghost var olds0 := OldsView();
      assert olds0.Keys == oldFiles.Keys;
      var i := 0;
      while i < |order|
        invariant 0 <= i <= |order|
        invariant Valid() && unchanged(this) && oldFiles == old(oldFiles) && Repr == old(Repr)
        invariant activeFile != null ==> activeFile.State() == old(activeFile.State())
        invariant index.tree == old(index.tree)
        invariant (OldsView(), err) == CloseOlds(olds0, order[..i], faults)
      {
        err := CloseNext(olds0, order, i, faults, err);
        i := i + 1;
      }
      assert order[..|order|] == order;
    }
  }

  /** A new, empty active file was opened where there was none. */
  twostate lemma NewActive(db: DB)
    requires old(db.Valid()) && old(db.activeFile) == null
    requires db.maxFileID == NextID(old(db.maxFileID)) && db.oldFiles == old(db.oldFiles)
    requires db.index == old(db.index) && db.opts == old(db.opts)
    requires db.activeFile != null && fresh(db.activeFile) && fresh(db.activeFile.persistent)
    requires db.activeFile.State() == NewActiveFile(db.opts, db.maxFileID)
    requires db.Repr == old(db.Repr) + {db.activeFile, db.activeFile.persistent}
    requires forall o :: o in old(db.Repr) && o != db ==> unchanged(o)
    ensures db.Valid() && db.View() == WithActive(old(db.View()))
  {
  }

  /** Only the active file's handle changed: the DB is still valid and the older files are as they were. */
  twostate lemma ActiveHandleChanged(db: DB)
    requires old(db.Valid()) && old(db.activeFile) != null
    requires unchanged(db) && unchanged(old(db.activeFile))
    requires forall o :: o in old(db.Repr) && o != old(db.activeFile.persistent) ==> unchanged(o)
    ensures db.Valid() && db.OldsView() == old(db.OldsView())
    ensures db.View() == old(db.View()).(active := Some(db.activeFile.State()))
  {
  }

  /** Only the index changed. */
  twostate lemma IndexChanged(db: DB)
    requires old(db.Valid()) && unchanged(db) && db.index.Valid()
    requires forall o :: o in old(db.Repr) && o != old(db.index) ==> unchanged(o)
    ensures db.Valid() && db.View() == old(db.View()).(index := db.index.tree)
  {
  }

  /** ToOlderFile gave the active file a new handle, now in Repr. */
  twostate lemma ActiveReopened(db: DB)
    requires old(db.Valid()) && old(db.activeFile) != null
    requires db.activeFile == old(db.activeFile) && db.oldFiles == old(db.oldFiles) && db.index == old(db.index)
    requires db.opts == old(db.opts) && db.maxFileID == old(db.maxFileID)
    requires db.activeFile.persistent !in old(db.Repr) && db.Repr == old(db.Repr) + {db.activeFile.persistent}
    requires forall o :: o in old(db.Repr) && o != old(db.activeFile.persistent) && o != db.activeFile && o != db ==> unchanged(o)
    ensures db.Valid() && db.View() == old(db.View()).(active := Some(db.activeFile.State()))
  {
  }

  /** The active file moved into the older files; nothing else changed. */
  twostate lemma Detached(db: DB)
    requires old(db.Valid()) && old(db.activeFile) != null && db.activeFile == null
    requires db.oldFiles == old(db.oldFiles)[old(db.activeFile).ID() := old(db.activeFile)]
    requires db.maxFileID == old(db.maxFileID) && db.index == old(db.index) && db.opts == old(db.opts)
    requires db.Repr == old(db.Repr)
    requires forall o :: o in old(db.Repr) && o != db ==> unchanged(o)
    ensures db.Valid()
    ensures db.View() == old(db.View()).(olds := old(db.OldsView())[old(db.activeFile).ID() := old(db.activeFile.State())], active := None)
  {
    DetachedValid(db);
    var a := old(db.activeFile);
    var m := old(db.OldsView())[a.ID() := old(a.State())];
    assert db.OldsView().Keys == m.Keys;
    assert forall j :: j in m ==> db.OldsView()[j] == m[j];
  }

  /** The frame part of Detached: the moved file's handle stays apart from every other one. */
  twostate lemma DetachedValid(db: DB)
    requires old(db.Valid()) && old(db.activeFile) != null && db.activeFile == null
    requires db.oldFiles == old(db.oldFiles)[old(db.activeFile).ID() := old(db.activeFile)]
    requires db.index == old(db.index) && db.Repr == old(db.Repr)
    requires forall o :: o in old(db.Repr) && o != db ==> unchanged(o)
    ensures db.Valid()
  {
  }
}
