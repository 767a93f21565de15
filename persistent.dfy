/**
 * The append-only file handle of pkg/disk/disk_persistent_impl.go. The file is an
 * in-memory byte sequence. The handle is opened with O_APPEND, so every write lands
 * at the end, and it is opened read-only when its data file is no longer active.
 * Failures the operating system may report are parameters (`fault`), each an
 * error code.
 */
module Persistent {
  import opened Common

  /** What a handle is: the file's bytes, whether it may write, and whether it is open. */
  datatype Handle = Handle(contents: seq<byte>, writable: bool, isOpen: bool)

  /** Offset(): the current write position, which is the length of the file. */
  function EndOf(h: Handle): nat
  {
    |h.contents|
  }

  /** What WriteToDisk returns: the offset the write started at, the byte count, the error. */
  datatype WriteResult = WriteResult(offset: nat, wn: nat, err: Option<Error>)

  /**
   * WriteToDisk: seek to the end, then write. A closed handle fails the seek (offset 0);
   * a read-only handle or a fault fails the write after the seek (offset = length),
   * and the file keeps its bytes.
   */
  function Write(h: Handle, bs: seq<byte>, fault: Option<nat>): (r: (Handle, WriteResult))
    ensures r.1.err.None? <==> h.isOpen && h.writable && fault.None?
    ensures r.1.err.None? ==> r.0 == h.(contents := h.contents + bs) && r.1.offset == EndOf(h) && r.1.wn == |bs|
    ensures r.1.err.Some? ==> r.0 == h && r.1.wn == 0
  {
    if !h.isOpen then (h, WriteResult(0, 0, Some(ErrClosed)))
    else if !h.writable then (h, WriteResult(EndOf(h), 0, Some(ErrReadOnly)))
    else if fault.Some? then (h, WriteResult(EndOf(h), 0, Some(IoFault(fault.value))))
    else (h.(contents := h.contents + bs), WriteResult(EndOf(h), |bs|, None))
  }

  /**
   * ReadFromDisk into a buffer of n bytes at off: the bytes read and the error.
   * Fewer than n bytes come back, with io.EOF, when the file ends first; an empty
   * buffer reads nothing and succeeds at any offset an open handle accepts.
   */
  function ReadAt(h: Handle, n: nat, off: u64): (r: (seq<byte>, Option<Error>))
    ensures |r.0| <= n
    ensures r.1.None? <==> h.isOpen && off < Two63 && (n == 0 || off + n <= |h.contents|)
    ensures r.1.None? ==> |r.0| == n
    ensures r.1.None? && n > 0 ==> r.0 == h.contents[off..off + n]
    ensures r.0 != [] ==> off + |r.0| <= |h.contents| && r.0 == h.contents[off..off + |r.0|]
  {
    if !h.isOpen then ([], Some(ErrClosed))
    else if off >= Two63 then ([], Some(ErrNegativeOffset))
    else
      var avail := if off >= |h.contents| then 0 else |h.contents| - off;
      var m := if n <= avail then n else avail;
      (if m == 0 then [] else h.contents[off..off + m], if m < n then Some(ErrEOF) else None)
  }

  /** Close: the handle is closed afterwards whatever happens; closing twice fails. */
  function CloseHandle(h: Handle, fault: Option<nat>): (r: (Handle, Option<Error>))
    ensures !r.0.isOpen && r.0.contents == h.contents && r.0.writable == h.writable
    ensures r.1.None? <==> h.isOpen && fault.None?
  {
    if !h.isOpen then (h, Some(ErrClosed))
    else (h.(isOpen := false), if fault.Some? then Some(IoFault(fault.value)) else None)
  }

  /** The first write to a new file starts at offset 0. */
  lemma FirstWriteAtZero(writable: bool, bs: seq<byte>)
    requires writable
    ensures Write(Handle([], writable, true), bs, None).1 == WriteResult(0, |bs|, None)
  {
  }

  /** A second write starts exactly where the first ended, and the file is the two appended. */
  lemma ConsecutiveWrites(h: Handle, a: seq<byte>, b: seq<byte>)
    requires h.isOpen && h.writable
    ensures var (h1, r1) := Write(h, a, None);
      var (h2, r2) := Write(h1, b, None);
      && r2.offset == r1.offset + r1.wn
      && EndOf(h2) == r2.offset + r2.wn
      && h2.contents == h.contents + a + b
  {
  }

  /** Reading back what was just written returns exactly those bytes. */
  lemma WriteThenRead(h: Handle, bs: seq<byte>)
    requires h.isOpen && h.writable && |h.contents| < Two63
    ensures var (h', r) := Write(h, bs, None);
      ReadAt(h', |bs|, r.offset) == (bs, None)
  {
    var (h', r) := Write(h, bs, None);
    assert h'.contents[r.offset..r.offset + |bs|] == bs;
  }

  /** Appending to the file does not change what a successful read returns. */
  lemma ReadStableUnderAppend(h: Handle, n: nat, off: u64, bs: seq<byte>)
    requires ReadAt(h, n, off).1.None?
    ensures ReadAt(h.(contents := h.contents + bs), n, off) == ReadAt(h, n, off)
  {
    var h' := h.(contents := h.contents + bs);
    if n > 0 {
      assert h'.contents[off..off + n] == h.contents[off..off + n];
    }
  }

  /**
   * FilePersistentImpl: the handle as an object. The path and suffix are fixed when
   * the file is opened; the bytes and the open flag change in place.
   */
  class FilePersistent {
    const path: string
    const suffix: u64
    const writable: bool
    var contents: seq<byte>
    var isOpen: bool

    function State(): Handle
      reads this
    {
      Handle(contents, writable, isOpen)
    }

    /**
     * NewFilePersistentImpl: open the file at path, for appending when active and
     * read-only otherwise; `existing` is what the file already holds.
     */
    constructor (path: string, suffix: u64, isActive: bool, existing: seq<byte>)
      ensures this.path == path && this.suffix == suffix
      ensures State() == Handle(existing, isActive, true)
    {
      this.path := path;
      this.suffix := suffix;
      this.writable := isActive;
      this.contents := existing;
      this.isOpen := true;
    }

    function Offset(): (r: nat)
      reads this
      ensures r == EndOf(State())
    {
      |contents|
    }

    method WriteToDisk(bs: seq<byte>, fault: Option<nat>) returns (offset: nat, wn: nat, err: Option<Error>)
      modifies this
      ensures (State(), WriteResult(offset, wn, err)) == Write(old(State()), bs, fault)
    {
      if !isOpen {
        return 0, 0, Some(ErrClosed);
      }
      offset := |contents|;
      if !writable {
        return offset, 0, Some(ErrReadOnly);
      }
      if fault.Some? {
        return offset, 0, Some(IoFault(fault.value));
      }
      contents := contents + bs;
      wn := |bs|;
      err := None;
    }

    /** Fill bs from the file at offset; the bytes past the count returned are left alone. */
    method ReadFromDisk(bs: array<byte>, offset: u64) returns (n: nat, err: Option<Error>)
      modifies bs
      ensures var (data, e) := ReadAt(State(), bs.Length, offset);
        && n == |data| && err == e
        && bs[..n] == data
        && bs[n..] == old(bs[n..])
    {
      if !isOpen {
        return 0, Some(ErrClosed);
      }
      if offset >= Two63 {
        return 0, Some(ErrNegativeOffset);
      }
      var avail := if offset >= |contents| then 0 else |contents| - offset;
      n := if bs.Length <= avail then bs.Length else avail;
      var i := 0;
      while i < n
        invariant 0 <= i <= n
        invariant forall j :: 0 <= j < i ==> bs[j] == contents[offset + j]
        invariant bs[n..] == old(bs[n..])
      {
        bs[i] := contents[offset + i];
        i := i + 1;
      }
      if n > 0 {
        assert bs[..n] == contents[offset..offset + n];
      }
      err := if n < bs.Length then Some(ErrEOF) else None;
    }

    method Close(fault: Option<nat>) returns (err: Option<Error>)
      modifies this
      ensures (State(), err) == CloseHandle(old(State()), fault)
    {
      if !isOpen {
        return Some(ErrClosed);
      }
      isOpen := false;
      err := if fault.Some? then Some(IoFault(fault.value)) else None;
    }
  }
}
