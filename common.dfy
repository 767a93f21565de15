/**
 * Types shared by every module of the model: Go's fixed-width integers, nil-able byte
 * slices, Option/Result wrappers and the errors the store can report.
 */
module Common {

  type byte = x: int | 0 <= x < 0x100
  type u32 = x: int | 0 <= x < 0x1_0000_0000
  type u64 = x: int | 0 <= x < 0x1_0000_0000_0000_0000
  type i64 = x: int | -0x8000_0000_0000_0000 <= x < 0x8000_0000_0000_0000

  const Two63: int := 0x8000_0000_0000_0000
  const Two64: int := 0x1_0000_0000_0000_0000

  datatype Option<+T> = None | Some(value: T)

  /** The errors of the store. The two Panic cases stand for Go runtime panics. */
  datatype Error =
    | ErrCrcCheckFailed      // disk.ErrCrcCheckFailed
    | ErrFileTooSmall        // disk.ErrFileTooSmall
    | ErrKeyIsNil            // index.ErrKeyIsNil
    | ErrClosed              // os.ErrClosed: the file handle was closed
    | ErrNegativeOffset      // os: ReadAt with an offset that is negative as an int64
    | ErrEOF                 // io.EOF: ReadAt ran past the end of the file
    | ErrReadOnly            // writing to a handle opened read-only
    | IoFault(code: nat)     // any other failure reported by the operating system
    | PanicSliceBounds       // Go panics: slice bounds out of range
    | PanicNilDereference    // Go panics: method call on a nil interface

  datatype Result<+T> = Ok(value: T) | Err(error: Error)

  /** A Go `[]byte` that may be nil: None is nil, Some(s) a (possibly empty) slice. */
  type Slice = Option<seq<byte>>

  /** The bytes of a slice; a nil slice has none. */
  function Bytes(s: Slice): seq<byte>
  {
    if s.None? then [] else s.value
  }

  /** Go's `uint64(x)` conversion from a (64-bit) int: wraps modulo 2^64. */
  function Uint64(x: int): (r: u64)
    ensures 0 <= x < Two64 ==> r == x
    ensures (r - x) % Two64 == 0
  {
    x % Two64
  }

  /** Go's `int64(x)` conversion from a uint64: reinterprets the two's complement bits. */
  function Int64(x: u64): (r: i64)
    ensures x < Two63 ==> r == x
    ensures x >= Two63 ==> r < 0
    ensures Uint64(r) == x
  {
    if x < Two63 then x else x - Two64
  }
}
