/**
 * Fixed-width little-endian integers, as written by Go's `binary.LittleEndian`
 * (`binary.Write`, `Uint32`, `Uint64`): least significant byte first.
 */
module LittleEndian {
  import opened Common

  function Pow256(n: nat): (r: nat)
    ensures r > 0
  {
    if n == 0 then 1 else 0x100 * Pow256(n - 1)
  }

  lemma Pow256Widths()
    ensures Pow256(4) == 0x1_0000_0000
    ensures Pow256(8) == Two64
  {
    assert Pow256(2) == 0x1_0000;
    assert Pow256(4) == 0x1_0000 * 0x1_0000 by {
      assert Pow256(3) == 0x100 * Pow256(2);
    }
    assert Pow256(6) == 0x1_0000 * 0x1_0000_0000 by {
      assert Pow256(5) == 0x100 * Pow256(4);
    }
    assert Pow256(8) == 0x1_0000 * 0x1_0000_0000_0000 by {
      assert Pow256(7) == 0x100 * Pow256(6);
    }
  }

  /** The n low-order bytes of x, least significant first. */
  function Encode(x: nat, n: nat): (r: seq<byte>)
    ensures |r| == n
  {
    if n == 0 then [] else [x % 0x100] + Encode(x / 0x100, n - 1)
  }

  /** The unsigned integer whose little-endian bytes are b. */
  function Decode(b: seq<byte>): (r: nat)
    ensures r < Pow256(|b|)
  {
    if b == [] then 0 else b[0] + 0x100 * Decode(b[1..])
  }

  /** binary.Write of a uint32. */
  function PutU32(x: u32): (r: seq<byte>)
    ensures |r| == 4
  {
    Encode(x, 4)
  }

  /** binary.Write of a uint64. */
  function PutU64(x: u64): (r: seq<byte>)
    ensures |r| == 8
  {
    Encode(x, 8)
  }

  /** binary.LittleEndian.Uint32 of a 4-byte slice. */
  function U32(b: seq<byte>): (r: u32)
    requires |b| == 4
    ensures PutU32(r) == b
  {
    Pow256Widths();
    EncodeDecode(b);
    Decode(b)
  }

  /** binary.LittleEndian.Uint64 of an 8-byte slice. */
  function U64(b: seq<byte>): (r: u64)
    requires |b| == 8
    ensures PutU64(r) == b
  {
    Pow256Widths();
    EncodeDecode(b);
    Decode(b)
  }

  lemma {:induction false} DecodeEncode(x: nat, n: nat)
    requires x < Pow256(n)
    ensures Decode(Encode(x, n)) == x
  {
    if n > 0 {
      var e := Encode(x, n);
      assert e[1..] == Encode(x / 0x100, n - 1);
      DecodeEncode(x / 0x100, n - 1);
    }
  }

  lemma {:induction false} EncodeDecode(b: seq<byte>)
    ensures Encode(Decode(b), |b|) == b
  {
    if b != [] {
      var x := Decode(b);
      assert x % 0x100 == b[0] && x / 0x100 == Decode(b[1..]);
      EncodeDecode(b[1..]);
    }
  }

  lemma U32RoundTrip(x: u32)
    ensures U32(PutU32(x)) == x
  {
    Pow256Widths();
    DecodeEncode(x, 4);
  }

  lemma U64RoundTrip(x: u64)
    ensures U64(PutU64(x)) == x
  {
    Pow256Widths();
    DecodeEncode(x, 8);
  }
}
