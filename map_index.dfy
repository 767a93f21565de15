/**
 * The map Indexer of pkg/index/map_indexer_impl.go. Byte slices cannot key a Go
 * map, so each key is stored under its lowercase base16 encoding (section 8 of
 * RFC 4648), which is what `hex.EncodeToString` produces.
 */
module MapIndex {
  import opened Common
  import opened Index
  import BtreeIndex

  const HexDigits: string := "0123456789abcdef"

  function HexDigit(n: nat): (c: char)
    requires n < 16
    ensures c in HexDigits
  {
    HexDigits[n]
  }

  /** The value of a lowercase hex digit (0 for any other character). */
  function HexValue(c: char): (n: nat)
    ensures n < 16
  {
    if '0' <= c <= '9' then (c - '0') as nat
    else if 'a' <= c <= 'f' then (c - 'a') as nat + 10
    else 0
  }

  lemma HexValueOfDigit(n: nat)
    requires n < 16
    ensures HexValue(HexDigit(n)) == n
  {
    if n < 8 {
      if n < 4 {
        assert HexDigit(n) == ['0', '1', '2', '3'][n];
      } else {
        assert HexDigit(n) == ['4', '5', '6', '7'][n - 4];
      }
    } else if n < 12 {
      assert HexDigit(n) == ['8', '9', 'a', 'b'][n - 8];
    } else {
      assert HexDigit(n) == ['c', 'd', 'e', 'f'][n - 12];
    }
  }

  /** byteToString: two lowercase hex digits per byte, the high nibble first. */
  function ByteToString(key: seq<byte>): (s: string)
    ensures |s| == 2 * |key|
  {
    if key == [] then ""
    else [HexDigit(key[0] / 16), HexDigit(key[0] % 16)] + ByteToString(key[1..])
  }

  /** Byte i of the key becomes characters 2i (its high nibble) and 2i+1 (its low nibble). */
  lemma {:induction false} ByteToStringAt(key: seq<byte>, i: nat)
    requires i < |key|
    ensures ByteToString(key)[2 * i] == HexDigit(key[i] / 16)
    ensures ByteToString(key)[2 * i + 1] == HexDigit(key[i] % 16)
    decreases i
  {
    if i > 0 {
      var rest := ByteToString(key[1..]);
      var s := [HexDigit(key[0] / 16), HexDigit(key[0] % 16)] + rest;
      var j := i - 1;
      assert s[2 * i] == rest[2 * j] && s[2 * i + 1] == rest[2 * j + 1];
      ByteToStringAt(key[1..], j);
      assert key[1..][j] == key[i];
    }
  }

  /** Every character of the encoding is a lowercase hex digit. */
  lemma LowercaseHex(key: seq<byte>)
    ensures forall j :: 0 <= j < |ByteToString(key)| ==> ByteToString(key)[j] in HexDigits
  {
    forall j | 0 <= j < |ByteToString(key)|
      ensures ByteToString(key)[j] in HexDigits
    {
      ByteToStringAt(key, j / 2);
      assert j == 2 * (j / 2) || j == 2 * (j / 2) + 1;
    }
  }

  /** The byte two hex digits denote, the high nibble first. */
  function PairValue(h: char, l: char): byte
  {
    var hv, lv := HexValue(h), HexValue(l);
    assert hv * 16 <= 15 * 16;
    hv * 16 + lv
  }

  lemma PairValueOfDigits(b: byte)
    ensures PairValue(HexDigit(b / 16), HexDigit(b % 16)) == b
  {
    HexValueOfDigit(b / 16);
    HexValueOfDigit(b % 16);
  }

  /** The inverse of ByteToString: each pair of hex digits back to one byte. */
  function HexDecode(s: string): seq<byte>
    decreases |s|
  {
    if |s| < 2 then []
    else [PairValue(s[0], s[1])] + HexDecode(s[2..])
  }

  lemma {:induction false} HexDecodeEncode(key: seq<byte>)
    ensures HexDecode(ByteToString(key)) == key
    decreases |key|
  {
    if key != [] {
      var rest := ByteToString(key[1..]);
      var s := [HexDigit(key[0] / 16), HexDigit(key[0] % 16)] + rest;
      assert s[2..] == rest;
      PairValueOfDigits(key[0]);
      HexDecodeEncode(key[1..]);
      assert HexDecode(s) == [PairValue(s[0], s[1])] + HexDecode(rest);
    }
  }

  /** Distinct byte keys never share a map entry. */
  lemma ByteToStringInjective(a: seq<byte>, b: seq<byte>)
    ensures ByteToString(a) == ByteToString(b) <==> a == b
  {
    if ByteToString(a) == ByteToString(b) {
      HexDecodeEncode(a);
      HexDecodeEncode(b);
    }
  }

  /** What the map holds for a byte key, if anything. */
  function MapFind(m: map<string, Ptr>, k: seq<byte>): Option<Ptr>
  {
    if ByteToString(k) in m then Some(m[ByteToString(k)]) else None
  }

  /** Get, Set and Del on the pure map value, as the class below performs them. */
  function MapGet(m: map<string, Ptr>, key: Slice): Result<Ptr>
  {
    GetResult(key, if key.None? then None else MapFind(m, key.value))
  }

  function MapSet(m: map<string, Ptr>, key: Slice, v: Ptr): map<string, Ptr>
  {
    if key.None? then m else m[ByteToString(key.value) := v]
  }

  function MapDel(m: map<string, Ptr>, key: Slice): map<string, Ptr>
  {
    if key.None? then m else m - {ByteToString(key.value)}
  }

  /** Set stores under the key's own entry and leaves every other key's entry as it was. */
  lemma MapFindSet(m: map<string, Ptr>, k: seq<byte>, v: Ptr, k': seq<byte>)
    ensures MapFind(MapSet(m, Some(k), v), k') == if k' == k then Some(v) else MapFind(m, k')
  {
    ByteToStringInjective(k, k');
  }

  /** Del removes the key's own entry and leaves every other key's entry as it was. */
  lemma MapFindDel(m: map<string, Ptr>, k: seq<byte>, k': seq<byte>)
    ensures MapFind(MapDel(m, Some(k)), k') == if k' == k then None else MapFind(m, k')
  {
    ByteToStringInjective(k, k');
  }

  /** Deleting a key the map does not hold changes nothing. */
  lemma MapDelAbsent(m: map<string, Ptr>, k: seq<byte>)
    requires MapFind(m, k) == None
    ensures MapDel(m, Some(k)) == m
  {
  }

  /** A sequence of Set and Del calls applied to the map, in order. */
  function MapRun(m: map<string, Ptr>, ops: seq<IndexOp>): map<string, Ptr>
    decreases |ops|
  {
    if ops == [] then m
    else
      var m' := match ops[0]
        case SetOp(k, v) => MapSet(m, k, v)
        case DelOp(k) => MapDel(m, k);
      MapRun(m', ops[1..])
  }

  /** A sorted tree and a map that hold the same entries. */
  ghost predicate SameEntries(t: seq<BtreeIndex.BTreeItem>, m: map<string, Ptr>)
  {
    forall k :: BtreeIndex.Find(t, k) == MapFind(m, k)
  }

  /** One Set or Del applied to both keeps their entries the same. */
  lemma StepAgrees(t: seq<BtreeIndex.BTreeItem>, m: map<string, Ptr>, op: IndexOp)
    requires BtreeIndex.Sorted(t) && SameEntries(t, m)
    ensures match op
      case SetOp(k, v) => SameEntries(BtreeIndex.TreeSet(t, k, v), MapSet(m, k, v))
      case DelOp(k) => SameEntries(BtreeIndex.TreeDel(t, k), MapDel(m, k))
  {
    match op
    case SetOp(k, v) =>
      if k.Some? {
        forall k' ensures BtreeIndex.Find(BtreeIndex.TreeSet(t, k, v), k') == MapFind(MapSet(m, k, v), k') {
          MapFindSet(m, k.value, v, k');
          if k' == k.value {
            BtreeIndex.FindInsertSame(t, k.value, v);
          } else {
            BtreeIndex.FindInsertOther(t, k.value, v, k');
          }
        }
      }
    case DelOp(k) =>
      if k.Some? {
        forall k' ensures BtreeIndex.Find(BtreeIndex.TreeDel(t, k), k') == MapFind(MapDel(m, k), k') {
          MapFindDel(m, k.value, k');
          if k' == k.value {
            BtreeIndex.FindRemoveSame(t, k.value);
          } else {
            BtreeIndex.FindRemoveOther(t, k.value, k');
          }
        }
      }
  }

  lemma {:induction false} RunAgrees(t: seq<BtreeIndex.BTreeItem>, m: map<string, Ptr>, ops: seq<IndexOp>)
    requires BtreeIndex.Sorted(t) && SameEntries(t, m)
    ensures SameEntries(BtreeIndex.TreeRun(t, ops), MapRun(m, ops))
    decreases |ops|
  {
    if ops != [] {
      StepAgrees(t, m, ops[0]);
      match ops[0]
      case SetOp(k, v) =>
        if k.Some? { BtreeIndex.InsertSorted(t, k.value, v); }
        RunAgrees(BtreeIndex.TreeSet(t, k, v), MapSet(m, k, v), ops[1..]);
      case DelOp(k) =>
        if k.Some? { BtreeIndex.RemoveSorted(t, k.value); }
        RunAgrees(BtreeIndex.TreeDel(t, k), MapDel(m, k), ops[1..]);
    }
  }

  /**
   * The two Indexers are interchangeable: after the same Set and Del calls on fresh
   * indexes, Get gives the same answer for every key, the nil key included.
   */
  lemma IndexersAgree(ops: seq<IndexOp>, key: Slice)
    ensures BtreeIndex.TreeGet(BtreeIndex.TreeRun([], ops), key) == MapGet(MapRun(map[], ops), key)
  {
    RunAgrees([], map[], ops);
  }

  /** The map Indexer: a map from hex-encoded keys that the methods update in place. */
  class HexMap {
    var m: map<string, Ptr>

    /** NewMap: an empty map. */
    constructor ()
      ensures m == map[]
    {
      m := map[];
    }

    /** Get: a nil key is refused; an absent key gives nil and no error. */
    method Get(key: Slice) returns (r: Result<Ptr>)
      ensures r == GetResult(key, if key.None? then None else MapFind(m, key.value))
    {
      if CheckKey(key).Some? {
        return Err(CheckKey(key).value);
      }
      var strKey := ByteToString(key.value);
      if strKey !in m {
        return Ok(None);
      }
      return Ok(m[strKey]);
    }

    /** Set: a nil key is refused and the map kept; otherwise Store. */
    method Set(key: Slice, value: Ptr) returns (err: Option<Error>)
      modifies this
      ensures err == CheckKey(key)
      ensures m == MapSet(old(m), key, value)
    {
      err := CheckKey(key);
      if err.Some? {
        return;
      }
      var strKey := ByteToString(key.value);
      m := m[strKey := value];
    }

    /** Del: a nil key is refused and the map kept; otherwise Delete. */
    method Del(key: Slice) returns (err: Option<Error>)
      modifies this
      ensures err == CheckKey(key)
      ensures m == MapDel(old(m), key)
    {
      err := CheckKey(key);
      if err.Some? {
        return;
      }
      var strKey := ByteToString(key.value);
      m := m - {strKey};
    }
  }
}
