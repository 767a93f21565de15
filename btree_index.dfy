/**
 * The B-tree Indexer of pkg/index/btree_Indexer_impl.go. The google/btree package
 * it delegates to is specified by its results only: an association list kept
 * strictly sorted by `bytes.Compare` on the keys, so that each key occurs once.
 */
module BtreeIndex {
  import opened Common
  import opened Index

  /** bytes.Compare: lexicographic on bytes, a proper prefix sorting first. */
  function Compare(a: seq<byte>, b: seq<byte>): (r: int)
    ensures -1 <= r <= 1
    ensures r == 0 <==> a == b
  {
    if a == [] && b == [] then 0
    else if a == [] then -1
    else if b == [] then 1
    else if a[0] < b[0] then -1
    else if a[0] > b[0] then 1
    else
      var r := Compare(a[1..], b[1..]);
      assert r == 0 ==> a == [a[0]] + a[1..] == [b[0]] + b[1..] == b;
      r
  }

  /** BTreeItem.Less, on the keys alone. */
  predicate Less(a: seq<byte>, b: seq<byte>)
  {
    Compare(a, b) < 0
  }

  /**
   * An independent statement of the byte-lexicographic order: after a common prefix
   * of length i, either a ends while b goes on, or a's next byte is smaller.
   */
  predicate LexLessAt(a: seq<byte>, b: seq<byte>, i: nat)
  {
    && i <= |a| && i <= |b| && a[..i] == b[..i]
    && ((i == |a| && i < |b|) || (i < |a| && i < |b| && a[i] < b[i]))
  }

  ghost predicate LexLess(a: seq<byte>, b: seq<byte>)
  {
    exists i: nat :: LexLessAt(a, b, i)
  }

  /** Swapping the operands negates the comparison. */
  lemma {:induction false} CompareAntisymmetric(a: seq<byte>, b: seq<byte>)
    ensures Compare(a, b) == -Compare(b, a)
    decreases |a|
  {
    if a != [] && b != [] && a[0] == b[0] {
      CompareAntisymmetric(a[1..], b[1..]);
    }
  }

  lemma {:induction false} CompareTransitive(a: seq<byte>, b: seq<byte>, c: seq<byte>)
    requires Compare(a, b) < 0 && Compare(b, c) < 0
    ensures Compare(a, c) < 0
    decreases |a|
  {
    if a != [] && b != [] && c != [] && a[0] == b[0] && b[0] == c[0] {
      CompareTransitive(a[1..], b[1..], c[1..]);
    }
  }

  /** Less is a strict total order on byte strings. */
  lemma LessStrictTotalOrder(a: seq<byte>, b: seq<byte>, c: seq<byte>)
    ensures !Less(a, a)
    ensures Less(a, b) ==> !Less(b, a)
    ensures a != b ==> Less(a, b) || Less(b, a)
    ensures Less(a, b) && Less(b, c) ==> Less(a, c)
  {
    CompareAntisymmetric(a, b);
    if Less(a, b) && Less(b, c) {
      CompareTransitive(a, b, c);
    }
  }

  /** Less agrees with the lexicographic order stated outright, in both directions. */
  lemma {:induction false} LessIsLexicographic(a: seq<byte>, b: seq<byte>)
    ensures Less(a, b) <==> LexLess(a, b)
    decreases |a|
  {
    if a == [] {
      if b != [] {
        assert LexLessAt(a, b, 0);
      } else {
        forall i: nat ensures !LexLessAt(a, b, i) {
        }
      }
    } else if b == [] {
      forall i: nat ensures !LexLessAt(a, b, i) {
      }
    } else if a[0] < b[0] {
      assert LexLessAt(a, b, 0);
    } else if a[0] > b[0] {
      forall i: nat | 0 < i <= |a| && i <= |b| ensures a[..i] != b[..i] {
        assert a[..i][0] != b[..i][0];
      }
    } else {
      LessIsLexicographic(a[1..], b[1..]);
      if Less(a, b) {
        var i: nat :| LexLessAt(a[1..], b[1..], i);
        assert a[..i + 1] == [a[0]] + a[1..][..i];
        assert b[..i + 1] == [b[0]] + b[1..][..i];
        assert LexLessAt(a, b, i + 1);
      }
      if LexLess(a, b) {
        var i: nat :| LexLessAt(a, b, i);
        if i == 0 {
          assert false;
        }
        assert a[1..][..i - 1] == a[..i][1..];
        assert b[1..][..i - 1] == b[..i][1..];
        assert LexLessAt(a[1..], b[1..], i - 1);
      }
    }
  }

  datatype BTreeItem = BTreeItem(key: seq<byte>, val: Ptr)

  /** The keys are strictly increasing, hence unique. */
  predicate Sorted(t: seq<BTreeItem>)
  {
    forall i, j :: 0 <= i < j < |t| ==> Less(t[i].key, t[j].key)
  }

  /** Every key of t is greater than lo. */
  predicate Above(lo: seq<byte>, t: seq<BTreeItem>)
  {
    forall i :: 0 <= i < |t| ==> Less(lo, t[i].key)
  }

  /** Get on the tree: the value stored under k, if any. */
  function Find(t: seq<BTreeItem>, k: seq<byte>): Option<Ptr>
  {
    if t == [] then None
    else if t[0].key == k then Some(t[0].val)
    else Find(t[1..], k)
  }

  /** ReplaceOrInsert: replace the item with key k, or insert it at its sorted place. */
  function Insert(t: seq<BTreeItem>, k: seq<byte>, v: Ptr): (r: seq<BTreeItem>)
    ensures forall lo :: Above(lo, t) && Less(lo, k) ==> Above(lo, r)
  {
    if t == [] then [BTreeItem(k, v)]
    else if Less(k, t[0].key) then [BTreeItem(k, v)] + t
    else if k == t[0].key then [BTreeItem(k, v)] + t[1..]
    else [t[0]] + Insert(t[1..], k, v)
  }

  /** Delete: drop the item with key k; a tree without k is left as it is. */
  function Remove(t: seq<BTreeItem>, k: seq<byte>): (r: seq<BTreeItem>)
    ensures forall lo :: Above(lo, t) ==> Above(lo, r)
  {
    if t == [] then []
    else if t[0].key == k then t[1..]
    else
      assert forall lo :: Above(lo, t) ==> Above(lo, t[1..]);
      [t[0]] + Remove(t[1..], k)
  }

  lemma {:induction false} InsertSorted(t: seq<BTreeItem>, k: seq<byte>, v: Ptr)
    requires Sorted(t)
    ensures Sorted(Insert(t, k, v))
    decreases |t|
  {
    if t != [] && !Less(k, t[0].key) && k != t[0].key {
      LessStrictTotalOrder(k, t[0].key, k);
      InsertSorted(t[1..], k, v);
      assert Above(t[0].key, t[1..]);
      var r := Insert(t[1..], k, v);
      assert Above(t[0].key, r);
      assert Insert(t, k, v) == [t[0]] + r;
    } else if t != [] && Less(k, t[0].key) {
      forall j | 0 <= j < |t| ensures Less(k, t[j].key) {
        if j > 0 {
          LessStrictTotalOrder(k, t[0].key, t[j].key);
        }
      }
    }
  }

  lemma {:induction false} RemoveSorted(t: seq<BTreeItem>, k: seq<byte>)
    requires Sorted(t)
    ensures Sorted(Remove(t, k))
    decreases |t|
  {
    if t != [] && t[0].key != k {
      RemoveSorted(t[1..], k);
      assert Above(t[0].key, t[1..]);
      assert Remove(t, k) == [t[0]] + Remove(t[1..], k);
    }
  }

  /** Get after Set: the key now holds the value just stored, replacing any earlier one. */
  lemma {:induction false} FindInsertSame(t: seq<BTreeItem>, k: seq<byte>, v: Ptr)
    ensures Find(Insert(t, k, v), k) == Some(v)
    decreases |t|
  {
    if t != [] && !Less(k, t[0].key) && k != t[0].key {
      FindInsertSame(t[1..], k, v);
    }
  }

  /** Set on one key leaves every other key's entry as it was. */
  lemma {:induction false} FindInsertOther(t: seq<BTreeItem>, k: seq<byte>, v: Ptr, k': seq<byte>)
    requires k' != k
    ensures Find(Insert(t, k, v), k') == Find(t, k')
    decreases |t|
  {
    if t != [] && !Less(k, t[0].key) && k != t[0].key {
      FindInsertOther(t[1..], k, v, k');
    }
  }

  /** Nothing above k can be k itself. */
  lemma AboveExcludes(k: seq<byte>, t: seq<BTreeItem>)
    requires Above(k, t)
    ensures Find(t, k) == None
    decreases |t|
  {
    if t != [] {
      LessStrictTotalOrder(k, k, k);
      assert Above(k, t[1..]);
      AboveExcludes(k, t[1..]);
    }
  }

  /** Get after Del: the key is gone from a sorted tree (where it occurred at most once). */
  lemma {:induction false} FindRemoveSame(t: seq<BTreeItem>, k: seq<byte>)
    requires Sorted(t)
    ensures Find(Remove(t, k), k) == None
    decreases |t|
  {
    if t != [] {
      if t[0].key == k {
        assert Above(k, t[1..]);
        AboveExcludes(k, t[1..]);
      } else {
        FindRemoveSame(t[1..], k);
      }
    }
  }

  /** Del on one key leaves every other key's entry as it was. */
  lemma {:induction false} FindRemoveOther(t: seq<BTreeItem>, k: seq<byte>, k': seq<byte>)
    requires k' != k
    ensures Find(Remove(t, k), k') == Find(t, k')
    decreases |t|
  {
    if t != [] && t[0].key != k {
      FindRemoveOther(t[1..], k, k');
    }
  }

  /** Deleting a key the tree does not hold changes nothing. */
  lemma {:induction false} RemoveAbsent(t: seq<BTreeItem>, k: seq<byte>)
    requires Find(t, k) == None
    ensures Remove(t, k) == t
    decreases |t|
  {
    if t != [] {
      RemoveAbsent(t[1..], k);
    }
  }

  /** Get, Set and Del on the pure tree value, as the class below performs them. */
  function TreeGet(t: seq<BTreeItem>, key: Slice): Result<Ptr>
  {
    GetResult(key, if key.None? then None else Find(t, key.value))
  }

  function TreeSet(t: seq<BTreeItem>, key: Slice, v: Ptr): seq<BTreeItem>
  {
    if key.None? then t else Insert(t, key.value, v)
  }

  function TreeDel(t: seq<BTreeItem>, key: Slice): seq<BTreeItem>
  {
    if key.None? then t else Remove(t, key.value)
  }

  /** A sequence of Set and Del calls applied to the tree, in order. */
  function TreeRun(t: seq<BTreeItem>, ops: seq<IndexOp>): seq<BTreeItem>
    decreases |ops|
  {
    if ops == [] then t
    else
      var t' := match ops[0]
        case SetOp(k, v) => TreeSet(t, k, v)
        case DelOp(k) => TreeDel(t, k);
      TreeRun(t', ops[1..])
  }

  lemma {:induction false} TreeRunSorted(t: seq<BTreeItem>, ops: seq<IndexOp>)
    requires Sorted(t)
    ensures Sorted(TreeRun(t, ops))
    decreases |ops|
  {
    if ops != [] {
      match ops[0]
      case SetOp(k, v) =>
        if k.Some? { InsertSorted(t, k.value, v); }
        TreeRunSorted(TreeSet(t, k, v), ops[1..]);
      case DelOp(k) =>
        if k.Some? { RemoveSorted(t, k.value); }
        TreeRunSorted(TreeDel(t, k), ops[1..]);
    }
  }

  /** The Btree Indexer: a tree whose items the methods replace in place. */
  class Btree {
    var tree: seq<BTreeItem>

    ghost predicate Valid()
      reads this
    {
      Sorted(tree)
    }

    /** NewBtree: an empty tree. */
    constructor ()
      ensures Valid() && tree == []
    {
      tree := [];
    }

    /** Get: a nil key is refused; an absent key gives nil and no error. */
    method Get(key: Slice) returns (r: Result<Ptr>)
      requires Valid()
      ensures r == GetResult(key, if key.None? then None else Find(tree, key.value))
    {
      if CheckKey(key).Some? {
        return Err(CheckKey(key).value);
      }
      var item := Find(tree, key.value);
      if item.None? {
        return Ok(None);
      }
      return Ok(item.value);
    }

    /** Set: a nil key is refused and the tree kept; otherwise ReplaceOrInsert. */
    method Set(key: Slice, value: Ptr) returns (err: Option<Error>)
      requires Valid()
      modifies this
      ensures Valid()
      ensures err == CheckKey(key)
      ensures tree == TreeSet(old(tree), key, value)
    {
      err := CheckKey(key);
      if err.Some? {
        return;
      }
      InsertSorted(tree, key.value, value);
      tree := Insert(tree, key.value, value);
    }

    /** Del: a nil key is refused and the tree kept; otherwise Delete. */
    method Del(key: Slice) returns (err: Option<Error>)
      requires Valid()
      modifies this
      ensures Valid()
      ensures err == CheckKey(key)
      ensures tree == TreeDel(old(tree), key)
    {
      err := CheckKey(key);
      if err.Some? {
        return;
      }
      RemoveSorted(tree, key.value);
      tree := Remove(tree, key.value);
    }
  }
}
