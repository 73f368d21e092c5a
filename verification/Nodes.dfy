/** Pages, B+ tree nodes as the tree code holds them in memory, and the bytes they occupy on a page. */
module Nodes {
  import opened Common
  import opened Bytes

  const PAGE_SIZE: nat := 4096
  const LEAF_HEADER_SIZE: nat := 11
  const INTERNAL_HEADER_SIZE: nat := 7
  const MAX_INLINE_VAL_SIZE: nat := 2000
  const MAX_KEY_SIZE: nat := 1024

  /** What is left of a page for leaf records, or for the keys and pointers of an internal node. */
  const PAYLOAD: nat := PAGE_SIZE - LEAF_HEADER_SIZE

  /** A record size for which splitting by record count always gives halves that fit. */
  const SMALL_RECORD: nat := 177

  type PageId = nat

  type Page = s: seq<byte> | |s| == PAGE_SIZE witness seq(PAGE_SIZE, _ => 0)

  /** The page with `b` written over it from offset `off` on. */
  function Splice(page: Page, off: nat, b: bytes): Page
    requires off + |b| <= PAGE_SIZE
  {
    page[..off] + b + page[off + |b|..]
  }

  datatype Record = Record(key: bytes, val: bytes)

  datatype Node =
    | Leaf(parent: Option<PageId>, next: Option<PageId>, records: seq<Record>)
    | Internal(parent: Option<PageId>, keys: seq<bytes>, children: seq<PageId>)

  // ---- Sizes ----

  function Sum(costs: seq<nat>): nat {
    if costs == [] then 0 else Sum(costs[..|costs| - 1]) + costs[|costs| - 1]
  }

  function RecordCost(r: Record): nat {
    4 + |r.key| + 4 + |r.val|
  }

  function RecordCosts(records: seq<Record>): (c: seq<nat>)
    ensures |c| == |records|
    ensures forall i :: 0 <= i < |c| ==> c[i] == RecordCost(records[i])
  {
    seq(|records|, i requires 0 <= i < |records| => RecordCost(records[i]))
  }

  /** A separator key costs its length field and its bytes, and `pointer` bytes for a child pointer. */
  function KeyCosts(keys: seq<bytes>, pointer: nat): (c: seq<nat>)
    ensures |c| == |keys|
    ensures forall i :: 0 <= i < |c| ==> c[i] == pointer + 4 + |keys[i]|
  {
    seq(|keys|, i requires 0 <= i < |keys| => pointer + 4 + |keys[i]|)
  }

  /** The number of bytes `to_page` writes. */
  function SizeOf(n: Node): nat {
    match n
    case Leaf(_, _, records) => LEAF_HEADER_SIZE + Sum(RecordCosts(records))
    case Internal(_, keys, children) => INTERNAL_HEADER_SIZE + 4 * |children| + Sum(KeyCosts(keys, 0))
  }

  /** What each record, or each key with the child pointer to its right, takes of `PAYLOAD`. */
  function Costs(n: Node): seq<nat> {
    match n
    case Leaf(_, _, records) => RecordCosts(records)
    case Internal(_, keys, _) => KeyCosts(keys, 4)
  }

  predicate Fits(n: Node) {
    SizeOf(n) <= PAGE_SIZE
  }

  predicate Shaped(n: Node) {
    n.Internal? ==> |n.children| == |n.keys| + 1
  }

  /** Every record or separator of the node is small. */
  predicate Small(n: Node) {
    forall i {:trigger Costs(n)[i]} :: 0 <= i < |Costs(n)| ==> Costs(n)[i] <= SMALL_RECORD
  }

  /** `encoded_size`. */
  method EncodedSize(n: Node) returns (size: nat)
    ensures size == SizeOf(n)
  {
    match n
    case Leaf(_, _, records) =>
      size := LEAF_HEADER_SIZE;
      ghost var costs := RecordCosts(records);
      for i := 0 to |records|
        invariant size == LEAF_HEADER_SIZE + Sum(costs[..i])
      {
        size := size + (4 + |records[i].key| + 4 + |records[i].val|);
        assert costs[..i + 1][..i] == costs[..i];
      }
      assert costs[..|records|] == costs;
    case Internal(_, keys, children) =>
      size := INTERNAL_HEADER_SIZE;
      size := size + |children| * 4;
      ghost var costs := KeyCosts(keys, 0);
      for i := 0 to |keys|
        invariant size == INTERNAL_HEADER_SIZE + 4 * |children| + Sum(costs[..i])
      {
        size := size + (4 + |keys[i]|);
        assert costs[..i + 1][..i] == costs[..i];
      }
      assert costs[..|keys|] == costs;
  }

  // ---- Split arithmetic ----

  lemma {:induction false} SumConcat(a: seq<nat>, b: seq<nat>)
    ensures Sum(a + b) == Sum(a) + Sum(b)
  {
    if b == [] {
      assert a + b == a;
    } else {
      var c := b[..|b| - 1];
      assert (a + b)[..|a + b| - 1] == a + c;
      SumConcat(a, c);
    }
  }

  lemma {:induction false} SumBounds(costs: seq<nat>, low: nat, high: nat)
    requires forall i :: 0 <= i < |costs| ==> low <= costs[i] <= high
    ensures low * |costs| <= Sum(costs) <= high * |costs|
  {
    if costs != [] {
      SumBounds(costs[..|costs| - 1], low, high);
      assert low * |costs| == low * (|costs| - 1) + low && high * |costs| == high * (|costs| - 1) + high;
    }
  }

  lemma {:induction false} SumInsert(costs: seq<nat>, i: nat, x: nat)
    requires i <= |costs|
    ensures Sum(InsertAt(costs, i, x)) == Sum(costs) + x
  {
    var a, b := costs[..i], costs[i..];
    assert a + b == costs;
    SumBetween(a, x, b);
  }

  lemma {:induction false} SumBetween(a: seq<nat>, x: nat, b: seq<nat>)
    ensures Sum(a + [x] + b) == Sum(a + b) + x
  {
    SumConcat(a + [x], b);
    SumConcat(a, b);
    assert (a + [x])[..|a|] == a;
  }

  lemma SumUpdate(costs: seq<nat>, i: nat, x: nat)
    requires i < |costs|
    ensures Sum(costs[i := x]) == Sum(costs) - costs[i] + x
  {
    assert costs[i := x] == InsertAt(RemoveAt(costs, i), i, x);
    SumInsert(RemoveAt(costs, i), i, x);
    assert costs == InsertAt(RemoveAt(costs, i), i, costs[i]);
    SumInsert(RemoveAt(costs, i), i, costs[i]);
  }

  lemma SumRemove(costs: seq<nat>, i: nat)
    requires i < |costs|
    ensures Sum(RemoveAt(costs, i)) <= Sum(costs)
  {
    assert costs == InsertAt(RemoveAt(costs, i), i, costs[i]);
    SumInsert(RemoveAt(costs, i), i, costs[i]);
  }

  lemma {:induction false} KeyCostsPointer(keys: seq<bytes>)
    ensures Sum(KeyCosts(keys, 4)) == Sum(KeyCosts(keys, 0)) + 4 * |keys|
  {
    if keys != [] {
      var n := |keys| - 1;
      KeyCostsPointer(keys[..n]);
      assert KeyCosts(keys, 4)[..n] == KeyCosts(keys[..n], 4);
      assert KeyCosts(keys, 0)[..n] == KeyCosts(keys[..n], 0);
    }
  }

  /** Leaves and internal nodes have the same room: a node fits exactly when its costs fit `PAYLOAD`. */
  lemma SizeByCosts(n: Node)
    requires Shaped(n)
    ensures SizeOf(n) == LEAF_HEADER_SIZE + Sum(Costs(n))
  {
    if n.Internal? {
      KeyCostsPointer(n.keys);
    }
  }

  /** Splitting at half the count leaves at most `PAYLOAD` on either side, when the node overflowed by one
      entry and all entries are small. */
  lemma HalvesFit(costs: seq<nat>, mid: nat)
    requires forall i :: 0 <= i < |costs| ==> 8 <= costs[i] <= SMALL_RECORD
    requires Sum(costs) <= PAYLOAD + SMALL_RECORD
    requires mid == |costs| / 2
    ensures Sum(costs[..mid]) <= PAYLOAD && Sum(costs[mid..]) <= PAYLOAD
  {
    SplitSum(costs, mid);
    SumBounds(costs[..mid], 8, 177);
    SumBounds(costs[mid..], 8, 177);
    HalvesArithmetic(|costs|, Sum(costs[..mid]), Sum(costs[mid..]));
  }

  lemma SplitSum(costs: seq<nat>, mid: nat)
    requires mid <= |costs|
    ensures Sum(costs) == Sum(costs[..mid]) + Sum(costs[mid..])
  {
    assert costs == costs[..mid] + costs[mid..];
    SumConcat(costs[..mid], costs[mid..]);
  }

  lemma HalvesArithmetic(n: nat, left: nat, right: nat)
    requires 8 * (n / 2) <= left <= 177 * (n / 2)
    requires 8 * (n - n / 2) <= right <= 177 * (n - n / 2)
    requires left + right <= 4085 + 177
    ensures left <= 4085 && right <= 4085
  {
    if n <= 46 {
      assert n / 2 <= 23 && n - n / 2 <= 23;
    } else {
      assert n / 2 >= 23;
    }
  }

  lemma SumDropFirst(costs: seq<nat>)
    requires costs != []
    ensures Sum(costs[1..]) <= Sum(costs)
  {
    assert costs == costs[..1] + costs[1..];
    SumConcat(costs[..1], costs[1..]);
  }

  /** A node that overflows has enough entries for both halves of a split to be non-empty: at least two
      records in a leaf, at least four separators in an internal node. */
  lemma OverflowCount(costs: seq<nat>, high: nat)
    requires forall i :: 0 <= i < |costs| ==> 0 <= costs[i] <= high
    requires Sum(costs) > PAYLOAD
    ensures high <= 8 + MAX_KEY_SIZE + MAX_INLINE_VAL_SIZE ==> |costs| >= 2
    ensures high <= 8 + MAX_KEY_SIZE ==> |costs| >= 4
  {
    SumBounds(costs, 0, high);
    assert |costs| <= 1 ==> high * |costs| <= high;
    assert |costs| <= 3 ==> high * |costs| <= 3 * high;
  }

  /** A key and a value of zeros behind the first byte of the key. */
  function LargeRecord(first: byte): Record {
    Record([first] + seq(499, _ => 0), seq(MAX_INLINE_VAL_SIZE, _ => 0))
  }

  /** Three records within the limits, in key order. */
  function LargeRecords(): seq<Record> {
    [Record([], []), LargeRecord(1), LargeRecord(2)]
  }

  /** The count split does fail for large records: adding the third record overflows this leaf, and the
      right half of the split alone is larger than a page. */
  lemma LargeRecordsBreakSplit()
    ensures forall r :: r in LargeRecords() ==> |r.key| <= MAX_KEY_SIZE && |r.val| <= MAX_INLINE_VAL_SIZE
    ensures forall parent, next ::
              Fits(Leaf(parent, next, LargeRecords()[..2])) && !Fits(Leaf(parent, next, LargeRecords()))
    ensures forall parent, next :: !Fits(Leaf(parent, next, LargeRecords()[|LargeRecords()| / 2..]))
  {
    var records := LargeRecords();
    assert RecordCosts(records) == [8, 2508] + [2508];
    assert RecordCosts(records[..2]) == [8] + [2508];
    assert RecordCosts(records[1..]) == [2508] + [2508];
    SumConcat([8, 2508], [2508]);
    SumConcat([8], [2508]);
    SumConcat([2508], [2508]);
  }
}
