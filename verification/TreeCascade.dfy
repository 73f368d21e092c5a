/** When an insert succeeds: exactly when every page it has to split, on the way up from the leaf, has halves
    that fit a page. */
module TreeCascade {
  import opened Common
  import opened Bytes
  import opened Nodes
  import opened PageAllocator
  import opened TreeInvariant
  import opened TreeContents
  import opened TreeSplit

  /** How many of the sorted keys come before `key`. */
  function Position(keys: seq<bytes>, key: bytes): (i: nat)
    ensures i <= |keys|
  {
    if keys == [] || !Less(keys[0], key) then 0 else 1 + Position(keys[1..], key)
  }

  /** An internal page with one more separator; which page it points to does not matter for its size. */
  function WithKey(n: Node, key: bytes): Node
    requires n.Internal? && |n.children| == |n.keys| + 1
  {
    WithChild(n, Position(n.keys, key), key, NO_PAGE)
  }

  predicate HalvesFitPages(n: Node)
    requires Splittable(n)
  {
    Fits(LeftHalf(n, NO_PAGE)) && Fits(RightHalf(n))
  }

  /** Adding separator `key` to page `p`, `levels` below the root, needs no split whose halves do not fit. */
  ghost predicate AddFits(nodes: NodeMap, p: PageId, key: bytes, levels: nat)
    decreases levels
  {
    && p in nodes && nodes[p].Internal? && |nodes[p].children| == |nodes[p].keys| + 1
    && var n := WithKey(nodes[p], key);
       (Fits(n) ||
        (&& Splittable(n) && HalvesFitPages(n)
         && (n.parent.Some? ==> levels > 0 && AddFits(nodes, n.parent.value, SplitKey(n), levels - 1))))
  }

  /** Neither does telling the page above the split page `n`, `levels` below the root. */
  ghost predicate PropagateFits(nodes: NodeMap, n: Node, levels: nat)
    requires Splittable(n)
  {
    n.parent.Some? ==> levels > 0 && AddFits(nodes, n.parent.value, SplitKey(n), levels - 1)
  }

  /** Nor does splitting the oversized page `n` itself. */
  ghost predicate SplitFits(nodes: NodeMap, n: Node, levels: nat) {
    Splittable(n) && HalvesFitPages(n) && PropagateFits(nodes, n, levels)
  }

  lemma {:induction false} PositionIs(keys: seq<bytes>, i: nat, key: bytes)
    requires i <= |keys|
    requires forall j :: 0 <= j < i ==> Less(keys[j], key)
    requires forall j :: i <= j < |keys| ==> !Less(keys[j], key)
    ensures Position(keys, key) == i
  {
    if i > 0 {
      PositionIs(keys[1..], i - 1, key);
    }
  }

  /** Which page a new separator points to does not matter. */
  lemma RightPageIrrelevant(n: Node, i: nat, key: bytes, right: PageId)
    requires n.Internal? && |n.children| == |n.keys| + 1 && i == Position(n.keys, key)
    ensures Fits(WithChild(n, i, key, right)) == Fits(WithKey(n, key))
    ensures Splittable(WithChild(n, i, key, right)) == Splittable(WithKey(n, key))
    ensures Splittable(WithKey(n, key)) ==>
              && SplitKey(WithChild(n, i, key, right)) == SplitKey(WithKey(n, key))
              && HalvesFitPages(WithChild(n, i, key, right)) == HalvesFitPages(WithKey(n, key))
  {
    var a, b := WithChild(n, i, key, right), WithKey(n, key);
    if Splittable(a) {
      assert LeftHalf(a, NO_PAGE).keys == LeftHalf(b, NO_PAGE).keys && RightHalf(a).keys == RightHalf(b).keys;
    }
  }

  /** Only the pages above matter. */
  lemma {:induction false} AddFitsFrame(nodes: NodeMap, after: NodeMap, shape: Shape, root: PageId,
                                        p: PageId, key: bytes, levels: nat)
    requires TreeOk(nodes, shape, root) && p in nodes
    requires forall x :: x in nodes && shape[x].height >= shape[p].height ==> x in after && after[x] == nodes[x]
    ensures AddFits(after, p, key, levels) == AddFits(nodes, p, key, levels)
    decreases levels
  {
    if nodes[p].parent.Some? && levels > 0 && nodes[p].Internal? && |nodes[p].children| == |nodes[p].keys| + 1
       && Splittable(WithKey(nodes[p], key))
    {
      var g, i := ParentOf(nodes, shape, root, p);
      AddFitsFrame(nodes, after, shape, root, g, SplitKey(WithKey(nodes[p], key)), levels - 1);
    }
  }

  // ---- Small entries always fit ----

  /** One more separator: what it costs. */
  lemma WithChildCosts(n: Node, i: nat, key: bytes, right: PageId)
    requires n.Internal? && |n.children| == |n.keys| + 1 && i <= |n.keys|
    ensures Costs(WithChild(n, i, key, right)) == InsertAt(Costs(n), i, 8 + |key|)
    ensures Sum(Costs(WithChild(n, i, key, right))) == Sum(Costs(n)) + 8 + |key|
  {
    assert Costs(WithChild(n, i, key, right)) == InsertAt(Costs(n), i, 8 + |key|);
    SumInsert(Costs(n), i, 8 + |key|);
  }

  lemma WithChildLimits(n: Node, i: nat, key: bytes, right: PageId)
    requires n.Internal? && WithinLimits(n) && i <= |n.keys| && |key| <= MAX_KEY_SIZE
    ensures WithinLimits(WithChild(n, i, key, right))
    ensures Small(n) && 8 + |key| <= SMALL_RECORD ==> Small(WithChild(n, i, key, right))
  {
    var m := WithChild(n, i, key, right);
    if Small(n) && 8 + |key| <= SMALL_RECORD {
      forall j | 0 <= j < |Costs(m)| ensures Costs(m)[j] <= SMALL_RECORD {
        assert j != i ==> m.keys[j] == n.keys[if j < i then j else j - 1];
        assert j != i ==> Costs(n)[if j < i then j else j - 1] <= SMALL_RECORD;
      }
    }
  }

  lemma {:induction false} SmallAddFits(nodes: NodeMap, shape: Shape, root: PageId, p: PageId, key: bytes)
    requires TreeOk(nodes, shape, root) && PagesFit(nodes) && AllSmall(nodes)
    requires p in nodes && nodes[p].Internal? && 8 + |key| <= SMALL_RECORD
    ensures shape[root].height >= shape[p].height
    ensures AddFits(nodes, p, key, shape[root].height - shape[p].height)
    decreases shape[root].height - shape[p].height
  {
    assert shape[p].height <= shape[root].height;
    assert PageFits(nodes[p]) && Small(nodes[p]);
    var i, n := Position(nodes[p].keys, key), WithKey(nodes[p], key);
    WithChildLimits(nodes[p], i, key, NO_PAGE);
    WithChildCosts(nodes[p], i, key, NO_PAGE);
    SizeByCosts(nodes[p]);
    if !Fits(n) {
      SmallSplitFits(nodes, shape, root, n, p);
    }
  }

  /** A page of small entries that overflowed by one of them splits, and so do the pages above it. */
  lemma {:induction false} SmallSplitFits(nodes: NodeMap, shape: Shape, root: PageId, n: Node, id: PageId)
    requires TreeOk(nodes, shape, root) && PagesFit(nodes) && AllSmall(nodes) && id in nodes
    requires WithinLimits(n) && Small(n) && !Fits(n) && Sum(Costs(n)) <= PAYLOAD + SMALL_RECORD
    requires n.parent == nodes[id].parent
    ensures shape[root].height >= shape[id].height
    ensures SplitFits(nodes, n, shape[root].height - shape[id].height)
    decreases shape[root].height - shape[id].height, 0
  {
    assert shape[id].height <= shape[root].height;
    OversizedIsSplittable(n);
    SmallHalvesFit(n, NO_PAGE);
    HalvesWithinLimits(n, NO_PAGE);
    if n.parent.Some? {
      var p, i := ParentOf(nodes, shape, root, id);
      assert shape[p].height <= shape[root].height;
      SmallAddFits(nodes, shape, root, p, SplitKey(n));
    }
  }

  // ---- The steps of the cascade ----

  /** How far below the root a page is. */
  ghost function Levels(shape: Shape, root: PageId, id: PageId): nat {
    if root in shape && id in shape && shape[id].height <= shape[root].height
    then shape[root].height - shape[id].height else 0
  }

  /** The tree is in order but for page `p`, which still has to be told that its child `i` was split at `key`
      and that `right` is the new page. */
  ghost predicate Pending(nodes: NodeMap, shape: Shape, root: PageId, p: PageId, i: nat, key: bytes, right: PageId) {
    && p in nodes && nodes[p].Internal? && |nodes[p].children| == |nodes[p].keys| + 1 && i <= |nodes[p].keys|
    && TreeOk(nodes[p := WithChild(nodes[p], i, key, right)], shape, root)
  }

  /** In a pending page, the place for the new separator is the one the order of the keys dictates. */
  lemma PendingPosition(nodes: NodeMap, shape: Shape, root: PageId, p: PageId, i: nat, key: bytes, right: PageId)
    requires Pending(nodes, shape, root, p, i, key, right)
    ensures SortedKeys(nodes[p].keys)
    ensures forall j :: 0 <= j < i ==> Less(nodes[p].keys[j], key)
    ensures forall j :: i <= j < |nodes[p].keys| ==> Less(key, nodes[p].keys[j])
    ensures Position(nodes[p].keys, key) == i
  {
    LessIsStrictTotalOrder();
    var keys := nodes[p].keys;
    var all := InsertAt(keys, i, key);
    assert NodeOk(nodes[p := WithChild(nodes[p], i, key, right)], shape, p);
    forall j, k | 0 <= j < k < |keys| ensures Less(keys[j], keys[k]) {
      assert keys[j] == all[if j < i then j else j + 1] && keys[k] == all[if k < i then k else k + 1];
    }
    forall j | 0 <= j < i ensures Less(keys[j], key) {
      assert keys[j] == all[j] && all[i] == key;
    }
    forall j | i <= j < |keys| ensures Less(key, keys[j]) {
      assert keys[j] == all[j + 1] && all[i] == key;
    }
    PositionIs(keys, i, key);
  }

  /** What adding the separator to a pending page amounts to. */
  lemma AddToPending(nodes: NodeMap, shape: Shape, root: PageId, p: PageId, i: nat, key: bytes, right: PageId, m: Node)
    requires Pending(nodes, shape, root, p, i, key, right) && m == WithChild(nodes[p], i, key, right)
    requires PagesFit(nodes) && |key| <= MAX_KEY_SIZE
    ensures WithinLimits(m) && SameRecords(nodes, nodes[p := m])
    ensures AllSmall(nodes) && 8 + |key| <= SMALL_RECORD ==> Small(m)
    ensures AddFits(nodes, p, key, Levels(shape, root, p))
            == (Fits(m) || SplitFits(nodes, m, Levels(shape, root, p)))
    ensures Fits(m) ==> PagesFit(nodes[p := m])
    ensures Fits(m) && AllSmall(nodes) && 8 + |key| <= SMALL_RECORD ==> AllSmall(nodes[p := m])
  {
    var n, L := nodes[p], Levels(shape, root, p);
    PendingPosition(nodes, shape, root, p, i, key, right);
    assert PageFits(nodes[p]) && (AllSmall(nodes) ==> Small(nodes[p]));
    WithChildLimits(n, i, key, right);
    RightPageIrrelevant(n, i, key, right);
    SameRecordsPointwise(nodes, nodes[p := m]);
    if Fits(m) {
      PageWritten(nodes, p, m);
    }
  }

  /** What splitting an oversized page amounts to. */
  lemma SplitOversized(nodes: NodeMap, n: Node, right: PageId, levels: nat)
    requires WithinLimits(n) && !Fits(n)
    ensures Splittable(n)
    ensures WithinLimits(LeftHalf(n, right)) && WithinLimits(RightHalf(n)) && |SplitKey(n)| <= MAX_KEY_SIZE
    ensures Small(n) ==> 8 + |SplitKey(n)| <= SMALL_RECORD
    ensures SplitFits(nodes, n, levels) ==
            (Fits(LeftHalf(n, right)) && Fits(RightHalf(n)) && PropagateFits(nodes, n, levels))
  {
    OversizedIsSplittable(n);
    HalvesWithinLimits(n, right);
    HalfCosts(n, right);
    HalfCosts(n, NO_PAGE);
    SizeByCosts(LeftHalf(n, right));
    SizeByCosts(LeftHalf(n, NO_PAGE));
  }

  /** After the halves of the oversized page `n` are written, what is left is to tell the page above. */
  lemma SplitLeavesPending(nodes: NodeMap, written: NodeMap, shape: Shape, root: PageId,
                           id: PageId, n: Node, right: PageId) returns (p: PageId, i: nat)
    requires id in nodes && TreeOk(nodes[id := n], shape, root) && Splittable(n) && n.parent.Some?
    requires HalvesWritten(nodes, written, id, n, right)
    ensures n.parent == Some(p)
    ensures Pending(written, SplitShape(shape, id, right, SplitKey(n)), root, p, i, SplitKey(n), right)
    ensures Levels(shape, root, id) > 0
    ensures root in SplitShape(shape, id, right, SplitKey(n))
    ensures SplitShape(shape, id, right, SplitKey(n))[root].height == shape[root].height
    ensures Levels(SplitShape(shape, id, right, SplitKey(n)), root, p) == Levels(shape, root, id) - 1
    ensures PropagateFits(nodes, n, Levels(shape, root, id))
            == AddFits(written, p, SplitKey(n), Levels(SplitShape(shape, id, right, SplitKey(n)), root, p))
  {
    var full := nodes[id := n];
    assert HalvesWritten(full, written, id, n, right);
    p, i := ParentOf(full, shape, root, id);
    SplitUnderParent(full, written, shape, root, id, right, p, i);
    assert shape[p].height <= shape[root].height;
    forall c | c in Moved(n) ensures c in full && shape[c].height < shape[id].height {
      MovedAreChildren(full, shape, root, id, c);
    }
    AddFitsFrame(full, written, shape, root, p, SplitKey(n), Levels(shape, root, id) - 1);
    AddFitsFrame(full, nodes, shape, root, p, SplitKey(n), Levels(shape, root, id) - 1);
  }

  /** The pages written by a split can be serialized. */
  lemma WrittenFit(nodes: NodeMap, written: NodeMap, id: PageId, n: Node, right: PageId)
    requires PagesFit(nodes) && Splittable(n) && HalvesWritten(nodes, written, id, n, right)
    requires PageFits(LeftHalf(n, right)) && PageFits(RightHalf(n)) && WithinLimits(n)
    ensures PagesFit(written)
    ensures AllSmall(nodes) && Small(n) ==> AllSmall(written)
  {
    forall x | x in written ensures PageFits(written[x]) {
      if x != id && x != right {
        assert PageFits(nodes[x]);
        ParentIsFree(nodes[x], right);
      }
    }
    if AllSmall(nodes) && Small(n) {
      WrittenSmall(nodes, written, id, n, right);
    }
  }

  lemma WrittenSmall(nodes: NodeMap, written: NodeMap, id: PageId, n: Node, right: PageId)
    requires AllSmall(nodes) && Small(n) && WithinLimits(n) && Splittable(n) && HalvesWritten(nodes, written, id, n, right)
    ensures AllSmall(written)
  {
    HalvesWithinLimits(n, right);
    forall x | x in written ensures Small(written[x]) {
      if x != id && x != right {
        assert Small(nodes[x]);
        ParentIsFree(nodes[x], right);
      }
    }
  }

  lemma NewRootFits(key: bytes, left: PageId, right: PageId)
    requires |key| <= MAX_KEY_SIZE
    ensures PageFits(Internal(None, [key], [left, right]))
    ensures 8 + |key| <= SMALL_RECORD ==> Small(Internal(None, [key], [left, right]))
  {
    var n := Internal(None, [key], [left, right]);
    assert KeyCosts([key], 0) == [4 + |key|] && Costs(n) == [8 + |key|];
    assert Sum([4 + |key|]) == Sum([]) + 4 + |key|;
  }

  /** The pages once the halves of the root have been put under a new root page. */
  function UnderNewRoot(written: NodeMap, root: PageId, n: Node, right: PageId, top: PageId): NodeMap
    requires Splittable(n)
  {
    written[top := Internal(None, [SplitKey(n)], [root, right])]
           [root := WithParent(LeftHalf(n, right), top)]
           [right := WithParent(RightHalf(n), top)]
  }

  lemma NewRootPagesFit(written: NodeMap, root: PageId, n: Node, right: PageId, top: PageId)
    requires Splittable(n) && WithinLimits(n) && PagesFit(written)
    requires root in written && written[root] == LeftHalf(n, right)
    requires right in written && written[right] == RightHalf(n)
    ensures PagesFit(UnderNewRoot(written, root, n, right, top))
    ensures AllSmall(written) && Small(n) ==> AllSmall(UnderNewRoot(written, root, n, right, top))
  {
    HalvesWithinLimits(n, right);
    NewRootFits(SplitKey(n), root, right);
    assert PageFits(written[root]) && PageFits(written[right]);
    ParentIsFree(written[root], top);
    ParentIsFree(written[right], top);
    ThreeWritten(written, top, Internal(None, [SplitKey(n)], [root, right]),
                 root, WithParent(LeftHalf(n, right), top), right, WithParent(RightHalf(n), top));
  }

  lemma ThreeWritten(nodes: NodeMap, a: PageId, x: Node, b: PageId, y: Node, c: PageId, z: Node)
    requires PagesFit(nodes) && PageFits(x) && PageFits(y) && PageFits(z)
    ensures PagesFit(nodes[a := x][b := y][c := z])
    ensures AllSmall(nodes) && Small(x) && Small(y) && Small(z) ==> AllSmall(nodes[a := x][b := y][c := z])
  {
    PageWritten(nodes, a, x);
    PageWritten(nodes[a := x], b, y);
    PageWritten(nodes[a := x][b := y], c, z);
  }

  lemma NewRootSameRecords(written: NodeMap, root: PageId, n: Node, right: PageId, top: PageId)
    requires Splittable(n) && top !in written
    requires root in written && written[root] == LeftHalf(n, right)
    requires right in written && written[right] == RightHalf(n)
    ensures SameRecords(written, UnderNewRoot(written, root, n, right, top))
    ensures UnderNewRoot(written, root, n, right, top).Keys == written.Keys + {top}
  {
    SameRecordsPointwise(written, UnderNewRoot(written, root, n, right, top));
  }

  /** The shape that goes with `UnderNewRoot`. */
  function NewRootShape(shape: Shape, root: PageId, n: Node, right: PageId, top: PageId): Shape
    requires root in shape && Splittable(n)
  {
    SplitShape(shape[top := Span(shape[root].height + 1, None, None)], root, right, SplitKey(n))
  }

  lemma NewRootDone(nodes: NodeMap, written: NodeMap, shape: Shape, root: PageId, n: Node, right: PageId, top: PageId)
    requires root in nodes && TreeOk(nodes[root := n], shape, root) && Splittable(n)
    requires HalvesWritten(nodes, written, root, n, right) && top !in written
    ensures TreeOk(UnderNewRoot(written, root, n, right, top), NewRootShape(shape, root, n, right, top), top)
  {
    var full := nodes[root := n];
    assert HalvesWritten(full, written, root, n, right);
    SplitUnderNewRoot(full, written, shape, root, right, top);
  }

  /** The children that move to the right page are pages of the tree, and not the pages being written. */
  lemma MovedReady(nodes: NodeMap, shape: Shape, root: PageId, id: PageId, n: Node, right: PageId)
    requires id in nodes && right !in nodes && TreeOk(nodes[id := n], shape, root)
    requires n.Internal? && Splittable(n) && PagesFit(nodes)
    ensures forall c :: c in RightHalf(n).children ==> c in nodes && c != id && c != right && Fits(nodes[c])
  {
    forall c | c in RightHalf(n).children ensures c in nodes && c != id && c != right && Fits(nodes[c]) {
      assert c in Moved(n);
      MovedAreChildren(nodes[id := n], shape, root, id, c);
      assert PageFits(nodes[c]);
    }
  }

  lemma RootHasNoParent(nodes: NodeMap, shape: Shape, root: PageId, id: PageId)
    requires TreeOk(nodes, shape, root) && id in nodes && nodes[id].parent.None?
    ensures id == root
  {
    assert id != root ==> Attached(nodes, id);
  }

  /** All about the pages once the halves of the root have been put under the new root page `top`. */
  lemma GrownRoot(nodes: NodeMap, shape: Shape, root: PageId, n: Node, right: PageId, top: PageId, before: NodeMap)
    returns (after: NodeMap, shape': Shape)
    requires root in before && TreeOk(before[root := n], shape, root)
    requires Splittable(n) && WithinLimits(n) && HalvesWritten(before, nodes, root, n, right)
    requires PagesFit(nodes) && top !in nodes
    ensures after == nodes[top := Internal(None, [SplitKey(n)], [root, right])]
                          [root := WithParent(LeftHalf(n, right), top)][right := WithParent(nodes[right], top)]
    ensures after.Keys == nodes.Keys + {top}
    ensures TreeOk(after, shape', top) && PagesFit(after) && SameRecords(nodes, after)
    ensures shape'[top].height == shape[root].height + 1
    ensures AllSmall(nodes) && Small(n) ==> AllSmall(after)
    ensures Fits(Internal(None, [SplitKey(n)], [root, right]))
    ensures Fits(WithParent(LeftHalf(n, right), top)) && Fits(WithParent(nodes[right], top))
  {
    NewRootPagesFit(nodes, root, n, right, top);
    NewRootSameRecords(nodes, root, n, right, top);
    NewRootDone(before, nodes, shape, root, n, right, top);
    after, shape' := UnderNewRoot(nodes, root, n, right, top), NewRootShape(shape, root, n, right, top);
    assert PageFits(after[top]) && PageFits(after[root]) && PageFits(after[right]);
  }

  /** What has been achieved once the halves of `n` are written. */
  lemma SplitWritten(nodes: NodeMap, written: NodeMap, id: PageId, n: Node, right: PageId)
    requires PagesFit(nodes) && WithinLimits(n) && Splittable(n)
    requires HalvesWritten(nodes, written, id, n, right) && PageFits(LeftHalf(n, right)) && PageFits(RightHalf(n))
    ensures PagesFit(written) && SameRecords(nodes[id := n], written)
    ensures AllSmall(nodes) && Small(n) ==> AllSmall(written)
  {
    WrittenFit(nodes, written, id, n, right);
    assert HalvesWritten(nodes[id := n], written, id, n, right);
    HalvesKeepRecords(nodes[id := n], written, id, right);
  }

  // ---- Putting a record into a leaf ----

  function KeysOf(records: seq<Record>): (keys: seq<bytes>)
    ensures |keys| == |records|
    ensures forall i :: 0 <= i < |keys| ==> keys[i] == records[i].key
  {
    seq(|records|, i requires 0 <= i < |records| => records[i].key)
  }

  /** A leaf's records with `r` put at its place, replacing a record with the same key. */
  function PutRecord(records: seq<Record>, r: Record): seq<Record> {
    var pos := Position(KeysOf(records), r.key);
    if pos < |records| && records[pos].key == r.key then records[pos := r] else InsertAt(records, pos, r)
  }

  /** In sorted keys, `Position` separates the smaller keys from the others. */
  lemma {:induction false} PositionSeparates(keys: seq<bytes>, key: bytes)
    requires SortedKeys(keys)
    ensures forall i :: 0 <= i < Position(keys, key) ==> Less(keys[i], key)
    ensures forall i :: Position(keys, key) <= i < |keys| ==> keys[i] == key || Less(key, keys[i])
  {
    LessIsStrictTotalOrder();
    if keys != [] && Less(keys[0], key) {
      PositionSeparates(keys[1..], key);
      assert forall i :: 1 <= i < |keys| ==> keys[i] == keys[1..][i - 1];
    } else if keys != [] {
      assert forall i :: 0 < i < |keys| ==> Less(keys[0], keys[i]);
    }
  }

  lemma ReplaceSorted(records: seq<Record>, pos: nat, r: Record)
    requires SortedRecords(records) && pos < |records| && records[pos].key == r.key
    ensures SortedRecords(records[pos := r])
    ensures forall x :: x in records[pos := r] <==> x == r || (x in records && x.key != r.key)
  {
    LessIsStrictTotalOrder();
    var after := records[pos := r];
    forall x ensures x in after <==> x == r || (x in records && x.key != r.key) {
      if x in records && x.key != r.key {
        var i :| 0 <= i < |records| && records[i] == x;
        assert after[i] == x;
      }
      assert after[pos] == r;
    }
  }

  lemma InsertSorted(records: seq<Record>, pos: nat, r: Record)
    requires SortedRecords(records) && pos <= |records|
    requires forall i :: 0 <= i < pos ==> Less(records[i].key, r.key)
    requires forall i :: pos <= i < |records| ==> Less(r.key, records[i].key)
    ensures SortedRecords(InsertAt(records, pos, r))
    ensures forall x :: x in InsertAt(records, pos, r) <==> x == r || (x in records && x.key != r.key)
  {
    LessIsStrictTotalOrder();
    var after := InsertAt(records, pos, r);
    forall x ensures x in after <==> x == r || (x in records && x.key != r.key) {
      if x in records {
        var i :| 0 <= i < |records| && records[i] == x;
        assert after[if i < pos then i else i + 1] == x;
      }
      assert after[pos] == r;
    }
  }

  lemma PutRecordSorted(records: seq<Record>, r: Record)
    requires SortedRecords(records)
    ensures SortedRecords(PutRecord(records, r))
    ensures forall x :: x in PutRecord(records, r) <==> x == r || (x in records && x.key != r.key)
  {
    LessIsStrictTotalOrder();
    var keys, pos := KeysOf(records), Position(KeysOf(records), r.key);
    PositionSeparates(keys, r.key);
    if pos < |records| && records[pos].key == r.key {
      ReplaceSorted(records, pos, r);
    } else {
      forall i | pos <= i < |records| ensures Less(r.key, records[i].key) {
        assert keys[i] == records[i].key;
      }
      forall i | 0 <= i < pos ensures Less(records[i].key, r.key) {
        assert keys[i] == records[i].key;
      }
      InsertSorted(records, pos, r);
    }
  }

  /** Putting record `r` into leaf `id` needs no split whose halves do not fit. */
  ghost predicate PutFits(nodes: NodeMap, id: PageId, r: Record, levels: nat)
    requires id in nodes && nodes[id].Leaf?
  {
    var n := nodes[id].(records := PutRecord(nodes[id].records, r));
    Fits(n) || SplitFits(nodes, n, levels)
  }

  /** A leaf after a put. */
  function WithRecord(n: Node, r: Record): Node
    requires n.Leaf?
  {
    n.(records := PutRecord(n.records, r))
  }

  /** A leaf after a put: the tree is in order but for its size, and the map has the record. */
  lemma PutInLeaf(nodes: NodeMap, shape: Shape, root: PageId, contents: map<bytes, bytes>, id: PageId, r: Record)
    requires TreeOk(nodes, shape, root) && Holds(nodes, contents) && PagesFit(nodes)
    requires id in nodes && nodes[id].Leaf? && InSpan(r.key, shape[id]) && RecordWithinLimits(r)
    ensures var n := nodes[id].(records := PutRecord(nodes[id].records, r));
            && TreeOk(nodes[id := n], shape, root)
            && Holds(nodes[id := n], contents[r.key := r.val])
            && WithinLimits(n)
  {
    var records, after := nodes[id].records, PutRecord(nodes[id].records, r);
    assert NodeOk(nodes, shape, id) && PageFits(nodes[id]);
    PutRecordSorted(records, r);
    forall i | 0 <= i < |after| ensures InSpan(after[i].key, shape[id]) && RecordWithinLimits(after[i]) {
      assert after[i] in after;
      if after[i] != r {
        var j :| 0 <= j < |records| && records[j] == after[i];
      }
    }
    LeafEditOk(nodes, shape, root, id, after);
    PutHolds(nodes, shape, root, contents, id, after, r);
  }

  lemma PutRecordCosts(records: seq<Record>, r: Record)
    ensures Sum(RecordCosts(PutRecord(records, r))) <= Sum(RecordCosts(records)) + RecordCost(r)
  {
    var pos, after := Position(KeysOf(records), r.key), PutRecord(records, r);
    if pos < |records| && records[pos].key == r.key {
      assert RecordCosts(after) == RecordCosts(records)[pos := RecordCost(r)];
      SumUpdate(RecordCosts(records), pos, RecordCost(r));
    } else {
      assert RecordCosts(after) == InsertAt(RecordCosts(records), pos, RecordCost(r));
      SumInsert(RecordCosts(records), pos, RecordCost(r));
    }
  }

  lemma PutRecordMembers(records: seq<Record>, r: Record)
    ensures forall i :: 0 <= i < |PutRecord(records, r)| ==>
              PutRecord(records, r)[i] == r || PutRecord(records, r)[i] in records
  {
  }

  lemma PutSmall(n: Node, r: Record)
    requires n.Leaf? && Small(n) && RecordCost(r) <= SMALL_RECORD
    ensures Small(n.(records := PutRecord(n.records, r)))
  {
    PutRecordMembers(n.records, r);
    var m := n.(records := PutRecord(n.records, r));
    forall i | 0 <= i < |Costs(m)| ensures Costs(m)[i] <= SMALL_RECORD {
      if m.records[i] != r {
        var j :| 0 <= j < |n.records| && n.records[j] == m.records[i];
        assert Costs(n)[j] <= SMALL_RECORD;
      }
    }
  }

  /** Putting a small record into a tree of small records never fails. */
  lemma SmallPutFits(nodes: NodeMap, shape: Shape, root: PageId, contents: map<bytes, bytes>, id: PageId, r: Record)
    requires TreeOk(nodes, shape, root) && Holds(nodes, contents) && PagesFit(nodes) && AllSmall(nodes)
    requires id in nodes && nodes[id].Leaf? && InSpan(r.key, shape[id])
    requires RecordWithinLimits(r) && RecordCost(r) <= SMALL_RECORD
    ensures PutFits(nodes, id, r, Levels(shape, root, id))
  {
    var n := nodes[id].(records := PutRecord(nodes[id].records, r));
    assert PageFits(nodes[id]) && Small(nodes[id]);
    PutInLeaf(nodes, shape, root, contents, id, r);
    PutSmall(nodes[id], r);
    PutRecordCosts(nodes[id].records, r);
    if !Fits(n) {
      SmallSplitFits(nodes, shape, root, n, id);
    }
  }

  /** All about a leaf after a put. */
  lemma PutReady(nodes: NodeMap, shape: Shape, root: PageId, contents: map<bytes, bytes>, id: PageId, r: Record)
    requires TreeOk(nodes, shape, root) && Holds(nodes, contents) && PagesFit(nodes)
    requires id in nodes && nodes[id].Leaf? && InSpan(r.key, shape[id]) && RecordWithinLimits(r)
    ensures TreeOk(nodes[id := WithRecord(nodes[id], r)], shape, root)
    ensures Holds(nodes[id := WithRecord(nodes[id], r)], contents[r.key := r.val])
    ensures WithinLimits(WithRecord(nodes[id], r))
    ensures AllSmall(nodes) && RecordCost(r) <= SMALL_RECORD ==> Small(WithRecord(nodes[id], r))
  {
    PutInLeaf(nodes, shape, root, contents, id, r);
    if AllSmall(nodes) && RecordCost(r) <= SMALL_RECORD {
      assert Small(nodes[id]);
      PutSmall(nodes[id], r);
    }
  }
}
