/** Splitting an oversized page: the two halves, why they are usable, and the state of the tree once they and
    the moved children are written but the page above does not know about the new page yet. */
module TreeSplit {
  import opened Common
  import opened Bytes
  import opened Nodes
  import opened TreeInvariant
  import opened TreeContents

  // ---- Limits on what a page may hold ----

  predicate RecordWithinLimits(r: Record) {
    |r.key| <= MAX_KEY_SIZE && |r.val| <= MAX_INLINE_VAL_SIZE
  }

  predicate WithinLimits(n: Node) {
    match n
    case Leaf(_, _, records) => forall i :: 0 <= i < |records| ==> RecordWithinLimits(records[i])
    case Internal(_, keys, children) =>
      |keys| >= 1 && |children| == |keys| + 1 && forall i :: 0 <= i < |keys| ==> |keys[i]| <= MAX_KEY_SIZE
  }

  predicate PageFits(n: Node) {
    Fits(n) && WithinLimits(n)
  }

  /** Every page can be serialized, and every internal page has a separator. */
  ghost predicate PagesFit(nodes: NodeMap) {
    forall id {:trigger PageFits(nodes[id])} :: id in nodes ==> PageFits(nodes[id])
  }

  ghost predicate AllSmall(nodes: NodeMap) {
    forall id {:trigger Small(nodes[id])} :: id in nodes ==> Small(nodes[id])
  }

  lemma PageWritten(nodes: NodeMap, id: PageId, n: Node)
    requires PagesFit(nodes) && PageFits(n)
    ensures PagesFit(nodes[id := n])
    ensures AllSmall(nodes) && Small(n) ==> AllSmall(nodes[id := n])
  {
    var after := nodes[id := n];
    forall x | x in after ensures PageFits(after[x]) {
      if x != id { assert PageFits(nodes[x]); }
    }
    if AllSmall(nodes) && Small(n) {
      forall x | x in after ensures Small(after[x]) {
        if x != id { assert Small(nodes[x]); }
      }
    }
  }

  /** Size and limits do not depend on the parent link. */
  lemma ParentIsFree(n: Node, p: PageId)
    ensures PageFits(WithParent(n, p)) == PageFits(n) && Small(WithParent(n, p)) == Small(n)
  {
    assert Costs(WithParent(n, p)) == Costs(n);
  }

  // ---- The halves of a page ----

  function Count(n: Node): nat {
    if n.Leaf? then |n.records| else |n.keys|
  }

  function Mid(n: Node): nat {
    Count(n) / 2
  }

  predicate Splittable(n: Node) {
    && Count(n) >= 2
    && (n.Internal? ==> Count(n) >= 3 && |n.children| == |n.keys| + 1)
  }

  /** The first key the right page is responsible for. */
  function SplitKey(n: Node): bytes
    requires Splittable(n)
  {
    if n.Leaf? then n.records[Mid(n)].key else n.keys[Mid(n)]
  }

  function LeftHalf(n: Node, right: PageId): Node
    requires Splittable(n)
  {
    if n.Leaf? then n.(next := Some(right), records := n.records[..Mid(n)])
    else n.(keys := n.keys[..Mid(n)], children := n.children[..Mid(n) + 1])
  }

  function RightHalf(n: Node): Node
    requires Splittable(n)
  {
    if n.Leaf? then n.(records := n.records[Mid(n)..])
    else n.(keys := n.keys[Mid(n) + 1..], children := n.children[Mid(n) + 1..])
  }

  /** The pages that get the right page as their parent. */
  ghost function Moved(n: Node): set<PageId>
    requires Splittable(n)
  {
    if n.Leaf? then {} else set c | c in RightHalf(n).children
  }

  /** A page too large to serialize always has enough entries to split. */
  lemma OversizedIsSplittable(n: Node)
    requires WithinLimits(n) && !Fits(n)
    ensures Splittable(n)
  {
    SizeByCosts(n);
    if n.Leaf? {
      assert forall i :: 0 <= i < |n.records| ==> RecordWithinLimits(n.records[i]);
      OverflowCount(Costs(n), 8 + MAX_KEY_SIZE + MAX_INLINE_VAL_SIZE);
    } else {
      OverflowCount(Costs(n), 8 + MAX_KEY_SIZE);
    }
  }

  lemma HalvesWithinLimits(n: Node, right: PageId)
    requires WithinLimits(n) && Splittable(n)
    ensures WithinLimits(LeftHalf(n, right)) && WithinLimits(RightHalf(n))
    ensures |SplitKey(n)| <= MAX_KEY_SIZE
    ensures Small(n) ==> Small(LeftHalf(n, right)) && Small(RightHalf(n)) && 8 + |SplitKey(n)| <= SMALL_RECORD
  {
    HalfCosts(n, right);
    if n.Leaf? {
      assert RecordWithinLimits(n.records[Mid(n)]);
    }
    assert Costs(n)[Mid(n)] >= 8 + |SplitKey(n)|;
  }

  lemma HalfCosts(n: Node, right: PageId)
    requires Splittable(n)
    ensures Costs(LeftHalf(n, right)) == Costs(n)[..Mid(n)]
    ensures Costs(RightHalf(n)) == Costs(n)[if n.Leaf? then Mid(n) else Mid(n) + 1..]
  {
  }

  /** With small entries, the halves of a page that overflowed by one entry fit. */
  lemma SmallHalvesFit(n: Node, right: PageId)
    requires Splittable(n) && Small(n) && Sum(Costs(n)) <= PAYLOAD + SMALL_RECORD
    ensures Fits(LeftHalf(n, right)) && Fits(RightHalf(n))
  {
    CostsBounded(n);
    HalfCosts(n, right);
    HalvesFitByCosts(LeftHalf(n, right), RightHalf(n), Costs(n), Mid(n), if n.Leaf? then Mid(n) else Mid(n) + 1);
  }

  lemma HalvesFitByCosts(left: Node, right: Node, costs: seq<nat>, mid: nat, from: nat)
    requires Shaped(left) && Shaped(right) && mid == |costs| / 2 && mid <= from <= mid + 1 <= |costs|
    requires Costs(left) == costs[..mid] && Costs(right) == costs[from..]
    requires SmallCosts(costs) && Sum(costs) <= PAYLOAD + SMALL_RECORD
    ensures Fits(left) && Fits(right)
  {
    SmallHalfSums(costs, mid);
    FitsByCosts(left, costs[..mid]);
    if from == mid {
      FitsByCosts(right, costs[mid..]);
    } else {
      FitsByCosts(right, costs[mid + 1..]);
    }
  }

  lemma FitsByCosts(n: Node, costs: seq<nat>)
    requires Shaped(n) && Costs(n) == costs && Sum(costs) <= PAYLOAD
    ensures Fits(n)
  {
    SizeByCosts(n);
  }

  lemma CostsBounded(n: Node)
    requires Shaped(n) && Small(n)
    ensures SmallCosts(Costs(n))
  {
  }

  predicate SmallCost(c: nat) {
    8 <= c <= SMALL_RECORD
  }

  ghost predicate SmallCosts(costs: seq<nat>) {
    forall i {:trigger SmallCost(costs[i])} :: 0 <= i < |costs| ==> SmallCost(costs[i])
  }

  lemma SmallHalfSums(costs: seq<nat>, mid: nat)
    requires SmallCosts(costs)
    requires Sum(costs) <= PAYLOAD + SMALL_RECORD && mid == |costs| / 2 && costs != []
    ensures Sum(costs[..mid]) <= PAYLOAD && Sum(costs[mid..]) <= PAYLOAD && Sum(costs[mid + 1..]) <= PAYLOAD
  {
    forall i | 0 <= i < |costs| ensures 8 <= costs[i] <= SMALL_RECORD {
      assert SmallCost(costs[i]);
    }
    HalvesFit(costs, mid);
    SumDropFirst(costs[mid..]);
    assert costs[mid..][1..] == costs[mid + 1..];
  }

  // ---- Writing the halves ----

  /** `after` is `nodes` with the halves of `n` on pages `id` and `right`, and with the children that belong to
      the right half naming `right` as their parent. */
  ghost predicate HalvesWritten(nodes: NodeMap, after: NodeMap, id: PageId, n: Node, right: PageId)
    requires Splittable(n)
  {
    && id in nodes && right !in nodes
    && after.Keys == nodes.Keys + {right}
    && after[id] == LeftHalf(n, right)
    && after[right] == RightHalf(n)
    && (forall x {:trigger after[x]} :: x in nodes && x != id ==>
          after[x] == if x in Moved(n) then WithParent(nodes[x], right) else nodes[x])
  }

  /** Where a page is listed by the page above it, and that page's place in the tree. */
  lemma ParentOf(nodes: NodeMap, shape: Shape, root: PageId, id: PageId) returns (p: PageId, i: nat)
    requires TreeOk(nodes, shape, root) && id in nodes && nodes[id].parent.Some?
    ensures nodes[id].parent == Some(p) && p in nodes && p != id && nodes[p].Internal?
    ensures |nodes[p].children| == |nodes[p].keys| + 1
    ensures i < |nodes[p].children| && nodes[p].children[i] == id
    ensures shape[p].height == shape[id].height + 1
  {
    assert id != root;
    assert Attached(nodes, id);
    p := nodes[id].parent.value;
    assert NodeOk(nodes, shape, p);
    i :| 0 <= i < |nodes[p].children| && nodes[p].children[i] == id;
    ChildAt(nodes, shape, p, i);
  }

  /** The children of a page are one level below it and name it as their parent. */
  lemma MovedAreChildren(nodes: NodeMap, shape: Shape, root: PageId, id: PageId, c: PageId)
    requires TreeOk(nodes, shape, root) && id in nodes && Splittable(nodes[id]) && c in Moved(nodes[id])
    ensures c in nodes && c != id && nodes[c].parent == Some(id) && shape[c].height + 1 == shape[id].height
  {
    assert NodeOk(nodes, shape, id);
    var i :| 0 <= i < |nodes[id].children| && nodes[id].children[i] == c;
    ChildAt(nodes, shape, id, i);
  }

  /** The split key lies strictly inside the page's interval. */
  lemma SplitKeyInside(nodes: NodeMap, shape: Shape, root: PageId, id: PageId)
    requires TreeOk(nodes, shape, root) && id in nodes && Splittable(nodes[id])
    ensures Inside(SplitKey(nodes[id]), shape[id])
  {
    LessIsStrictTotalOrder();
    assert NodeOk(nodes, shape, id);
    if nodes[id].Leaf? {
      assert InSpan(nodes[id].records[0].key, shape[id]) && InSpan(SplitKey(nodes[id]), shape[id]);
    }
  }

  /** Once the page above lists the new page, the tree is in order again. */
  lemma SplitUnderParent(nodes: NodeMap, written: NodeMap, shape: Shape, root: PageId,
                         id: PageId, right: PageId, p: PageId, i: nat)
    requires TreeOk(nodes, shape, root) && id in nodes && Splittable(nodes[id])
    requires HalvesWritten(nodes, written, id, nodes[id], right)
    requires nodes[id].parent == Some(p) && p in nodes && p != id && nodes[p].Internal?
    requires |nodes[p].children| == |nodes[p].keys| + 1 && i < |nodes[p].children| && nodes[p].children[i] == id
    ensures p in written && written[p] == nodes[p]
    ensures TreeOk(written[p := WithChild(nodes[p], i, SplitKey(nodes[id]), right)],
                   SplitShape(shape, id, right, SplitKey(nodes[id])), root)
  {
    var n, key, moved := nodes[id], SplitKey(nodes[id]), Moved(nodes[id]);
    var after := written[p := WithChild(nodes[p], i, key, right)];
    SplitKeyInside(nodes, shape, root, id);
    assert NodeOk(nodes, shape, p);
    ChildAt(nodes, shape, p, i);
    forall c | c in moved ensures c in nodes && nodes[c].parent == Some(id) && c != id && c != p {
      MovedAreChildren(nodes, shape, root, id, c);
    }
    assert after.Keys == nodes.Keys + {right};
    assert IsSplit(nodes, after, shape, root, id, right, key, p, i, moved);
    if n.Leaf? {
      SplitLeafOk(nodes, after, shape, root, id, right, Mid(n), p, i);
    } else {
      SplitInternalOk(nodes, after, shape, root, id, right, Mid(n), p, i, moved);
    }
  }

  /** The root with a page without separators on top of it. */
  function RootUnder(nodes: NodeMap, root: PageId, top: PageId): NodeMap
    requires root in nodes
  {
    nodes[root := WithParent(nodes[root], top)][top := Internal(None, [], [root])]
  }

  /** The halves of the root under such a page. */
  function HalvesUnder(written: NodeMap, root: PageId, n: Node, right: PageId, top: PageId): NodeMap
    requires Splittable(n)
  {
    written[root := WithParent(LeftHalf(n, right), top)][right := WithParent(RightHalf(n), top)][top := Internal(None, [], [root])]
  }

  lemma NewRootHalves(nodes: NodeMap, written: NodeMap, shape: Shape, root: PageId, right: PageId, top: PageId)
    requires TreeOk(nodes, shape, root) && Splittable(nodes[root])
    requires HalvesWritten(nodes, written, root, nodes[root], right) && top !in written
    ensures Splittable(WithParent(nodes[root], top)) && SplitKey(WithParent(nodes[root], top)) == SplitKey(nodes[root])
    ensures HalvesWritten(RootUnder(nodes, root, top), HalvesUnder(written, root, nodes[root], right, top), root, WithParent(nodes[root], top), right)
  {
    var n := nodes[root];
    forall c | c in Moved(n) ensures c != top && c != root {
      MovedAreChildren(nodes, shape, root, root, c);
    }
    assert Moved(WithParent(n, top)) == Moved(n);
    HalvesPlaced(nodes, written, root, n, right, top);
  }

  lemma HalvesPlaced(nodes: NodeMap, written: NodeMap, root: PageId, n: Node, right: PageId, top: PageId)
    requires Splittable(n) && root in nodes && nodes[root] == n
    requires HalvesWritten(nodes, written, root, n, right) && top !in written
    requires top !in Moved(n) && root !in Moved(n) && Moved(WithParent(n, top)) == Moved(n)
    ensures HalvesWritten(RootUnder(nodes, root, top), HalvesUnder(written, root, n, right, top), root, WithParent(n, top), right)
  {
  }

  /** Splitting the root: with a new page on top of the two halves the tree is in order again. */
  lemma SplitUnderNewRoot(nodes: NodeMap, written: NodeMap, shape: Shape, root: PageId, right: PageId, top: PageId)
    requires TreeOk(nodes, shape, root) && Splittable(nodes[root])
    requires HalvesWritten(nodes, written, root, nodes[root], right)
    requires top !in written
    ensures TreeOk(written[top := Internal(None, [SplitKey(nodes[root])], [root, right])]
                          [root := WithParent(LeftHalf(nodes[root], right), top)]
                          [right := WithParent(RightHalf(nodes[root]), top)],
                   SplitShape(shape[top := Span(shape[root].height + 1, None, None)], root, right, SplitKey(nodes[root])),
                   top)
  {
    var n, key := nodes[root], SplitKey(nodes[root]);
    AddRootOk(nodes, shape, root, top);
    NewRootHalves(nodes, written, shape, root, right, top);
    var below := HalvesUnder(written, root, n, right, top);
    SplitUnderParent(RootUnder(nodes, root, top), below, shape[top := Span(shape[root].height + 1, None, None)], top, root, right, top, 0);
    NewRootPage(root, key, right);
    SameWrites(written, root, WithParent(LeftHalf(n, right), top), right, WithParent(RightHalf(n), top), top,
               Internal(None, [], [root]), Internal(None, [key], [root, right]));
  }

  lemma NewRootPage(root: PageId, key: bytes, right: PageId)
    ensures WithChild(Internal(None, [], [root]), 0, key, right) == Internal(None, [key], [root, right])
  {
    assert InsertAt<bytes>([], 0, key) == [key] && InsertAt([root], 1, right) == [root, right];
  }

  lemma SameWrites(written: NodeMap, a: PageId, x: Node, b: PageId, y: Node, c: PageId, z: Node, z': Node)
    requires c != a && c != b
    ensures written[a := x][b := y][c := z][c := z'] == written[c := z'][a := x][b := y]
  {
  }

  /** Writing the halves keeps every record stored. */
  lemma HalvesKeepRecords(nodes: NodeMap, written: NodeMap, id: PageId, right: PageId)
    requires id in nodes && Splittable(nodes[id]) && HalvesWritten(nodes, written, id, nodes[id], right)
    ensures SameRecords(nodes, written)
  {
    var n := nodes[id];
    if n.Leaf? {
      assert n.records == n.records[..Mid(n)] + n.records[Mid(n)..];
    }
    forall x, r | x in nodes && HasRecord(nodes[x], r) ensures Stored(written, r) {
      if x == id {
        assert HasRecord(written[id], r) || HasRecord(written[right], r);
      } else {
        assert HasRecord(written[x], r);
      }
    }
    forall x, r | x in written && HasRecord(written[x], r) ensures Stored(nodes, r) {
      assert HasRecord(nodes[if x == right then id else x], r);
    }
  }
}
