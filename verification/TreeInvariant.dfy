/** What makes a set of linked pages a B+ tree, and why the page-level edits of an insert keep it one.

    The invariant is local: a ghost shape gives every page its height and the key interval it is responsible
    for, and each page only constrains itself, its children and its right sibling. The limit on the encoded
    size of a node is kept apart, because a node is allowed to be oversized while it is being split. */
module TreeInvariant {
  import opened Common
  import opened Bytes
  import opened Nodes

  /** The height of a page's subtree and the interval `[lo, hi)` of keys it is responsible for. */
  datatype Span = Span(height: nat, lo: Option<bytes>, hi: Option<bytes>)

  type NodeMap = map<PageId, Node>
  type Shape = map<PageId, Span>

  predicate AtLeast(k: bytes, lo: Option<bytes>) {
    lo.None? || !Less(k, lo.value)
  }

  predicate Below(k: bytes, hi: Option<bytes>) {
    hi.None? || Less(k, hi.value)
  }

  predicate InSpan(k: bytes, s: Span) {
    AtLeast(k, s.lo) && Below(k, s.hi)
  }

  /** `k` separates the interval of `s` into two non-empty parts; the empty key is the smallest. */
  predicate Inside(k: bytes, s: Span) {
    k != [] && (s.lo.None? || Less(s.lo.value, k)) && Below(k, s.hi)
  }

  predicate SortedKeys(keys: seq<bytes>) {
    forall i, j :: 0 <= i < j < |keys| ==> Less(keys[i], keys[j])
  }

  predicate SortedRecords(records: seq<Record>) {
    forall i, j :: 0 <= i < j < |records| ==> Less(records[i].key, records[j].key)
  }

  function ChildLo(keys: seq<bytes>, s: Span, i: nat): Option<bytes>
    requires i <= |keys|
  {
    if i == 0 then s.lo else Some(keys[i - 1])
  }

  function ChildHi(keys: seq<bytes>, s: Span, i: nat): Option<bytes>
    requires i <= |keys|
  {
    if i == |keys| then s.hi else Some(keys[i])
  }

  /** A leaf's records are sorted and in its interval, and its sibling pointer leads to the leaf that is
      responsible for the keys right after its own. */
  ghost predicate LeafOk(nodes: NodeMap, shape: Shape, id: PageId)
    requires id in nodes && id in shape && nodes[id].Leaf?
  {
    var n, s := nodes[id], shape[id];
    && s.height == 0
    && SortedRecords(n.records)
    && (forall i :: 0 <= i < |n.records| ==> InSpan(n.records[i].key, s))
    && n.next.Some? == s.hi.Some?
    && (n.next.Some? ==>
          && n.next.value in nodes
          && n.next.value in shape
          && shape[n.next.value].height == 0
          && shape[n.next.value].lo == s.hi)
  }

  /** Child `i` of an internal page is one level lower, is responsible for the keys between the separators
      around it, and stores this page as its parent. */
  ghost predicate ChildOk(nodes: NodeMap, shape: Shape, id: PageId, n: Node, i: nat)
    requires id in shape && n.Internal? && |n.children| == |n.keys| + 1 && i < |n.children|
  {
    var s, c := shape[id], n.children[i];
    && c in nodes
    && c in shape
    && s.height > 0
    && shape[c] == Span(s.height - 1, ChildLo(n.keys, s, i), ChildHi(n.keys, s, i))
    && nodes[c].parent == Some(id)
  }

  ghost predicate InternalOk(nodes: NodeMap, shape: Shape, id: PageId)
    requires id in nodes && id in shape && nodes[id].Internal?
  {
    var n, s := nodes[id], shape[id];
    && |n.children| == |n.keys| + 1
    && SortedKeys(n.keys)
    && (forall i :: 0 <= i < |n.keys| ==> Inside(n.keys[i], s))
    && (forall i {:trigger n.children[i]} :: 0 <= i < |n.children| ==> ChildOk(nodes, shape, id, n, i))
  }

  ghost predicate NodeOk(nodes: NodeMap, shape: Shape, id: PageId)
    requires id in nodes && id in shape
  {
    if nodes[id].Leaf? then LeafOk(nodes, shape, id) else InternalOk(nodes, shape, id)
  }

  /** The stored parent of a page is an internal page that lists it as a child. */
  ghost predicate Attached(nodes: NodeMap, id: PageId)
    requires id in nodes
  {
    && nodes[id].parent.Some?
    && nodes[id].parent.value in nodes
    && nodes[nodes[id].parent.value].Internal?
    && id in nodes[nodes[id].parent.value].children
  }

  ghost predicate TreeOk(nodes: NodeMap, shape: Shape, root: PageId) {
    && shape.Keys == nodes.Keys
    && root in nodes
    && nodes[root].parent.None?
    && shape[root].lo.None? && shape[root].hi.None?
    && (forall id {:trigger NodeOk(nodes, shape, id)} :: id in nodes ==> NodeOk(nodes, shape, id))
    && (forall id {:trigger Attached(nodes, id)} :: id in nodes && id != root ==> Attached(nodes, id))
    && (forall id {:trigger shape[id]} :: id in nodes && id != root ==> shape[id].height < shape[root].height)
  }

  // ---- Reading the tree ----

  /** What an internal page in order says about one of its children. */
  lemma ChildAt(nodes: NodeMap, shape: Shape, p: PageId, i: nat)
    requires p in nodes && p in shape && nodes[p].Internal? && NodeOk(nodes, shape, p) && i < |nodes[p].children|
    ensures |nodes[p].children| == |nodes[p].keys| + 1 && ChildOk(nodes, shape, p, nodes[p], i)
  {
    var c := nodes[p].children[i];
    assert InternalOk(nodes, shape, p) && c == nodes[p].children[i];
  }

  /** Different children of a page are responsible for different intervals. */
  lemma ChildrenApart(nodes: NodeMap, shape: Shape, root: PageId, p: PageId, i: nat, j: nat, k: bytes)
    requires TreeOk(nodes, shape, root) && p in nodes && nodes[p].Internal?
    requires i < |nodes[p].children| && j < |nodes[p].children|
    requires nodes[p].children[i] in shape && nodes[p].children[j] in shape
    requires InSpan(k, shape[nodes[p].children[i]]) && InSpan(k, shape[nodes[p].children[j]])
    ensures i == j
  {
    LessIsStrictTotalOrder();
    assert NodeOk(nodes, shape, p);
    var n := nodes[p];
    ChildAt(nodes, shape, p, i);
    ChildAt(nodes, shape, p, j);
  }

  /** A page's interval lies within that of its parent. */
  lemma ParentCovers(nodes: NodeMap, shape: Shape, root: PageId, id: PageId, k: bytes) returns (p: PageId, i: nat)
    requires TreeOk(nodes, shape, root) && id in nodes && id != root && InSpan(k, shape[id])
    ensures p in nodes && nodes[id].parent == Some(p) && nodes[p].Internal?
    ensures i < |nodes[p].children| && nodes[p].children[i] == id
    ensures shape[p].height == shape[id].height + 1 && InSpan(k, shape[p])
  {
    LessIsStrictTotalOrder();
    assert Attached(nodes, id);
    p := nodes[id].parent.value;
    assert NodeOk(nodes, shape, p);
    i :| 0 <= i < |nodes[p].children| && nodes[p].children[i] == id;
    ChildAt(nodes, shape, p, i);
  }

  /** At one height, a key is the responsibility of one page only. */
  lemma {:induction false} OnePageForKey(nodes: NodeMap, shape: Shape, root: PageId, a: PageId, b: PageId, k: bytes)
    requires TreeOk(nodes, shape, root) && a in nodes && b in nodes
    requires shape[a].height == shape[b].height
    requires InSpan(k, shape[a]) && InSpan(k, shape[b])
    ensures a == b
    decreases shape[root].height - shape[a].height
  {
    if a != root && b != root {
      var p, i := ParentCovers(nodes, shape, root, a, k);
      var q, j := ParentCovers(nodes, shape, root, b, k);
      OnePageForKey(nodes, shape, root, p, q, k);
      ChildrenApart(nodes, shape, root, p, i, j, k);
    }
  }

  // ---- Page-level edits ----

  function WithParent(n: Node, p: PageId): Node {
    n.(parent := Some(p))
  }

  /** An internal node after a split of its child `i`: the separator and the new right page come after it. */
  function WithChild(n: Node, i: nat, key: bytes, right: PageId): Node
    requires n.Internal? && |n.children| == |n.keys| + 1 && i <= |n.keys|
  {
    Internal(n.parent, InsertAt(n.keys, i, key), InsertAt(n.children, i + 1, right))
  }

  /** Changing the records of a leaf within its interval. */
  lemma LeafEditOk(nodes: NodeMap, shape: Shape, root: PageId, id: PageId, records: seq<Record>)
    requires TreeOk(nodes, shape, root) && id in nodes && nodes[id].Leaf?
    requires SortedRecords(records)
    requires forall i :: 0 <= i < |records| ==> InSpan(records[i].key, shape[id])
    ensures TreeOk(nodes[id := nodes[id].(records := records)], shape, root)
  {
    var after := nodes[id := nodes[id].(records := records)];
    forall x | x in after ensures NodeOk(after, shape, x) {
      assert NodeOk(nodes, shape, x);
      if nodes[x].Internal? {
        forall i | 0 <= i < |nodes[x].children| ensures ChildOk(after, shape, x, after[x], i) {
          ChildAt(nodes, shape, x, i);
        }
      }
    }
    forall x | x in after && x != root ensures Attached(after, x) {
      assert Attached(nodes, x);
      assert NodeOk(nodes, shape, nodes[x].parent.value);
    }
  }

  /** Putting an internal page without separators on top of the root. */
  lemma AddRootOk(nodes: NodeMap, shape: Shape, root: PageId, top: PageId)
    requires TreeOk(nodes, shape, root) && top !in nodes
    ensures TreeOk(nodes[root := WithParent(nodes[root], top)][top := Internal(None, [], [root])],
                   shape[top := Span(shape[root].height + 1, None, None)], top)
  {
    var after := nodes[root := WithParent(nodes[root], top)][top := Internal(None, [], [root])];
    var shape' := shape[top := Span(shape[root].height + 1, None, None)];
    forall x | x in after ensures NodeOk(after, shape', x) {
      if x == top {
        assert ChildOk(after, shape', top, after[top], 0);
      } else {
        assert NodeOk(nodes, shape, x);
        if nodes[x].Internal? {
          forall i | 0 <= i < |nodes[x].children| ensures ChildOk(after, shape', x, after[x], i) {
            ChildAt(nodes, shape, x, i);
          }
        }
      }
    }
    forall x | x in after && x != top ensures Attached(after, x) {
      if x != root {
        assert Attached(nodes, x);
      }
    }
    assert forall x :: x in nodes && x != root ==> shape[x].height < shape[root].height;
  }

  // ---- Splitting a page under its parent ----

  /** The shape after page `left` gave the keys from `key` on to page `right`. */
  function SplitShape(shape: Shape, left: PageId, right: PageId, key: bytes): Shape
    requires left in shape
  {
    shape[left := shape[left].(hi := Some(key))][right := shape[left].(lo := Some(key))]
  }

  /** `after` is `nodes` with page `left` split at `key` into `left` and the new page `right`, with the parent
      page `p` listing `right` after its child `i`, and the pages in `moved`, so far children of `left`, storing
      `right` as their parent. Nothing else differs. */
  ghost predicate IsSplit(nodes: NodeMap, after: NodeMap, shape: Shape, root: PageId,
                          left: PageId, right: PageId, key: bytes, p: PageId, i: nat, moved: set<PageId>)
  {
    && TreeOk(nodes, shape, root)
    && left in nodes && right !in nodes && p in nodes && left != p
    && nodes[p].Internal?
    && |nodes[p].children| == |nodes[p].keys| + 1
    && i < |nodes[p].children| && nodes[p].children[i] == left
    && Inside(key, shape[left])
    && after.Keys == nodes.Keys + {right}
    && after[p] == WithChild(nodes[p], i, key, right)
    && after[left].parent == after[right].parent == Some(p)
    && left !in moved && p !in moved
    && (forall x {:trigger after[x]} :: x in nodes && x in moved ==>
          nodes[x].parent == Some(left) && after[x] == WithParent(nodes[x], right))
    && (forall x {:trigger after[x]} :: x in nodes && x !in moved && x != left && x != p ==> after[x] == nodes[x])
  }

  /** The children of the parent page are in order after a split of child `i`. */
  lemma SplitParentChild(nodes: NodeMap, after: NodeMap, shape: Shape, root: PageId,
                         left: PageId, right: PageId, key: bytes, p: PageId, i: nat, moved: set<PageId>, j: nat)
    requires IsSplit(nodes, after, shape, root, left, right, key, p, i, moved) && j < |after[p].children|
    ensures ChildOk(after, SplitShape(shape, left, right, key), p, after[p], j)
  {
    assert NodeOk(nodes, shape, p);
    ChildAt(nodes, shape, p, i);
    var was := if j <= i then j else j - 1;
    ChildAt(nodes, shape, p, was);
    if was != i {
      OtherChild(nodes, shape, root, p, i, was);
    }
  }

  /** The parent page is in order after a split of its child. */
  lemma SplitParentOk(nodes: NodeMap, after: NodeMap, shape: Shape, root: PageId,
                      left: PageId, right: PageId, key: bytes, p: PageId, i: nat, moved: set<PageId>)
    requires IsSplit(nodes, after, shape, root, left, right, key, p, i, moved)
    ensures NodeOk(after, SplitShape(shape, left, right, key), p)
  {
    var n := nodes[p];
    assert NodeOk(nodes, shape, p);
    ChildAt(nodes, shape, p, i);
    SeparatorFits(n.keys, shape[p], i, key);
    forall j | 0 <= j < |after[p].children| ensures ChildOk(after, SplitShape(shape, left, right, key), p, after[p], j) {
      SplitParentChild(nodes, after, shape, root, left, right, key, p, i, moved, j);
    }
  }

  /** A key inside the interval of child `i` goes between the separators around it. */
  lemma SeparatorFits(keys: seq<bytes>, s: Span, i: nat, key: bytes)
    requires SortedKeys(keys) && i <= |keys| && (forall j :: 0 <= j < |keys| ==> Inside(keys[j], s))
    requires Inside(key, Span(0, ChildLo(keys, s, i), ChildHi(keys, s, i)))
    ensures SortedKeys(InsertAt(keys, i, key)) && forall j :: 0 <= j < |keys| + 1 ==>
              Inside(InsertAt(keys, i, key)[j], s)
  {
    LessIsStrictTotalOrder();
  }

  /** So is every page that takes no part in the split. */
  lemma SplitOtherOk(nodes: NodeMap, after: NodeMap, shape: Shape, root: PageId,
                     left: PageId, right: PageId, key: bytes, p: PageId, i: nat, moved: set<PageId>, x: PageId)
    requires IsSplit(nodes, after, shape, root, left, right, key, p, i, moved)
    requires x in nodes && x != left && x != p
    ensures NodeOk(after, SplitShape(shape, left, right, key), x)
  {
    var shape' := SplitShape(shape, left, right, key);
    assert NodeOk(nodes, shape, x);
    if nodes[x].Internal? {
      assert NodeOk(nodes, shape, p);
      ChildAt(nodes, shape, p, i);
      forall j | 0 <= j < |nodes[x].children| ensures ChildOk(after, shape', x, after[x], j) {
        ChildAt(nodes, shape, x, j);
      }
    }
  }

  /** Every page but the root is still listed by the page it stores as its parent. */
  lemma SplitAttached(nodes: NodeMap, after: NodeMap, shape: Shape, root: PageId,
                      left: PageId, right: PageId, key: bytes, p: PageId, i: nat, moved: set<PageId>)
    requires IsSplit(nodes, after, shape, root, left, right, key, p, i, moved)
    requires after[left].Leaf? ==> nodes[left].Leaf? && moved == {}
    requires after[left].Internal? ==>
               && nodes[left].Internal? && after[right].Internal?
               && nodes[left].children == after[left].children + after[right].children
               && moved == (set c | c in after[right].children)
    ensures forall x {:trigger Attached(after, x)} :: x in after && x != root ==> Attached(after, x)
  {
    forall x | x in after && x != root ensures Attached(after, x) {
      if x == right {
        assert after[p].children[i + 1] == right;
      } else if x == left {
        assert after[p].children[i] == left;
      } else {
        assert Attached(nodes, x);
        if nodes[x].parent == Some(p) {
          var j :| 0 <= j < |nodes[p].children| && nodes[p].children[j] == x;
          assert after[p].children[if j <= i then j else j + 1] == x;
        }
      }
    }
  }

  /** The halves of a leaf are in order. */
  lemma SplitLeafHalves(nodes: NodeMap, after: NodeMap, shape: Shape, root: PageId,
                        left: PageId, right: PageId, mid: nat, p: PageId, i: nat)
    requires left in nodes && nodes[left].Leaf? && 0 < mid < |nodes[left].records|
    requires IsSplit(nodes, after, shape, root, left, right, nodes[left].records[mid].key, p, i, {})
    requires after[left] == nodes[left].(next := Some(right), records := nodes[left].records[..mid])
    requires after[right] == nodes[left].(records := nodes[left].records[mid..])
    ensures NodeOk(after, SplitShape(shape, left, right, nodes[left].records[mid].key), left)
    ensures NodeOk(after, SplitShape(shape, left, right, nodes[left].records[mid].key), right)
  {
    LessIsStrictTotalOrder();
    assert NodeOk(nodes, shape, left);
  }

  lemma SplitLeafOk(nodes: NodeMap, after: NodeMap, shape: Shape, root: PageId,
                    left: PageId, right: PageId, mid: nat, p: PageId, i: nat)
    requires left in nodes && nodes[left].Leaf? && 0 < mid < |nodes[left].records|
    requires IsSplit(nodes, after, shape, root, left, right, nodes[left].records[mid].key, p, i, {})
    requires after[left] == nodes[left].(next := Some(right), records := nodes[left].records[..mid])
    requires after[right] == nodes[left].(records := nodes[left].records[mid..])
    ensures TreeOk(after, SplitShape(shape, left, right, nodes[left].records[mid].key), root)
  {
    var key := nodes[left].records[mid].key;
    var shape' := SplitShape(shape, left, right, key);
    SplitLeafHalves(nodes, after, shape, root, left, right, mid, p, i);
    forall x | x in after ensures NodeOk(after, shape', x) {
      if x == p {
        SplitParentOk(nodes, after, shape, root, left, right, key, p, i, {});
      } else if x != left && x != right {
        SplitOtherOk(nodes, after, shape, root, left, right, key, p, i, {}, x);
      }
    }
    SplitAttached(nodes, after, shape, root, left, right, key, p, i, {});
    assert NodeOk(nodes, shape, p);
    ChildAt(nodes, shape, p, i);
  }

  /** `IsSplit` for an internal page: the middle separator moves up, what lies right of it moves to `right`. */
  ghost predicate IsInternalSplit(nodes: NodeMap, after: NodeMap, shape: Shape, root: PageId,
                                  left: PageId, right: PageId, mid: nat, p: PageId, i: nat, moved: set<PageId>)
  {
    && left in nodes && nodes[left].Internal? && 0 < mid < |nodes[left].keys|
    && |nodes[left].children| == |nodes[left].keys| + 1
    && IsSplit(nodes, after, shape, root, left, right, nodes[left].keys[mid], p, i, moved)
    && after[left] == nodes[left].(keys := nodes[left].keys[..mid], children := nodes[left].children[..mid + 1])
    && after[right] ==
         nodes[left].(keys := nodes[left].keys[mid + 1..], children := nodes[left].children[mid + 1..])
    && moved == set c | c in after[right].children
  }

  lemma SplitLeftChild(nodes: NodeMap, after: NodeMap, shape: Shape, root: PageId,
                       left: PageId, right: PageId, mid: nat, p: PageId, i: nat, moved: set<PageId>, j: nat)
    requires IsInternalSplit(nodes, after, shape, root, left, right, mid, p, i, moved) && j <= mid
    ensures ChildOk(after, SplitShape(shape, left, right, nodes[left].keys[mid]), left, after[left], j)
  {
    var n := nodes[left];
    assert NodeOk(nodes, shape, left);
    ChildAt(nodes, shape, left, j);
    NotAmongLater(nodes, shape, root, left, j, mid);
    assert after[left].children[j] == n.children[j] && n.children[j] !in moved;
  }

  /** A child up to the middle does not come again behind it. */
  lemma NotAmongLater(nodes: NodeMap, shape: Shape, root: PageId, p: PageId, j: nat, mid: nat)
    requires TreeOk(nodes, shape, root) && p in nodes && nodes[p].Internal? && j <= mid < |nodes[p].children|
    ensures nodes[p].children[j] !in nodes[p].children[mid + 1..]
  {
    forall k | mid + 1 <= k < |nodes[p].children| ensures nodes[p].children[k] != nodes[p].children[j] {
      OtherChild(nodes, shape, root, p, j, k);
    }
  }

  lemma SplitLeftHalfOk(nodes: NodeMap, after: NodeMap, shape: Shape, root: PageId,
                        left: PageId, right: PageId, mid: nat, p: PageId, i: nat, moved: set<PageId>)
    requires IsInternalSplit(nodes, after, shape, root, left, right, mid, p, i, moved)
    ensures NodeOk(after, SplitShape(shape, left, right, nodes[left].keys[mid]), left)
  {
    assert NodeOk(nodes, shape, left);
    KeysSplit(nodes[left].keys, shape[left], mid);
    forall j | 0 <= j < |after[left].children|
      ensures ChildOk(after, SplitShape(shape, left, right, nodes[left].keys[mid]), left, after[left], j)
    {
      SplitLeftChild(nodes, after, shape, root, left, right, mid, p, i, moved, j);
    }
  }

  /** The separators on either side of the middle one are in order. */
  lemma KeysSplit(keys: seq<bytes>, s: Span, mid: nat)
    requires SortedKeys(keys) && mid < |keys| && (forall j :: 0 <= j < |keys| ==> Inside(keys[j], s))
    ensures SortedKeys(keys[..mid]) && forall j :: 0 <= j < mid ==> Inside(keys[..mid][j], s.(hi := Some(keys[mid])))
    ensures var rest := keys[mid + 1..];
            SortedKeys(rest) && forall j :: 0 <= j < |rest| ==> Inside(rest[j], s.(lo := Some(keys[mid])))
  {
  }

  lemma SplitRightHalfOk(nodes: NodeMap, after: NodeMap, shape: Shape, root: PageId,
                         left: PageId, right: PageId, mid: nat, p: PageId, i: nat, moved: set<PageId>)
    requires IsInternalSplit(nodes, after, shape, root, left, right, mid, p, i, moved)
    ensures NodeOk(after, SplitShape(shape, left, right, nodes[left].keys[mid]), right)
  {
    var n, m, key := nodes[left], after[right], nodes[left].keys[mid];
    var shape' := SplitShape(shape, left, right, key);
    assert NodeOk(nodes, shape, left);
    KeysSplit(n.keys, shape[left], mid);
    forall j | 0 <= j < |m.children| ensures ChildOk(after, shape', right, m, j) {
      ChildAt(nodes, shape, left, mid + 1 + j);
      assert m.children[j] == n.children[mid + 1 + j] && m.children[j] in moved;
    }
  }

  /** Every page is in order after the split of an internal page. */
  lemma SplitInternalNodeOk(nodes: NodeMap, after: NodeMap, shape: Shape, root: PageId,
                            left: PageId, right: PageId, mid: nat, p: PageId, i: nat, moved: set<PageId>, x: PageId)
    requires IsInternalSplit(nodes, after, shape, root, left, right, mid, p, i, moved) && x in after
    ensures x in SplitShape(shape, left, right, nodes[left].keys[mid])
    ensures NodeOk(after, SplitShape(shape, left, right, nodes[left].keys[mid]), x)
  {
    var key := nodes[left].keys[mid];
    if x == left {
      SplitLeftHalfOk(nodes, after, shape, root, left, right, mid, p, i, moved);
    } else if x == right {
      SplitRightHalfOk(nodes, after, shape, root, left, right, mid, p, i, moved);
    } else if x == p {
      SplitParentOk(nodes, after, shape, root, left, right, key, p, i, moved);
    } else {
      SplitOtherOk(nodes, after, shape, root, left, right, key, p, i, moved, x);
    }
  }

  lemma SplitInternalOk(nodes: NodeMap, after: NodeMap, shape: Shape, root: PageId,
                        left: PageId, right: PageId, mid: nat, p: PageId, i: nat, moved: set<PageId>)
    requires IsInternalSplit(nodes, after, shape, root, left, right, mid, p, i, moved)
    ensures TreeOk(after, SplitShape(shape, left, right, nodes[left].keys[mid]), root)
  {
    var key := nodes[left].keys[mid];
    var shape' := SplitShape(shape, left, right, key);
    forall x | x in after ensures x in shape' && NodeOk(after, shape', x) {
      SplitInternalNodeOk(nodes, after, shape, root, left, right, mid, p, i, moved, x);
    }
    SplitChildren(nodes, after, shape, root, left, right, mid, p, i, moved);
    SplitAttached(nodes, after, shape, root, left, right, key, p, i, moved);
    assert NodeOk(nodes, shape, p);
    ChildAt(nodes, shape, p, i);
  }

  lemma SplitChildren(nodes: NodeMap, after: NodeMap, shape: Shape, root: PageId,
                      left: PageId, right: PageId, mid: nat, p: PageId, i: nat, moved: set<PageId>)
    requires IsInternalSplit(nodes, after, shape, root, left, right, mid, p, i, moved)
    ensures after[left].Internal? && after[right].Internal?
    ensures nodes[left].children == after[left].children + after[right].children
  {
  }

  /** The children of a page are distinct pages. */
  lemma OtherChild(nodes: NodeMap, shape: Shape, root: PageId, p: PageId, i: nat, j: nat)
    requires TreeOk(nodes, shape, root) && p in nodes && nodes[p].Internal?
    requires i < |nodes[p].children| && j < |nodes[p].children| && i != j
    ensures nodes[p].children[i] != nodes[p].children[j]
  {
    LessIsStrictTotalOrder();
    assert NodeOk(nodes, shape, p);
    ChildAt(nodes, shape, p, i);
    ChildAt(nodes, shape, p, j);
  }
}
