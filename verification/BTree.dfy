/** The B+ tree with its overflow pages. */
module BPlusTree {
  import opened Common
  import opened Bytes
  import opened Nodes
  import opened PageAllocator
  import opened Overflow
  import opened TreeInvariant
  import opened TreeContents
  import opened TreeSplit
  import opened TreeCascade
  import opened LeafChain

  datatype Error = KeyTooLarge | NodeTooLarge | NoSpace

  /** The pages in use are the tree pages and the overflow pages, and no page is both. */
  ghost predicate Accounted(tree: set<PageId>, other: set<PageId>, alloc: Allocator) {
    alloc.Valid() && alloc.Live() == tree + other && tree !! other
  }

  /** The tree is in order, every page of it can be serialized, and all pages in use are accounted for. */
  ghost predicate Sound(nodes: NodeMap, shape: Shape, root: PageId, other: set<PageId>, alloc: Allocator) {
    TreeOk(nodes, shape, root) && PagesFit(nodes) && Accounted(nodes.Keys, other, alloc)
  }

  /** The outcome of an operation that is possible exactly if `fits`. */
  ghost predicate Decides(r: Result<(), Error>, fits: bool, alloc: Allocator) {
    && (r.Ok? ==> fits)
    && (r == Err(NodeTooLarge) ==> !fits)
    && (r == Err(NoSpace) ==> alloc.numPages == U32_MAX)
    && r != Err(KeyTooLarge)
  }

  lemma ErrorCases(r: Result<(), Error>)
    ensures r.Ok? || r == Err(KeyTooLarge) || r == Err(NodeTooLarge) || r == Err(NoSpace)
  {
    assert r.Err? ==> r.error.KeyTooLarge? || r.error.NodeTooLarge? || r.error.NoSpace?;
  }

  /** Binary search in strictly sorted keys: the position of the key, or where it would go. */
  method BinarySearch(keys: seq<bytes>, key: bytes) returns (found: bool, pos: nat)
    requires SortedKeys(keys)
    ensures pos == Position(keys, key)
    ensures found == (pos < |keys| && keys[pos] == key)
    ensures found == (key in keys)
  {
    LessIsStrictTotalOrder();
    PositionSeparates(keys, key);
    var lo, hi := 0, |keys|;
    while lo < hi
      invariant 0 <= lo <= hi <= |keys|
      invariant forall i :: 0 <= i < lo ==> Less(keys[i], key)
      invariant forall i :: hi <= i < |keys| ==> Less(key, keys[i])
    {
      var mid := (lo + hi) / 2;
      if keys[mid] == key {
        PositionIs(keys, mid, key);
        return true, mid;
      } else if Less(keys[mid], key) {
        lo := mid + 1;
      } else {
        hi := mid;
      }
    }
    PositionIs(keys, lo, key);
    return false, lo;
  }

  /** Cuts an internal page at its middle separator, which belongs to neither part. */
  method CutInternal(n: Node) returns (left: Node, pushUpKey: bytes, right: Node)
    requires n.Internal? && Splittable(n)
    ensures pushUpKey == SplitKey(n) && right == RightHalf(n)
    ensures forall id :: left == LeftHalf(n, id)
  {
    var mid := |n.keys| / 2;
    pushUpKey := n.keys[mid];
    var keys := RemoveAt(n.keys, mid);
    var rightKeys, rightChildren := keys[mid..], n.children[mid + 1..];
    assert keys[..mid] == n.keys[..mid] && rightKeys == n.keys[mid + 1..];
    left := n.(keys := keys[..mid], children := n.children[..mid + 1]);
    right := Internal(n.parent, rightKeys, rightChildren);
  }

  /** The leaf `id` has been freed: the leaf before it links to the one behind, no other page differs, and `contents` are
      found as before. */
  ghost predicate Freed(nodes: NodeMap, after: NodeMap, root: PageId, id: PageId, contents: map<bytes, bytes>, steps: nat) {
    (exists prev :: Unlinked(nodes, after, id, prev)) && OthersKept(after, root, contents, steps)
  }

  /** A leaf after the record of a key, if it has one, is taken out. */
  function WithoutKey(n: Node, key: bytes): Node
    requires n.Leaf?
  {
    var pos := Position(KeysOf(n.records), key);
    if pos < |n.records| && n.records[pos].key == key then n.(records := RemoveAt(n.records, pos)) else n
  }

  class BTree {
    var nodes: NodeMap
    var overflow: OverflowMap
    var root: PageId
    /** The root page id on the metadata page. */
    var storedRoot: PageId
    var alloc: Allocator

    /** Height and key interval of every tree page. */
    ghost var shape: Shape
    /** The stored bytes of every key: its value, or the handle of its overflow chain. */
    ghost var raw: map<bytes, bytes>
    /** The map the tree stands for. */
    ghost var view: map<bytes, bytes>
    /** The overflow pages of every key that has some, and the key every overflow page belongs to. */
    ghost var chains: map<bytes, seq<PageId>>
    ghost var owner: map<PageId, bytes>

    ghost predicate TreeValid()
      reads this
    {
      && Sound(nodes, shape, root, overflow.Keys, alloc)
      && storedRoot == root
      && Holds(nodes, raw)
    }

    ghost predicate Valid()
      reads this
    {
      TreeValid() && ValuesOk(raw, view, chains, owner, overflow)
    }

    // ---- Pages ----

    /** `write_node`: fails on a node larger than a page. */
    method WriteNode(id: PageId, n: Node) returns (ok: bool)
      modifies `nodes
      ensures ok == Fits(n)
      ensures nodes == if ok then old(nodes)[id := n] else old(nodes)
    {
      var size := EncodedSize(n);
      ok := size <= PAGE_SIZE;
      if ok {
        nodes := nodes[id := n];
      }
    }

    method AllocatePage() returns (id: Option<PageId>)
      requires Accounted(nodes.Keys, overflow.Keys, alloc)
      modifies `alloc
      ensures id.None? ==> alloc == old(alloc) && alloc.numPages == U32_MAX
      ensures alloc.numPages <= old(alloc.numPages) + 1
      ensures id.Some? ==>
                && 0 < id.value < NO_PAGE
                && id.value !in nodes && id.value !in overflow
                && Accounted(nodes.Keys + {id.value}, overflow.Keys, alloc)
                && Accounted(nodes.Keys, overflow.Keys + {id.value}, alloc)
    {
      match alloc.Take()
      case None =>
        id := None;
      case Some((page, rest)) =>
        TakeFresh(alloc);
        id, alloc := Some(page), rest;
    }

    // ---- Descent ----

    /** `find_leaf_for_insert`: descends to the leaf responsible for a key. */
    method FindLeaf(currentId: PageId, current: Node, key: bytes) returns (leafId: PageId, leaf: Node)
      requires TreeOk(nodes, shape, root)
      requires currentId in nodes && current == nodes[currentId] && InSpan(key, shape[currentId])
      ensures leafId in nodes && leaf == nodes[leafId] && leaf.Leaf? && InSpan(key, shape[leafId])
      decreases shape[currentId].height
    {
      LessIsStrictTotalOrder();
      assert NodeOk(nodes, shape, currentId);
      match current
      case Leaf(_, _, _) =>
        return currentId, current;
      case Internal(_, keys, children) =>
        var childIdx := |keys|;
        for i := 0 to |keys|
          invariant childIdx == |keys|
          invariant forall j :: 0 <= j < i ==> !Less(key, keys[j])
        {
          if Less(key, keys[i]) {
            childIdx := i;
            break;
          }
        }
        ChildAt(nodes, shape, currentId, childIdx);
        leafId, leaf := FindLeaf(children[childIdx], nodes[children[childIdx]], key);
    }

    // ---- Splits ----

    /** `insert_into_internal`: adds a separator and the page to its right to an internal page, splitting it
        if it gets too large. It succeeds exactly if no split on the way up fails. */
    method InsertIntoInternal(p: PageId, key: bytes, right: PageId, ghost i: nat) returns (r: Result<(), Error>)
      requires Pending(nodes, shape, root, p, i, key, right) && storedRoot == root
      requires PagesFit(nodes) && Accounted(nodes.Keys, overflow.Keys, alloc) && |key| <= MAX_KEY_SIZE
      modifies `nodes, `root, `storedRoot, `alloc, `shape
      ensures Decides(r, old(AddFits(nodes, p, key, Levels(shape, root, p))), alloc)
      ensures alloc.numPages <= old(alloc.numPages + Levels(shape, root, p)) + 2
      ensures r.Ok? ==>
                && Sound(nodes, shape, root, overflow.Keys, alloc) && storedRoot == root
                && shape[root].height <= old(shape[root].height) + 1
                && SameRecords(old(nodes), nodes)
                && (old(AllSmall(nodes)) && 8 + |key| <= SMALL_RECORD ==> AllSmall(nodes))
      decreases Levels(shape, root, p), 2
    {
      var n := nodes[p];
      PendingPosition(nodes, shape, root, p, i, key, right);
      var found, pos := BinarySearch(n.keys, key);
      var updated := Internal(n.parent, InsertAt(n.keys, pos, key), InsertAt(n.children, pos + 1, right));
      AddToPending(nodes, shape, root, p, i, key, right, updated);
      var size := EncodedSize(updated);
      if size > PAGE_SIZE {
        r := SplitInternalAndInsert(p, updated);
        if r.Ok? {
          SameRecordsTransitive(old(nodes), old(nodes)[p := updated], nodes);
        }
      } else {
        var ok := WriteNode(p, updated);
        assert nodes.Keys == old(nodes.Keys);
        r := Ok(());
      }
    }

    /** `split_internal_and_insert`: `n`, too large for its page `id`, becomes two pages, and the middle
        separator goes to the page above, or to a new root. */
    method SplitInternalAndInsert(id: PageId, n: Node) returns (r: Result<(), Error>)
      requires id in nodes && n.Internal? && TreeOk(nodes[id := n], shape, root) && storedRoot == root
      requires PagesFit(nodes) && Accounted(nodes.Keys, overflow.Keys, alloc) && WithinLimits(n) && !Fits(n)
      modifies `nodes, `root, `storedRoot, `alloc, `shape
      ensures Decides(r, old(SplitFits(nodes, n, Levels(shape, root, id))), alloc)
      ensures alloc.numPages <= old(alloc.numPages + Levels(shape, root, id)) + 2
      ensures r.Ok? ==>
                && Sound(nodes, shape, root, overflow.Keys, alloc) && storedRoot == root
                && shape[root].height <= old(shape[root].height) + 1
                && SameRecords(old(nodes)[id := n], nodes)
                && (old(AllSmall(nodes)) && Small(n) ==> AllSmall(nodes))
      decreases Levels(shape, root, id), 1
    {
      SplitOversized(nodes, n, NO_PAGE, Levels(shape, root, id));
      var left, pushUpKey, rightNode := CutInternal(n);
      var newId := AllocatePage();
      if newId.None? {
        return Err(NoSpace);
      }
      SplitOversized(nodes, n, newId.value, Levels(shape, root, id));
      r := SplitInternalInto(id, n, left, pushUpKey, newId.value, rightNode);
    }

    /** `split_internal_and_insert` once the new page is there. */
    method SplitInternalInto(id: PageId, n: Node, left: Node, pushUpKey: bytes, right: PageId, rightNode: Node)
      returns (r: Result<(), Error>)
      requires id in nodes && n.Internal? && TreeOk(nodes[id := n], shape, root) && storedRoot == root
      requires PagesFit(nodes) && WithinLimits(n) && Splittable(n) && WithinLimits(left) && WithinLimits(rightNode)
      requires left == LeftHalf(n, right) && pushUpKey == SplitKey(n) && rightNode == RightHalf(n)
      requires right !in nodes && Accounted(nodes.Keys + {right}, overflow.Keys, alloc)
      modifies `nodes, `root, `storedRoot, `alloc, `shape
      ensures Decides(r, Fits(left) && Fits(rightNode) && old(PropagateFits(nodes, n, Levels(shape, root, id))), alloc)
      ensures alloc.numPages <= old(alloc.numPages + Levels(shape, root, id)) + 1
      ensures r.Ok? ==>
                && Sound(nodes, shape, root, overflow.Keys, alloc) && storedRoot == root
                && shape[root].height <= old(shape[root].height) + 1
                && SameRecords(old(nodes)[id := n], nodes)
                && (old(AllSmall(nodes)) && Small(n) ==> AllSmall(nodes))
      decreases Levels(shape, root, id), 0, 2
    {
      MovedReady(nodes, shape, root, id, n, right);
      var ok := WriteInternalHalves(id, n, left, right, rightNode);
      if !ok {
        return Err(NodeTooLarge);
      }
      r := FinishSplit(id, n, left, right, pushUpKey, old(nodes));
    }

    /** Writes both halves of an internal page and gives the children of the right one their new parent. */
    method WriteInternalHalves(id: PageId, ghost n: Node, left: Node, right: PageId, rightNode: Node) returns (ok: bool)
      requires n.Internal? && Splittable(n) && left == LeftHalf(n, right) && rightNode == RightHalf(n)
      requires id in nodes && right !in nodes
      requires forall c :: c in rightNode.children ==> c in nodes && c != id && c != right && Fits(nodes[c])
      modifies `nodes
      ensures ok == (Fits(left) && Fits(rightNode))
      ensures ok ==> HalvesWritten(old(nodes), nodes, id, n, right)
    {
      ok := WriteNode(id, left);
      if !ok {
        return;
      }
      ok := WriteNode(right, rightNode);
      if !ok {
        return;
      }
      Reparent(rightNode.children, right);
    }

    /** The pages in `children` get the parent `p`. */
    method Reparent(children: seq<PageId>, p: PageId)
      requires forall c :: c in children ==> c in nodes && Fits(nodes[c])
      modifies `nodes
      ensures nodes.Keys == old(nodes.Keys)
      ensures forall x {:trigger nodes[x]} :: x in nodes ==>
                nodes[x] == if x in children then WithParent(old(nodes)[x], p) else old(nodes)[x]
    {
      for j := 0 to |children|
        invariant nodes.Keys == old(nodes.Keys)
        invariant forall x {:trigger nodes[x]} :: x in nodes ==>
                    nodes[x] == if x in children[..j] then WithParent(old(nodes)[x], p) else old(nodes)[x]
      {
        var child := nodes[children[j]];
        assert children[j] in children;
        var ok := WriteNode(children[j], WithParent(child, p));
        assert children[..j + 1] == children[..j] + [children[j]];
      }
      assert children[..|children|] == children;
    }

    /** Both kinds of split once the halves of `n` are written. `before` is the tree before that. */
    method FinishSplit(id: PageId, ghost n: Node, left: Node, right: PageId, splitKey: bytes, ghost before: NodeMap)
      returns (r: Result<(), Error>)
      requires id in before && TreeOk(before[id := n], shape, root) && storedRoot == root
      requires PagesFit(before) && WithinLimits(n) && Splittable(n) && splitKey == SplitKey(n)
      requires left == LeftHalf(n, right) && PageFits(left) && PageFits(RightHalf(n))
      requires HalvesWritten(before, nodes, id, n, right)
      requires Accounted(nodes.Keys, overflow.Keys, alloc)
      modifies `nodes, `root, `storedRoot, `alloc, `shape
      ensures Decides(r, old(PropagateFits(before, n, Levels(shape, root, id))), alloc)
      ensures alloc.numPages <= old(alloc.numPages + Levels(shape, root, id)) + 1
      ensures r.Ok? ==>
                && Sound(nodes, shape, root, overflow.Keys, alloc) && storedRoot == root
                && shape[root].height <= old(shape[root].height) + 1
                && SameRecords(before[id := n], nodes)
                && (AllSmall(before) && Small(n) ==> AllSmall(nodes))
      decreases Levels(shape, root, id), 0, 1
    {
      ghost var written := nodes;
      SplitWritten(before, written, id, n, right);
      HalvesWithinLimits(n, right);
      r := PropagateSplit(id, n, left, right, splitKey, before);
      if r.Ok? {
        SameRecordsTransitive(before[id := n], written, nodes);
      }
    }

    /** The last step of both kinds of split: the halves of `n` are on pages `id` and `right`, and the page above
        has to learn about `right`; without a page above, a new root goes on top. `before` is the tree before
        the halves were written. */
    method PropagateSplit(id: PageId, ghost n: Node, left: Node, right: PageId, splitKey: bytes, ghost before: NodeMap)
      returns (r: Result<(), Error>)
      requires id in before && TreeOk(before[id := n], shape, root) && storedRoot == root
      requires Splittable(n) && WithinLimits(n) && splitKey == SplitKey(n) && |splitKey| <= MAX_KEY_SIZE
      requires HalvesWritten(before, nodes, id, n, right) && left == LeftHalf(n, right)
      requires PagesFit(nodes) && Accounted(nodes.Keys, overflow.Keys, alloc)
      requires Small(n) ==> 8 + |splitKey| <= SMALL_RECORD
      modifies `nodes, `root, `storedRoot, `alloc, `shape
      ensures Decides(r, old(PropagateFits(before, n, Levels(shape, root, id))), alloc)
      ensures alloc.numPages <= old(alloc.numPages + Levels(shape, root, id)) + 1
      ensures r.Ok? ==>
                && Sound(nodes, shape, root, overflow.Keys, alloc) && storedRoot == root
                && shape[root].height <= old(shape[root].height) + 1
                && SameRecords(old(nodes), nodes)
                && (old(AllSmall(nodes)) && Small(n) ==> AllSmall(nodes))
      decreases Levels(shape, root, id), 0, 0
    {
      if left.parent.Some? {
        ghost var p, i := SplitLeavesPending(before, nodes, shape, root, id, n, right);
        shape := SplitShape(shape, id, right, splitKey);
        r := InsertIntoInternal(left.parent.value, splitKey, right, i);
      } else {
        RootHasNoParent(before[id := n], shape, root, id);
        r := GrowRoot(n, left, right, splitKey, before);
      }
    }

    /** The halves of the root are on pages `root` and `right`: a new root goes on top. */
    method GrowRoot(ghost n: Node, left: Node, right: PageId, splitKey: bytes, ghost before: NodeMap)
      returns (r: Result<(), Error>)
      requires root in before && TreeOk(before[root := n], shape, root)
      requires Splittable(n) && WithinLimits(n) && splitKey == SplitKey(n)
      requires HalvesWritten(before, nodes, root, n, right) && left == LeftHalf(n, right)
      requires PagesFit(nodes) && Accounted(nodes.Keys, overflow.Keys, alloc)
      modifies `nodes, `root, `storedRoot, `alloc, `shape
      ensures Decides(r, true, alloc)
      ensures alloc.numPages <= old(alloc.numPages) + 1
      ensures r.Ok? ==>
                && Sound(nodes, shape, root, overflow.Keys, alloc) && storedRoot == root
                && shape[root].height == old(shape[root].height) + 1
                && SameRecords(old(nodes), nodes)
                && (old(AllSmall(nodes)) && Small(n) ==> AllSmall(nodes))
    {
      var newRoot := AllocatePage();
      if newRoot.None? {
        return Err(NoSpace);
      }
      ghost var after, shape' := GrownRoot(nodes, shape, root, n, right, newRoot.value, before);
      WriteNewRoot(newRoot.value, left, right, splitKey, shape');
      r := Ok(());
    }

    /** Writes the new root `top` over the halves of the old one, and makes it the root. */
    method WriteNewRoot(top: PageId, left: Node, right: PageId, splitKey: bytes, ghost shape': Shape)
      requires right in nodes && top != right && root != right
      requires Fits(Internal(None, [splitKey], [root, right]))
      requires Fits(WithParent(left, top)) && Fits(WithParent(nodes[right], top))
      modifies `nodes, `root, `storedRoot, `shape
      ensures nodes == old(nodes[top := Internal(None, [splitKey], [root, right])]
                                [root := WithParent(left, top)][right := WithParent(nodes[right], top)])
      ensures root == storedRoot == top && shape == shape'
    {
      var ok := WriteNode(top, Internal(None, [splitKey], [root, right]));
      ok := WriteNode(root, WithParent(left, top));
      var rightNode := nodes[right];
      ok := WriteNode(right, WithParent(rightNode, top));
      root, storedRoot, shape := top, top, shape';
    }

    /** `split_leaf_and_insert`: `leaf`, too large for its page, becomes two pages. The left one links to the new
        page, which takes over the sibling link. */
    method SplitLeafAndInsert(id: PageId, leaf: Node) returns (r: Result<(), Error>)
      requires id in nodes && leaf.Leaf? && TreeOk(nodes[id := leaf], shape, root) && storedRoot == root
      requires PagesFit(nodes) && Accounted(nodes.Keys, overflow.Keys, alloc) && WithinLimits(leaf) && !Fits(leaf)
      modifies `nodes, `root, `storedRoot, `alloc, `shape
      ensures Decides(r, old(SplitFits(nodes, leaf, Levels(shape, root, id))), alloc)
      ensures alloc.numPages <= old(alloc.numPages + Levels(shape, root, id)) + 2
      ensures r.Ok? ==>
                && Sound(nodes, shape, root, overflow.Keys, alloc) && storedRoot == root
                && shape[root].height <= old(shape[root].height) + 1
                && SameRecords(old(nodes)[id := leaf], nodes)
                && (old(AllSmall(nodes)) && Small(leaf) ==> AllSmall(nodes))
    {
      SplitOversized(nodes, leaf, NO_PAGE, Levels(shape, root, id));
      var mid := |leaf.records| / 2;
      var rightRecords := leaf.records[mid..];
      var splitKey := rightRecords[0].key;
      var newId := AllocatePage();
      if newId.None? {
        return Err(NoSpace);
      }
      var right := newId.value;
      SplitOversized(nodes, leaf, right, Levels(shape, root, id));
      var rightLeaf := Leaf(leaf.parent, leaf.next, rightRecords);
      var leftLeaf := leaf.(next := Some(right), records := leaf.records[..mid]);
      var ok := WriteLeafHalves(id, leaf, leftLeaf, right, rightLeaf);
      if !ok {
        return Err(NodeTooLarge);
      }
      r := FinishSplit(id, leaf, leftLeaf, right, splitKey, old(nodes));
    }

    /** Writes both halves of a leaf. */
    method WriteLeafHalves(id: PageId, ghost leaf: Node, left: Node, right: PageId, rightLeaf: Node) returns (ok: bool)
      requires leaf.Leaf? && Splittable(leaf) && left == LeftHalf(leaf, right) && rightLeaf == RightHalf(leaf)
      requires id in nodes && right !in nodes
      modifies `nodes
      ensures ok == (Fits(left) && Fits(rightLeaf))
      ensures ok ==> HalvesWritten(old(nodes), nodes, id, leaf, right) && nodes.Keys == old(nodes).Keys + {right}
    {
      ok := WriteNode(id, left);
      if !ok {
        return;
      }
      ok := WriteNode(right, rightLeaf);
    }

    /** The end of `insert`: writes the updated leaf, splitting it if it is too large. */
    method WriteLeaf(id: PageId, leaf: Node) returns (r: Result<(), Error>)
      requires id in nodes && leaf.Leaf? && TreeOk(nodes[id := leaf], shape, root) && storedRoot == root
      requires PagesFit(nodes) && Accounted(nodes.Keys, overflow.Keys, alloc) && WithinLimits(leaf)
      modifies `nodes, `root, `storedRoot, `alloc, `shape
      ensures Decides(r, Fits(leaf) || old(SplitFits(nodes, leaf, Levels(shape, root, id))), alloc)
      ensures Fits(leaf) ==> nodes == old(nodes)[id := leaf] && unchanged(`root) && unchanged(`shape) && unchanged(`alloc)
      ensures alloc.numPages <= old(alloc.numPages + Levels(shape, root, id)) + 2
      ensures r.Ok? ==>
                && Sound(nodes, shape, root, overflow.Keys, alloc) && storedRoot == root
                && shape[root].height <= old(shape[root].height) + 1
                && SameRecords(old(nodes)[id := leaf], nodes)
                && (old(AllSmall(nodes)) && Small(leaf) ==> AllSmall(nodes))
    {
      var size := EncodedSize(leaf);
      if size > PAGE_SIZE {
        r := SplitLeafAndInsert(id, leaf);
      } else {
        PageWritten(nodes, id, leaf);
        SameRecordsPointwise(nodes[id := leaf], nodes[id := leaf]);
        var ok := WriteNode(id, leaf);
        assert nodes.Keys == old(nodes.Keys);
        r := Ok(());
      }
    }

    // ---- Overflow chains ----

    /** `write_overflow_value`: writes the chunks of a value to new pages, last one first, each linking to the one
        written before it. */
    method WriteOverflowValue(value: bytes) returns (handle: Option<bytes>, ghost chain: seq<PageId>)
      requires |value| > 0 && Accounted(nodes.Keys, overflow.Keys, alloc)
      modifies `overflow, `alloc
      ensures handle.None? ==> alloc.numPages == U32_MAX
      ensures alloc.numPages <= old(alloc.numPages) + ChunkCount(value)
      ensures handle.Some? ==>
                && ChainHolds(overflow, handle.value, chain, Kept(value))
                && CHUNK * (|chain| - 1) < |value| <= CHUNK * |chain|
                && PagesOf(chain) !! old(overflow.Keys)
                && overflow.Keys == old(overflow.Keys) + PagesOf(chain)
                && (forall p :: p in old(overflow) ==> overflow[p] == old(overflow)[p])
                && Accounted(nodes.Keys, overflow.Keys, alloc)
    {
      chain := [];
      var i: nat, prev, first := ChunkCount(value), NO_PAGE, 0;
      ChunkCountCovers(value);
      while i > 0
        invariant i + |chain| == ChunkCount(value)
        invariant prev == Link(chain, 0) && (i == 0 ==> first == Link(chain, 0))
        invariant ChainAdded(old(overflow), overflow, chain, value, i)
        invariant Accounted(nodes.Keys, overflow.Keys, alloc) && alloc.numPages <= old(alloc.numPages) + |chain|
      {
        i := i - 1;
        var page := WriteChunk(value, i, prev, chain, old(overflow));
        if page.None? {
          return None, chain;
        }
        if i == 0 {
          first := page.value;
        }
        chain, prev := [page.value] + chain, page.value;
      }
      assert PageHolds(overflow, chain, value, 0, 0);
      ChainKept(overflow, chain, value);
      HandleFields(|value|, first);
      handle := Some(Handle(|value|, first));
    }

    /** One round of `write_overflow_value`. */
    method WriteChunk(value: bytes, i: nat, prev: PageId, ghost chain: seq<PageId>, ghost before: OverflowMap)
      returns (page: Option<PageId>)
      requires i < ChunkCount(value) && prev == Link(chain, 0) && ChainAdded(before, overflow, chain, value, i + 1)
      requires Accounted(nodes.Keys, overflow.Keys, alloc)
      modifies `overflow, `alloc
      ensures page.None? ==> alloc.numPages == U32_MAX
      ensures alloc.numPages <= old(alloc.numPages) + 1
      ensures page.Some? ==>
                Accounted(nodes.Keys, overflow.Keys, alloc) && ChainAdded(before, overflow, [page.value] + chain, value, i)
    {
      page := AllocatePage();
      if page.Some? {
        var chunk := Chunk(value, i);
        var data := chunk + seq(CHUNK - |chunk|, _ => 0);
        ChainExtended(before, overflow, chain, value, i, page.value, OverflowPage(prev, data));
        overflow := overflow[page.value := OverflowPage(prev, data)];
        assert overflow.Keys == old(overflow).Keys + {page.value};
      }
    }

    /** `read_value_resolve_overflow`: follows the links from the page a handle names, up to the length it gives; other
        stored bytes are the value itself. */
    method ReadValue(val: bytes, ghost chain: seq<PageId>, ghost v: bytes) returns (result: bytes)
      requires ReadsAs(overflow, val, chain, v)
      ensures result == v
    {
      if |val| == 12 && val[0..4] == MAGIC {
        var totalLen := HandleLength(val);
        var curr := HandlePage(val);
        result := [];
        ghost var j: nat := 0;
        assert chain != [] ==> PageLinks(overflow, chain, 0);
        while curr != NO_PAGE
          invariant j <= |chain| && curr == Link(chain, j) && (j < |chain| ==> curr != NO_PAGE)
          invariant result == GatheredBy(overflow, chain, totalLen, j)
          decreases |chain| - j
        {
          assert j < |chain| && PageLinks(overflow, chain, j);
          var page := overflow[curr];
          var takeLen := Min(totalLen - |result|, CHUNK);
          GatherNext(overflow, chain, totalLen, j);
          result := result + page.data[..takeLen];
          curr := page.next;
          j := j + 1;
          assert j < |chain| ==> PageLinks(overflow, chain, j);
        }
      } else {
        result := val;
      }
    }

    /** `free_overflow_chain`: gives back exactly the pages a handle leads to. */
    method FreeOverflowChain(val: bytes, ghost chain: seq<PageId>)
      requires if IsHandle(val) then Linked(overflow, chain) && Distinct(chain) && HandlePage(val) == Link(chain, 0)
               else chain == []
      requires Accounted(nodes.Keys, overflow.Keys, alloc)
      modifies `overflow, `alloc
      ensures overflow == old(overflow) - PagesOf(chain)
      ensures Accounted(nodes.Keys, overflow.Keys, alloc) && alloc.numPages == old(alloc.numPages)
    {
      if |val| == 12 && val[0..4] == MAGIC {
        var curr := HandlePage(val);
        ghost var j: nat := 0;
        assert chain != [] ==> PageLinks(overflow, chain, 0);
        while curr != NO_PAGE
          invariant j <= |chain| && curr == Link(chain, j) && (j < |chain| ==> curr != NO_PAGE)
          invariant overflow == old(overflow) - PagesOf(chain[..j])
          invariant Accounted(nodes.Keys, overflow.Keys, alloc) && alloc.numPages == old(alloc.numPages)
          decreases |chain| - j
        {
          NextFreed(old(overflow), chain, j);
          var next := overflow[curr].next;
          GiveBack(alloc, curr);
          overflow, alloc := overflow - {curr}, alloc.Give(curr);
          curr := next;
          j := j + 1;
        }
        assert chain[..j] == chain;
      } else {
        assert PagesOf(chain) == {};
      }
    }

    // ---- Operations ----

    /** `BTree::new` on an empty file: an empty leaf on page 1 is the root. */
    constructor ()
      ensures Valid() && view == map[] && AllSmall(nodes)
      ensures nodes == map[1 := Leaf(None, None, [])] && overflow == map[] && root == storedRoot == 1
      ensures alloc == Allocator([], 2) && shape[root].height == 0
    {
      var empty := Leaf(None, None, []);
      alloc := Allocator([], 2);
      nodes, overflow := map[1 := empty], map[];
      root, storedRoot := 1, 1;
      shape := map[1 := Span(0, None, None)];
      raw, view, chains, owner := map[], map[], map[], map[];
      new;
      assert NodeOk(nodes, shape, 1);
      assert PageFits(empty) by { assert RecordCosts([]) == []; }
      assert alloc.Live() == {1};
    }

    /** Finds the leaf of a key and the key's place in it. */
    method Locate(key: bytes) returns (leafId: PageId, leaf: Node, found: bool, pos: nat)
      requires TreeOk(nodes, shape, root) && Holds(nodes, raw)
      ensures leafId in nodes && leaf == nodes[leafId] && leaf.Leaf? && InSpan(key, shape[leafId])
      ensures found == (key in raw) && pos == Position(KeysOf(leaf.records), key)
      ensures found == (pos < |leaf.records| && leaf.records[pos].key == key)
      ensures found == (key in KeysOf(leaf.records))
      ensures found ==> leaf.records[pos].val == raw[key]
    {
      leafId, leaf := FindLeaf(root, nodes[root], key);
      assert NodeOk(nodes, shape, leafId);
      KeyInLeaf(nodes, shape, root, raw, leafId, key);
      found, pos := BinarySearch(KeysOf(leaf.records), key);
    }

    /** `search`: the value of a key, as the map has it. Also in a tree whose values are not all in order it is what the
        stored bytes are read as, if the pages they lead to, if any, are linked. */
    method Search(key: bytes) returns (r: Option<bytes>)
      requires Valid() || (TreeValid() && key in raw && exists chain, v :: ReadsAs(overflow, raw[key], chain, v))
      ensures Valid() ==> r == if key in view then Some(view[key]) else None
      ensures key in raw ==> forall chain, v :: ReadsAs(overflow, raw[key], chain, v) ==> r == Some(v)
    {
      var leafId, leaf, found, pos := Locate(key);
      if found {
        ghost var chain, v;
        if Valid() {
          ValueReads(raw, view, chains, owner, overflow, key);
          chain, v := ChainOf(chains, key), view[key];
        } else {
          chain, v :| ReadsAs(overflow, raw[key], chain, v);
        }
        var value := ReadValue(leaf.records[pos].val, chain, v);
        forall chain', v' | ReadsAs(overflow, raw[key], chain', v') ensures v' == v {
          ReadsOneWay(overflow, raw[key], chain, v, chain', v');
        }
        r := Some(value);
      } else {
        r := None;
      }
    }

    /** Puts a record into its leaf, splitting pages as needed. */
    method PutInTree(id: PageId, leaf: Node, found: bool, pos: nat, record: Record) returns (r: Result<(), Error>)
      requires Sound(nodes, shape, root, overflow.Keys, alloc) && storedRoot == root && Holds(nodes, raw)
      requires id in nodes && leaf == nodes[id] && leaf.Leaf? && InSpan(record.key, shape[id])
      requires pos == Position(KeysOf(leaf.records), record.key) && RecordWithinLimits(record)
      requires found == (pos < |leaf.records| && leaf.records[pos].key == record.key)
      modifies `nodes, `root, `storedRoot, `alloc, `shape, `raw
      ensures Decides(r, old(PutFits(nodes, id, record, Levels(shape, root, id))), alloc)
      ensures Fits(WithRecord(leaf, record)) ==>
                nodes == old(nodes)[id := WithRecord(leaf, record)] && unchanged(`root) && unchanged(`shape)
      ensures alloc.numPages <= old(alloc.numPages + Levels(shape, root, id)) + 2
      ensures r.Ok? ==>
                && TreeValid()
                && shape[root].height <= old(shape[root].height) + 1
                && raw == old(raw)[record.key := record.val]
                && (old(AllSmall(nodes)) && RecordCost(record) <= SMALL_RECORD ==> AllSmall(nodes))
    {
      PutReady(nodes, shape, root, raw, id, record);
      var records := if found then leaf.records[pos := record] else InsertAt(leaf.records, pos, record);
      var updated := leaf.(records := records);
      assert updated == WithRecord(leaf, record);
      ghost var raw' := raw[record.key := record.val];
      r := WriteLeaf(id, updated);
      if r.Ok? {
        SameRecordsHold(old(nodes)[id := updated], nodes, raw');
        raw := raw';
      }
    }

    /** Frees the overflow pages of the value of a key, if it has any. `before` are the overflow pages as of the
        last update; pages written since are left alone. */
    method FreeValue(key: bytes, val: bytes, ghost before: OverflowMap)
      requires ValuesOk(raw, view, chains, owner, before) && key in raw && raw[key] == val
      requires before.Keys <= overflow.Keys && forall p :: p in before ==> overflow[p] == before[p]
      requires Accounted(nodes.Keys, overflow.Keys, alloc)
      modifies `overflow, `alloc
      ensures overflow == old(overflow) - PagesFor(chains, key)
      ensures Accounted(nodes.Keys, overflow.Keys, alloc) && alloc.numPages == old(alloc.numPages)
    {
      OldChain(raw, view, chains, owner, before, overflow, key);
      if IsHandle(val) {
        ChainReads(overflow, val, chains[key], view[key]);
      }
      FreeOverflowChain(val, if key in chains then chains[key] else []);
      assert key !in chains ==> PagesOf([]) == {};
    }

    /** `insert` after the value has been stored: puts the stored bytes into the leaf of the key, and frees the
        pages of the value it replaces. `before` are the overflow pages without those of the new value. */
    method InsertStored(key: bytes, stored: bytes, ghost before: OverflowMap)
      returns (r: Result<(), Error>, ghost leafId: PageId)
      requires TreeValid() && ValuesOk(raw, view, chains, owner, before) && RecordWithinLimits(Record(key, stored))
      requires before.Keys <= overflow.Keys && forall p :: p in before ==> overflow[p] == before[p]
      modifies `nodes, `root, `storedRoot, `alloc, `shape, `overflow, `raw
      ensures leafId in old(nodes) && old(nodes)[leafId].Leaf? && InSpan(key, old(shape)[leafId])
      ensures Decides(r, old(PutFits(nodes, leafId, Record(key, stored), Levels(shape, root, leafId))), alloc)
      ensures old(Fits(WithRecord(nodes[leafId], Record(key, stored)))) ==>
                && nodes == old(nodes[leafId := WithRecord(nodes[leafId], Record(key, stored))])
                && unchanged(`root) && unchanged(`shape)
      ensures alloc.numPages <= old(alloc.numPages + shape[root].height) + 2
      ensures r.Ok? ==>
                && TreeValid()
                && shape[root].height <= old(shape[root].height) + 1
                && raw == old(raw)[key := stored]
                && (old(AllSmall(nodes)) && RecordCost(Record(key, stored)) <= SMALL_RECORD ==> AllSmall(nodes))
      ensures overflow == old(overflow) - PagesFor(chains, key)
    {
      var id, leaf, found, pos := Locate(key);
      leafId := id;
      if found {
        FreeValue(key, leaf.records[pos].val, before);
      } else {
        assert overflow == overflow - {};
      }
      r := PutInTree(id, leaf, found, pos, Record(key, stored));
    }

    /** The stored form of a value: the value itself, or the handle of a new overflow chain. */
    method StoreValue(value: bytes) returns (stored: Option<bytes>, ghost chain: seq<PageId>)
      requires Accounted(nodes.Keys, overflow.Keys, alloc)
      modifies `overflow, `alloc
      ensures stored.None? ==> alloc.numPages == U32_MAX
      ensures alloc.numPages <= old(alloc.numPages) + OverflowPages(value)
      ensures stored.Some? ==>
                && (if |value| <= MAX_INLINE_VAL_SIZE then
                      stored.value == value == Kept(value) && chain == [] && overflow == old(overflow)
                    else ChainHolds(overflow, stored.value, chain, Kept(value)))
                && PagesOf(chain) !! old(overflow.Keys)
                && overflow.Keys == old(overflow.Keys) + PagesOf(chain)
                && (forall p :: p in old(overflow) ==> overflow[p] == old(overflow)[p])
                && Accounted(nodes.Keys, overflow.Keys, alloc)
    {
      if |value| > MAX_INLINE_VAL_SIZE {
        stored, chain := WriteOverflowValue(value);
      } else {
        KeptShort(value);
        stored, chain := Some(value), [];
        assert PagesOf(chain) == {};
      }
    }

    /** `insert`. A value longer than `MAX_INLINE_VAL_SIZE` goes to overflow pages. The insert succeeds exactly if
        every page it has to split, from the leaf `leafId` of the key upwards, has halves that fit a page. It takes
        at most two pages more than the tree is high, and those of the value. Short values that look like a handle
        are stored, but the map then does not have them. */
    method Insert(key: bytes, value: bytes) returns (r: Result<(), Error>, ghost stored: bytes, ghost leafId: PageId)
      requires Valid()
      modifies this
      ensures |key| > MAX_KEY_SIZE ==> r == Err(KeyTooLarge) && unchanged(this)
      ensures r == Err(NoSpace) ==> alloc.numPages == U32_MAX
      ensures alloc.numPages <= old(alloc.numPages + shape[root].height) + 2 + OverflowPages(value)
      ensures r.Ok? ==> root in shape && shape[root].height <= old(shape[root].height) + 1
      ensures |key| <= MAX_KEY_SIZE && r != Err(NoSpace) ==>
                && (if |value| <= MAX_INLINE_VAL_SIZE then stored == value else IsHandle(stored))
                && leafId in old(nodes) && old(nodes)[leafId].Leaf? && InSpan(key, old(shape)[leafId])
                && Decides(r, old(PutFits(nodes, leafId, Record(key, stored), Levels(shape, root, leafId))), alloc)
                && (old(Fits(WithRecord(nodes[leafId], Record(key, stored)))) ==>
                      && nodes == old(nodes[leafId := WithRecord(nodes[leafId], Record(key, stored))])
                      && unchanged(`root) && unchanged(`shape))
      ensures r.Ok? ==> TreeValid() && raw == old(raw)[key := stored]
      ensures r.Ok? && !IsHandle(value) ==> Valid() && view == old(view)[key := Kept(value)]
      ensures r.Ok? && old(AllSmall(nodes)) && RecordCost(Record(key, stored)) <= SMALL_RECORD ==> AllSmall(nodes)
    {
      if |key| > MAX_KEY_SIZE {
        return Err(KeyTooLarge), [], 0;
      }
      ghost var chain, written;
      r, stored, leafId, chain, written := InsertPages(key, value);
      if r.Ok? && !IsHandle(value) {
        RecordValue(key, stored, Kept(value), chain, old(raw), old(overflow), written);
      }
    }

    /** `insert` on the pages of the value and of the tree. */
    method InsertPages(key: bytes, value: bytes)
      returns (r: Result<(), Error>, ghost stored: bytes, ghost leafId: PageId, ghost chain: seq<PageId>,
               ghost written: OverflowMap)
      requires TreeValid() && ValuesOk(raw, view, chains, owner, overflow) && |key| <= MAX_KEY_SIZE
      modifies `nodes, `root, `storedRoot, `alloc, `shape, `overflow, `raw
      ensures r == Err(NoSpace) ==> alloc.numPages == U32_MAX
      ensures alloc.numPages <= old(alloc.numPages + shape[root].height) + 2 + OverflowPages(value)
      ensures r != Err(NoSpace) ==>
                && (if |value| <= MAX_INLINE_VAL_SIZE then stored == value else IsHandle(stored))
                && leafId in old(nodes) && old(nodes)[leafId].Leaf? && InSpan(key, old(shape)[leafId])
                && Decides(r, old(PutFits(nodes, leafId, Record(key, stored), Levels(shape, root, leafId))), alloc)
                && (old(Fits(WithRecord(nodes[leafId], Record(key, stored)))) ==>
                      && nodes == old(nodes[leafId := WithRecord(nodes[leafId], Record(key, stored))])
                      && unchanged(`root) && unchanged(`shape))
      ensures r.Ok? ==>
                && TreeValid() && raw == old(raw)[key := stored] && shape[root].height <= old(shape[root].height) + 1
                && (old(AllSmall(nodes)) && RecordCost(Record(key, stored)) <= SMALL_RECORD ==> AllSmall(nodes))
                && overflow == written - PagesFor(chains, key)
                && (|value| <= MAX_INLINE_VAL_SIZE ==> written == old(overflow))
                && (!IsHandle(value) ==> NewlyStored(old(overflow), written, stored, chain, Kept(value)))
    {
      var storedVal;
      storedVal, chain := StoreValue(value);
      written := overflow;
      if storedVal.None? {
        return Err(NoSpace), [], 0, chain, written;
      }
      stored := storedVal.value;
      r, leafId := InsertStored(key, storedVal.value, old(overflow));
    }

    /** Bookkeeping: the map has the new value. */
    ghost method RecordValue(key: bytes, stored: bytes, value: bytes, chain: seq<PageId>,
                             raw': map<bytes, bytes>, before: OverflowMap, written: OverflowMap)
      requires ValuesOk(raw', view, chains, owner, before)
      requires raw == raw'[key := stored] && overflow == written - PagesFor(chains, key)
      requires NewlyStored(before, written, stored, chain, value)
      modifies `view, `chains, `owner
      ensures ValuesOk(raw, view, chains, owner, overflow) && view == old(view)[key := value]
    {
      chains, owner := ValuesReplaced(raw', view, chains, owner, before, written, key, stored, value, chain);
      view := view[key := value];
    }

    // ---- Prefix scan ----

    /** One leaf of a scan: appends its records that extend the prefix, and stops at a record past them. */
    method ScanLeaf(prefix: bytes, id: PageId, acc: seq<Record>) returns (results: seq<Record>, stop: bool)
      requires Valid() && id in nodes && nodes[id].Leaf?
      requires Collected(acc, view, prefix, KeysLeftOf(view.Keys, shape[id].lo))
      ensures stop ==> Collected(results, view, prefix, view.Keys)
      ensures !stop ==> Collected(results, view, prefix, KeysBelow(view.Keys, shape[id].hi))
    {
      var records := nodes[id].records;
      ghost var keys, lo := view.Keys, shape[id].lo;
      assert Passed(keys, lo, records, 0) == KeysLeftOf(keys, lo);
      results, stop := acc, false;
      for i := 0 to |records|
        invariant Collected(results, view, prefix, Passed(keys, lo, records, i))
      {
        var rec := records[i];
        PassedStep(nodes, shape, root, raw, id, i);
        ValueReads(raw, view, chains, owner, overflow, rec.key);
        ghost var value := view[rec.key];
        CollectedStep(results, view, prefix, Passed(keys, lo, records, i), Record(rec.key, value));
        if prefix == [] || prefix <= rec.key {
          var resolved := ReadValue(rec.val, ChainOf(chains, rec.key), value);
          results := results + [Record(rec.key, resolved)];
        } else if Less(prefix, rec.key) {
          CollectedEnd(results, view, prefix, Passed(keys, lo, records, i), rec.key);
          return results, true;
        }
      }
      PassedAll(nodes, shape, root, raw, id);
    }

    /** `scan_prefix`: in lexicographic order of the keys, exactly the pairs whose key extends the prefix. */
    method ScanPrefix(prefix: bytes) returns (results: seq<Record>)
      requires Valid()
      ensures SortedRecords(results) && Increasing(KeysOf(results))
      ensures forall r :: r in results <==> r.key in view && view[r.key] == r.val && prefix <= r.key
    {
      LessIsStrictTotalOrder();
      var id, leaf := FindLeaf(root, nodes[root], prefix);
      results := [];
      CollectedStart(view, prefix, shape[id]);
      while true
        invariant id in nodes && leaf == nodes[id] && leaf.Leaf?
        invariant Collected(results, view, prefix, KeysLeftOf(view.Keys, shape[id].lo))
        decreases LeavesAfter(nodes, shape, shape[id].lo)
      {
        var stop;
        results, stop := ScanLeaf(prefix, id, results);
        if stop {
          SortedIncreasing(KeysOf(results));
          return;
        }
        NextIsLeaf(nodes, shape, root, id);
        if leaf.next.Some? {
          FewerAhead(nodes, shape, root, id);
          assert KeysLeftOf(view.Keys, shape[id].hi) == KeysBelow(view.Keys, shape[id].hi);
          id := leaf.next.value;
          leaf := nodes[id];
        } else {
          assert KeysBelow(view.Keys, shape[id].hi) == view.Keys;
          SortedIncreasing(KeysOf(results));
          return;
        }
      }
    }

    // ---- Delete ----

    /** `find_leftmost_leaf`. */
    method FindLeftmostLeaf(id: PageId) returns (leafId: PageId)
      requires TreeOk(nodes, shape, root) && id in nodes && shape[id].lo.None?
      ensures IsLeaf(nodes, leafId) && shape[leafId].lo.None?
      decreases shape[id].height
    {
      assert NodeOk(nodes, shape, id);
      match nodes[id]
      case Leaf(_, _, _) =>
        leafId := id;
      case Internal(_, _, children) =>
        ChildAt(nodes, shape, id, 0);
        leafId := FindLeftmostLeaf(children[0]);
    }

    /** The search of `unlink_empty_leaf` along the sibling links for the leaf before `id`: it always succeeds. */
    method FindPrevious(id: PageId, leftmost: PageId) returns (prev: PageId)
      requires TreeOk(nodes, shape, root) && IsLeaf(nodes, id) && id != leftmost
      requires IsLeaf(nodes, leftmost) && shape[leftmost].lo.None?
      ensures IsLeaf(nodes, prev) && prev != id && nodes[prev].next == Some(id)
    {
      LessIsStrictTotalOrder();
      if shape[id].lo.None? {
        SameStart(nodes, shape, root, id, leftmost);
        assert false;
      }
      prev := leftmost;
      while true
        invariant IsLeaf(nodes, prev) && RightOf(shape[prev].lo, shape[id].lo)
        decreases LeavesAfter(nodes, shape, shape[prev].lo)
      {
        NextStarts(nodes, shape, root, prev, id);
        if nodes[prev].next == Some(id) {
          return;
        }
        FewerAhead(nodes, shape, root, prev);
        prev := nodes[prev].next.value;
      }
    }

    /** `unlink_empty_leaf`: the leftmost leaf stays as an empty leaf; any other is taken out of the sibling chain
        and its page is freed, but the page above goes on listing it. */
    method UnlinkEmptyLeaf(id: PageId, leaf: Node) returns (ghost before: PageId)
      requires Sound(nodes, shape, root, overflow.Keys, alloc) && id != root
      requires IsLeaf(nodes, id) && leaf == nodes[id].(records := []) && Fits(leaf)
      modifies `nodes, `alloc
      ensures shape[id].lo.None? ==> nodes == old(nodes)[id := leaf] && alloc == old(alloc)
      ensures shape[id].lo.Some? ==>
                && alloc.Live() == old(alloc).Live() - {id}
                && (exists p :: Dangling(nodes, p, id))
                && Unlinked(old(nodes), nodes, id, before)
    {
      before := id;
      var leftmost := FindLeftmostLeaf(root);
      if leftmost == id {
        var ok := WriteNode(id, leaf);
        return;
      }
      assert shape[id].lo.Some? by {
        if shape[id].lo.None? { SameStart(nodes, shape, root, id, leftmost); }
      }
      assert Attached(nodes, id);
      ghost var p := nodes[id].parent.value;
      var prev := FindPrevious(id, leftmost);
      before := prev;
      var prevLeaf := nodes[prev].(next := leaf.next);
      assert PageFits(nodes[prev]);
      var ok := WriteNode(prev, prevLeaf);
      GiveBack(alloc, id);
      nodes, alloc := nodes - {id}, alloc.Give(id);
      assert Dangling(nodes, p, id);
    }

    /** `delete`. The tree stays in order and the map loses the key exactly if the key is absent, or its leaf holds
        another record or is the leftmost one. Otherwise the leaf is freed while its parent still lists it: the
        pages are no tree any more, and the descent for any key in the interval of that leaf, so every later lookup
        or insert of one, ends at the freed page. */
    method Delete(key: bytes) returns (ghost leafId: PageId)
      requires Valid()
      modifies `nodes, `overflow, `alloc, `raw, `view, `chains, `owner
      ensures leafId in old(nodes) && old(nodes)[leafId].Leaf? && InSpan(key, shape[leafId])
      ensures !old(LastInInnerLeaf(nodes, shape, leafId, key)) ==>
                && Valid() && view == old(view) - {key}
                && nodes == old(nodes)[leafId := WithoutKey(old(nodes)[leafId], key)]
                && alloc.numPages == old(alloc.numPages)
                && (old(AllSmall(nodes)) ==> AllSmall(nodes))
      ensures old(LastInInnerLeaf(nodes, shape, leafId, key)) ==>
                && LeafLost(nodes, root, leafId, shape[leafId], shape[root].height)
                && Freed(old(nodes), nodes, root, leafId, old(raw) - {key}, shape[root].height)
                && alloc.Live() == old(alloc.Live() - {leafId} - PagesFor(chains, key))
    {
      var id, leaf, found, pos := Locate(key);
      leafId := id;
      if !found {
        assert view - {key} == view;
        assert leaf.records != [] ==> KeysOf(leaf.records)[0] != key;
        return;
      }
      RemoveFound(key, id, leaf, pos);
    }

    /** `delete` of a key that is there. */
    method RemoveFound(key: bytes, id: PageId, leaf: Node, pos: nat)
      requires Valid() && IsLeaf(nodes, id) && leaf == nodes[id] && pos < |leaf.records|
      requires leaf.records[pos].key == key && key in raw && leaf.records[pos].val == raw[key]
      modifies `nodes, `overflow, `alloc, `raw, `view, `chains, `owner
      ensures !old(LastInInnerLeaf(nodes, shape, id, key)) ==>
                && Valid() && view == old(view) - {key}
                && nodes == old(nodes)[id := leaf.(records := RemoveAt(leaf.records, pos))]
                && alloc.numPages == old(alloc.numPages)
                && (old(AllSmall(nodes)) ==> AllSmall(nodes))
      ensures old(LastInInnerLeaf(nodes, shape, id, key)) ==>
                && LeafLost(nodes, root, id, shape[id], shape[root].height)
                && Freed(old(nodes), nodes, root, id, old(raw) - {key}, shape[root].height)
                && alloc.Live() == old(alloc.Live() - {id} - PagesFor(chains, key))
    {
      ghost var last := LastInInnerLeaf(nodes, shape, id, key);
      RemovePages(key, id, leaf, pos);
      if !last {
        ForgetValue(key, old(overflow));
      }
    }

    /** `delete` on the pages of the value and of the tree. */
    method RemovePages(key: bytes, id: PageId, leaf: Node, pos: nat)
      requires TreeValid() && ValuesOk(raw, view, chains, owner, overflow)
      requires IsLeaf(nodes, id) && leaf == nodes[id] && pos < |leaf.records|
      requires leaf.records[pos].key == key && key in raw && leaf.records[pos].val == raw[key]
      modifies `nodes, `overflow, `alloc
      ensures overflow == old(overflow) - PagesFor(chains, key)
      ensures !old(LastInInnerLeaf(nodes, shape, id, key)) ==>
                && Sound(nodes, shape, root, overflow.Keys, alloc)
                && Holds(nodes, raw - {key})
                && nodes == old(nodes)[id := leaf.(records := RemoveAt(leaf.records, pos))]
                && alloc.numPages == old(alloc.numPages)
                && (old(AllSmall(nodes)) ==> AllSmall(nodes))
      ensures old(LastInInnerLeaf(nodes, shape, id, key)) ==>
                && LeafLost(nodes, root, id, shape[id], shape[root].height)
                && Freed(old(nodes), nodes, root, id, raw - {key}, shape[root].height)
                && alloc.Live() == old(alloc.Live() - {id} - PagesFor(chains, key))
    {
      FreeValue(key, leaf.records[pos].val, overflow);
      RemoveFromTree(id, leaf, pos);
    }

    /** The tree part of `delete`. */
    method RemoveFromTree(id: PageId, leaf: Node, pos: nat)
      requires Sound(nodes, shape, root, overflow.Keys, alloc) && storedRoot == root && Holds(nodes, raw)
      requires IsLeaf(nodes, id) && leaf == nodes[id] && pos < |leaf.records|
      modifies `nodes, `alloc
      ensures !old(LastInInnerLeaf(nodes, shape, id, leaf.records[pos].key)) ==>
                && Sound(nodes, shape, root, overflow.Keys, alloc)
                && Holds(nodes, raw - {leaf.records[pos].key})
                && nodes == old(nodes)[id := leaf.(records := RemoveAt(leaf.records, pos))]
                && alloc.numPages == old(alloc.numPages)
                && (old(AllSmall(nodes)) ==> AllSmall(nodes))
      ensures old(LastInInnerLeaf(nodes, shape, id, leaf.records[pos].key)) ==>
                && LeafLost(nodes, root, id, shape[id], shape[root].height)
                && Freed(old(nodes), nodes, root, id, raw - {leaf.records[pos].key}, shape[root].height)
                && alloc.Live() == old(alloc.Live()) - {id}
    {
      RemoveFromLeaf(nodes, shape, root, raw, id, pos);
      var updated := leaf.(records := RemoveAt(leaf.records, pos));
      if |updated.records| == 0 && id != root {
        ghost var prev := UnlinkEmptyLeaf(id, updated);
        if shape[id].lo.Some? {
          ghost var p :| Dangling(nodes, p, id);
          LostKeys(old(nodes), nodes, shape, root, id, p);
          UnlinkedKeepsOthers(old(nodes), nodes, shape, root, raw, id, prev, leaf.records[pos].key);
        } else {
          assert nodes.Keys == old(nodes).Keys;
        }
      } else {
        var ok := WriteNode(id, updated);
        assert nodes.Keys == old(nodes).Keys;
      }
    }

    /** Bookkeeping: the map does not have the key any more. */
    ghost method ForgetValue(key: bytes, before: OverflowMap)
      requires ValuesOk(raw, view, chains, owner, before) && overflow == before - PagesFor(chains, key)
      modifies `raw, `view, `chains, `owner
      ensures ValuesOk(raw, view, chains, owner, overflow)
      ensures raw == old(raw) - {key} && view == old(view) - {key}
    {
      ValuesRemove(raw, view, chains, owner, before, overflow, key);
      raw, view, owner, chains := raw - {key}, view - {key}, owner - PagesFor(chains, key), chains - {key};
    }
  }

  /** Whether a leaf's keys contain `key` decides whether the map has it. */
  lemma KeyInLeaf(nodes: NodeMap, shape: Shape, root: PageId, raw: map<bytes, bytes>, id: PageId, key: bytes)
    requires TreeOk(nodes, shape, root) && Holds(nodes, raw)
    requires id in nodes && nodes[id].Leaf? && InSpan(key, shape[id])
    ensures key in raw <==> key in KeysOf(nodes[id].records)
    ensures forall i :: 0 <= i < |nodes[id].records| && nodes[id].records[i].key == key ==>
              raw[key] == nodes[id].records[i].val
  {
    LeafDecides(nodes, shape, root, raw, id, key);
    if key in raw {
      var i :| 0 <= i < |nodes[id].records| && nodes[id].records[i] == Record(key, raw[key]);
      assert KeysOf(nodes[id].records)[i] == key;
    }
  }

  lemma NextFreed(pages: OverflowMap, chain: seq<PageId>, j: nat)
    requires Linked(pages, chain) && Distinct(chain) && j < |chain|
    ensures var left := pages - PagesOf(chain[..j]);
            && chain[j] in left && left[chain[j]].next == Link(chain, j + 1)
            && (j + 1 < |chain| ==> chain[j + 1] != NO_PAGE)
            && left - {chain[j]} == pages - PagesOf(chain[..j + 1])
  {
    assert PageLinks(pages, chain, j) && (j + 1 < |chain| ==> PageLinks(pages, chain, j + 1));
    assert chain[j] !in chain[..j];
    assert chain[..j + 1] == chain[..j] + [chain[j]];
    assert PagesOf(chain[..j + 1]) == PagesOf(chain[..j]) + {chain[j]};
  }

  /** The chain of an existing value is untouched by pages written since. */
  lemma OldChain(raw: map<bytes, bytes>, view: map<bytes, bytes>, chains: map<bytes, seq<PageId>>,
                 owner: map<PageId, bytes>, before: OverflowMap, now: OverflowMap, key: bytes)
    requires ValuesOk(raw, view, chains, owner, before) && key in raw
    requires before.Keys <= now.Keys && forall p :: p in before ==> now[p] == before[p]
    ensures if IsHandle(raw[key]) then key in chains && ChainHolds(now, raw[key], chains[key], view[key])
            else key !in chains
  {
    assert ValueOk(raw, view, chains, before, key);
    if IsHandle(raw[key]) {
      ChainFrame(before, now, chains[key], view[key], 0);
    }
  }
}
