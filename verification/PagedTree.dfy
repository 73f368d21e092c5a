/** Tree operations on the pages in the cache: a search, and a put that rewrites one leaf. */
module PagedTree {
  import opened Common
  import opened Bytes
  import opened Nodes
  import opened PageAllocator
  import opened Overflow
  import opened TreeInvariant
  import opened TreeCascade
  import opened NodeCodec
  import opened NodeStore
  import opened BPlusTree
  import opened TreeRuns
  import Cache = BufferPool

  /** The cache holds the pages of the tree. */
  ghost predicate OnPages(pool: Cache.BufferPool, tree: BTree)
    reads pool, pool.pager, tree
  {
    pool.Valid() && tree.Valid() && Stores(pool, tree.nodes, tree.overflow)
  }

  /** The child to descend to: that before the first separator above the key. */
  method ChooseChild(keys: seq<bytes>, key: bytes) returns (idx: nat)
    ensures idx <= |keys| && (idx < |keys| ==> Less(key, keys[idx])) && forall j :: 0 <= j < idx ==> !Less(key, keys[j])
  {
    for i := 0 to |keys|
      invariant forall j :: 0 <= j < i ==> !Less(key, keys[j])
    {
      if Less(key, keys[i]) { return i; }
    }
    return |keys|;
  }

  lemma ChildSpans(nodes: NodeMap, shape: Shape, root: PageId, id: PageId, idx: nat, key: bytes)
    requires TreeOk(nodes, shape, root) && id in nodes && nodes[id].Internal? && InSpan(key, shape[id])
    requires idx <= |nodes[id].keys| && (idx < |nodes[id].keys| ==> Less(key, nodes[id].keys[idx]))
    requires forall j :: 0 <= j < idx ==> !Less(key, nodes[id].keys[j])
    ensures idx < |nodes[id].children|
    ensures var child := nodes[id].children[idx];
            child in nodes && InSpan(key, shape[child]) && shape[child].height < shape[id].height
  {
    LessIsStrictTotalOrder();
    assert NodeOk(nodes, shape, id);
    ChildAt(nodes, shape, id, idx);
  }

  /** `find_leaf_for_insert`, reading every page on the way through the cache. */
  method FindLeaf(pool: Cache.BufferPool, currentId: PageId, current: Node, key: bytes, ghost nodes: NodeMap,
                  ghost shape: Shape, ghost root: PageId, ghost overflow: OverflowMap)
    returns (leafId: PageId, leaf: Node)
    requires pool.Valid() && Stores(pool, nodes, overflow) && TreeOk(nodes, shape, root)
    requires currentId in nodes && current == nodes[currentId] && InSpan(key, shape[currentId])
    modifies pool, pool.pager
    ensures pool.Valid() && Stores(pool, nodes, overflow)
    ensures leafId in nodes && leaf == nodes[leafId] && leaf.Leaf? && InSpan(key, shape[leafId])
    decreases shape[currentId].height
  {
    assert NodeOk(nodes, shape, currentId);
    match current
    case Leaf(_, _, _) =>
      return currentId, current;
    case Internal(_, keys, children) =>
      var childIdx := ChooseChild(keys, key);
      ChildSpans(nodes, shape, root, currentId, childIdx, key);
      var child := FetchNode(pool, children[childIdx], nodes, overflow);
      leafId, leaf := FindLeaf(pool, children[childIdx], child, key, nodes, shape, root, overflow);
  }

  /** One page of a value. */
  method ReadChunk(pool: Cache.BufferPool, curr: PageId, totalLen: nat, read: bytes, ghost nodes: NodeMap,
                   ghost overflow: OverflowMap, ghost chain: seq<PageId>, ghost j: nat)
    returns (more: bytes, next: PageId)
    requires pool.Valid() && Stores(pool, nodes, overflow) && Linked(overflow, chain) && j < |chain| && curr == chain[j]
    requires read == GatheredBy(overflow, chain, totalLen, j)
    modifies pool, pool.pager
    ensures pool.Valid() && Stores(pool, nodes, overflow)
    ensures more == GatheredBy(overflow, chain, totalLen, j + 1)
    ensures next == Link(chain, j + 1) && (j + 1 < |chain| ==> next != NO_PAGE)
  {
    assert PageLinks(overflow, chain, j) && (j + 1 < |chain| ==> PageLinks(overflow, chain, j + 1));
    var page := FetchOverflow(pool, curr, nodes, overflow);
    var takeLen := Min(totalLen - |read|, CHUNK);
    GatherNext(overflow, chain, totalLen, j);
    more := read + page.data[..takeLen];
    next := page.next;
  }

  /** `read_value_resolve_overflow` on the cached pages. */
  method ReadValue(pool: Cache.BufferPool, val: bytes, ghost nodes: NodeMap, ghost overflow: OverflowMap,
                   ghost chain: seq<PageId>, ghost v: bytes) returns (result: bytes)
    requires pool.Valid() && Stores(pool, nodes, overflow) && ReadsAs(overflow, val, chain, v)
    modifies pool, pool.pager
    ensures pool.Valid() && Stores(pool, nodes, overflow) && result == v
  {
    if |val| == 12 && val[0..4] == MAGIC {
      var totalLen := HandleLength(val);
      var curr := HandlePage(val);
      result := [];
      ghost var j: nat := 0;
      assert chain != [] ==> PageLinks(overflow, chain, 0);
      while curr != NO_PAGE
        invariant pool.Valid() && Stores(pool, nodes, overflow)
        invariant j <= |chain| && curr == Link(chain, j) && (j < |chain| ==> curr != NO_PAGE)
        invariant result == GatheredBy(overflow, chain, totalLen, j)
        decreases |chain| - j
      {
        result, curr := ReadChunk(pool, curr, totalLen, result, nodes, overflow, chain, j);
        j := j + 1;
      }
    } else {
      result := val;
    }
  }

  /** `search` on the cached pages gives what the map of the tree has. */
  method Search(pool: Cache.BufferPool, rootId: PageId, key: bytes, ghost tree: BTree) returns (r: Option<bytes>)
    requires OnPages(pool, tree) && rootId == tree.root
    modifies pool, pool.pager
    ensures OnPages(pool, tree) && r == if key in tree.view then Some(tree.view[key]) else None
  {
    ghost var nodes, overflow := tree.nodes, tree.overflow;
    var n := FetchNode(pool, rootId, nodes, overflow);
    var leafId, leaf := FindLeaf(pool, rootId, n, key, nodes, tree.shape, tree.root, overflow);
    assert NodeOk(nodes, tree.shape, leafId);
    KeyInLeaf(nodes, tree.shape, tree.root, tree.raw, leafId, key);
    var found, pos := BinarySearch(KeysOf(leaf.records), key);
    if !found {
      return None;
    }
    ValueReads(tree.raw, tree.view, tree.chains, tree.owner, overflow, key);
    var value := ReadValue(pool, leaf.records[pos].val, nodes, overflow, ChainOf(tree.chains, key), tree.view[key]);
    return Some(value);
  }

  /** A leaf with a record put in can be written if it fits. */
  lemma LeafEncodable(nodes: NodeMap, shape: Shape, root: PageId, other: set<PageId>, alloc: Allocator, id: PageId,
                      record: Record)
    requires Sound(nodes, shape, root, other, alloc) && id in nodes && nodes[id].Leaf?
    ensures Fits(WithRecord(nodes[id], record)) ==> Encodable(WithRecord(nodes[id], record))
    ensures 0 < id < U32_MAX && id !in other
  {
    PagesReadBack(nodes, shape, root, other, alloc, id);
    assert id in alloc.Live();
  }

  /** A put of a short value under a key that has no overflow pages, if the leaf has room: the leaf is read through the
      cache, changed and written, and the cache then holds the tree with the new value. */
  method Put(pool: Cache.BufferPool, tree: BTree, key: bytes, value: bytes) returns (ok: bool)
    requires OnPages(pool, tree) && |key| <= MAX_KEY_SIZE && |value| <= MAX_INLINE_VAL_SIZE && !IsHandle(value)
    requires key !in tree.chains && tree.alloc.numPages + tree.shape[tree.root].height + 2 < U32_MAX
    modifies pool, pool.pager, tree
    ensures OnPages(pool, tree) && tree.view == if ok then old(tree.view)[key := value] else old(tree.view)
    ensures ok <==> exists id :: id in old(tree.nodes) && old(tree.nodes)[id].Leaf? && InSpan(key, old(tree.shape)[id]) &&
                      Fits(WithRecord(old(tree.nodes)[id], Record(key, value)))
  {
    ghost var nodes, overflow, shape := tree.nodes, tree.overflow, tree.shape;
    var leafId;
    ok, leafId := RewriteLeaf(pool, tree.root, Record(key, value), nodes, shape, overflow, tree.alloc);
    if ok {
      PutIntoLeaf(tree, key, value, leafId);
    }
  }

  /** The leaf of a key with a record put in, if it fits. */
  method RewriteLeaf(pool: Cache.BufferPool, rootId: PageId, record: Record, ghost nodes: NodeMap, ghost shape: Shape,
                     ghost overflow: OverflowMap, ghost alloc: Allocator) returns (ok: bool, leafId: PageId)
    requires pool.Valid() && Stores(pool, nodes, overflow) && Sound(nodes, shape, rootId, overflow.Keys, alloc)
    modifies pool, pool.pager
    ensures pool.Valid() && leafId in nodes && nodes[leafId].Leaf? && InSpan(record.key, shape[leafId])
    ensures forall id :: id in nodes && nodes[id].Leaf? && InSpan(record.key, shape[id]) ==> id == leafId
    ensures ok == Fits(WithRecord(nodes[leafId], record))
    ensures Stores(pool, if ok then nodes[leafId := WithRecord(nodes[leafId], record)] else nodes, overflow)
  {
    var n := FetchNode(pool, rootId, nodes, overflow);
    var leaf;
    leafId, leaf := FindLeaf(pool, rootId, n, record.key, nodes, shape, rootId, overflow);
    assert NodeOk(nodes, shape, leafId);
    OneLeaf(nodes, shape, rootId, leafId, record.key);
    LeafEncodable(nodes, shape, rootId, overflow.Keys, alloc, leafId, record);
    var updated := PutRecordIn(leaf, record);
    ok := StoreNode(pool, leafId, updated, nodes, overflow);
  }

  method PutRecordIn(leaf: Node, record: Record) returns (updated: Node)
    requires leaf.Leaf? && SortedKeys(KeysOf(leaf.records))
    ensures updated == WithRecord(leaf, record)
  {
    var found, pos := BinarySearch(KeysOf(leaf.records), record.key);
    updated := leaf.(records := if found then leaf.records[pos := record] else InsertAt(leaf.records, pos, record));
  }

  lemma OneLeaf(nodes: NodeMap, shape: Shape, root: PageId, leafId: PageId, key: bytes)
    requires TreeOk(nodes, shape, root) && leafId in nodes && nodes[leafId].Leaf? && InSpan(key, shape[leafId])
    ensures forall id :: id in nodes && nodes[id].Leaf? && InSpan(key, shape[id]) ==> id == leafId
  {
    forall id | id in nodes && nodes[id].Leaf? && InSpan(key, shape[id]) ensures id == leafId {
      assert NodeOk(nodes, shape, id) && NodeOk(nodes, shape, leafId);
      OnePageForKey(nodes, shape, root, leafId, id, key);
    }
  }

  /** The same put on the tree. */
  method PutIntoLeaf(tree: BTree, key: bytes, value: bytes, ghost leafId: PageId)
    requires tree.Valid() && |key| <= MAX_KEY_SIZE && |value| <= MAX_INLINE_VAL_SIZE && !IsHandle(value)
    requires key !in tree.chains && leafId in tree.nodes && tree.nodes[leafId].Leaf? && InSpan(key, tree.shape[leafId])
    requires Fits(WithRecord(tree.nodes[leafId], Record(key, value)))
    requires tree.alloc.numPages + tree.shape[tree.root].height + 2 < U32_MAX
    modifies tree
    ensures tree.Valid() && tree.view == old(tree.view)[key := value] && tree.overflow == old(tree.overflow)
    ensures tree.nodes == old(tree.nodes)[leafId := WithRecord(old(tree.nodes)[leafId], Record(key, value))]
  {
    ghost var raw, overflow := tree.raw, tree.overflow;
    PutPages(tree, key, value, leafId);
    StoredInline(overflow, tree.chains, key, value);
    tree.RecordValue(key, value, value, [], raw, overflow, overflow);
  }

  lemma StoredInline(overflow: OverflowMap, chains: map<bytes, seq<PageId>>, key: bytes, value: bytes)
    requires key !in chains && !IsHandle(value)
    ensures NewlyStored(overflow, overflow, value, [], value) && overflow - PagesFor(chains, key) == overflow
  {
    assert PagesOf([]) == {};
  }

  method PutPages(tree: BTree, key: bytes, value: bytes, ghost leafId: PageId)
    requires tree.Valid() && |key| <= MAX_KEY_SIZE && |value| <= MAX_INLINE_VAL_SIZE && !IsHandle(value)
    requires key !in tree.chains && leafId in tree.nodes && tree.nodes[leafId].Leaf? && InSpan(key, tree.shape[leafId])
    requires Fits(WithRecord(tree.nodes[leafId], Record(key, value)))
    requires tree.alloc.numPages + tree.shape[tree.root].height + 2 < U32_MAX
    modifies tree`nodes, tree`root, tree`storedRoot, tree`alloc, tree`shape, tree`overflow, tree`raw
    ensures tree.TreeValid() && tree.raw == old(tree.raw)[key := value] && tree.overflow == old(tree.overflow)
    ensures tree.nodes == old(tree.nodes)[leafId := WithRecord(old(tree.nodes)[leafId], Record(key, value))]
  {
    var r;
    ghost var stored, id, chain, written;
    OneLeaf(tree.nodes, tree.shape, tree.root, leafId, key);
    StoredInline(tree.overflow, tree.chains, key, value);
    r, stored, id, chain, written := tree.InsertPages(key, value);
    ErrorCases(r);
    assert r != Err(NoSpace) && id == leafId;
  }
}
