/** What the B+ tree does not keep: large records in a full leaf, short values that look like overflow handles, and leaves
    that a delete empties. */
module TreeLimits {
  import opened Common
  import opened Bytes
  import opened Nodes
  import opened PageAllocator
  import opened Overflow
  import opened TreeInvariant
  import opened TreeContents
  import opened TreeSplit
  import opened TreeCascade
  import opened LeafChain
  import opened BPlusTree
  import opened TreeRuns
  import opened Wal
  import Db = Database

  // ---- Inserts that find no room ----

  /** Putting a record behind all others. */
  lemma PutLast(records: seq<Record>, r: Record)
    requires forall i :: 0 <= i < |records| ==> Less(records[i].key, r.key)
    ensures PutRecord(records, r) == records + [r]
  {
    PositionIs(KeysOf(records), |records|, r.key);
  }

  lemma LargeRecordsInOrder()
    ensures SortedRecords(LargeRecords())
  {
    var k, l := LargeRecord(1).key, LargeRecord(2).key;
    assert k[0] == 1 && l[0] == 2;
    assert Less([], k) && Less([], l) && Less(k, l);
  }

  /** The first `n` records of a sorted list, put one after the other, make up the list. */
  lemma PutNext(records: seq<Record>, n: nat)
    requires SortedRecords(records) && n < |records|
    ensures PutRecord(records[..n], records[n]) == records[..n + 1]
  {
    PutLast(records[..n], records[n]);
  }

  /** The tree is a leaf with these records. */
  ghost predicate OneLeaf(nodes: NodeMap, records: seq<Record>) {
    nodes.Keys == {1} && nodes[1] == Leaf(None, None, records)
  }

  lemma OneLeafPut(nodes: NodeMap, records: seq<Record>, r: Record)
    requires OneLeaf(nodes, records)
    ensures OneLeaf(nodes[1 := WithRecord(nodes[1], r)], PutRecord(records, r))
    ensures WithRecord(nodes[1], r) == Leaf(None, None, PutRecord(records, r))
  {
  }

  /** A leaf with the first two large records has no room for the third. */
  lemma ThirdDoesNotFit(nodes: NodeMap, levels: nat)
    requires OneLeaf(nodes, LargeRecords()[..2])
    ensures !PutFits(nodes, 1, LargeRecords()[2], levels)
  {
    var rs := LargeRecords();
    LargeRecordsInOrder();
    PutNext(rs, 2);
    LargeRecordsBreakSplit();
    assert WithRecord(nodes[1], rs[2]) == Leaf(None, None, rs);
  }

  /** An insert into a tree of one leaf that has room for the record. */
  method PutIntoRoot(tree: BTree, r: Record, ghost records: seq<Record>)
    requires tree.Valid() && OneLeaf(tree.nodes, records) && tree.alloc.numPages < 100
    requires tree.root == 1 && tree.shape[1].height == 0
    requires RecordWithinLimits(r) && !IsHandle(r.val) && |r.val| <= MAX_INLINE_VAL_SIZE
    requires Fits(Leaf(None, None, PutRecord(records, r)))
    modifies tree
    ensures tree.Valid() && OneLeaf(tree.nodes, PutRecord(records, r))
    ensures tree.root == 1 && tree.shape == old(tree.shape) && tree.alloc.numPages <= old(tree.alloc.numPages) + 2
  {
    OneLeafPut(tree.nodes, records, r);
    var result;
    ghost var stored, leafId;
    result, stored, leafId := tree.Insert(r.key, r.val);
    ErrorCases(result);
  }

  /** A run of three inserts on a new tree, with keys of at most 500 bytes, of which the last is refused. */
  method ShortKeysRefused() returns (r: Result<(), Error>)
    ensures r == Err(NodeTooLarge)
  {
    var rs := LargeRecords();
    LargeRecordsInOrder();
    LargeRecordsBreakSplit();
    PutNext(rs, 0);
    PutNext(rs, 1);
    FirstFits(rs);
    var tree := new BTree();
    assert rs[..0] == [];
    PutIntoRoot(tree, rs[0], rs[..0]);
    PutIntoRoot(tree, rs[1], rs[..1]);
    ThirdDoesNotFit(tree.nodes, 0);
    r := PutRefused(tree, rs[2]);
  }

  /** An insert into a tree of one leaf that has no room and cannot be split. */
  method PutRefused(tree: BTree, r: Record) returns (result: Result<(), Error>)
    requires tree.Valid() && tree.nodes.Keys == {1} && tree.alloc.numPages < 100
    requires tree.root == 1 && tree.shape[1].height == 0 && tree.nodes[1].Leaf?
    requires RecordWithinLimits(r) && !PutFits(tree.nodes, 1, r, 0)
    modifies tree
    ensures result == Err(NodeTooLarge)
  {
    ghost var stored, leafId;
    result, stored, leafId := tree.Insert(r.key, r.val);
    ErrorCases(result);
  }

  lemma FirstFits(records: seq<Record>)
    requires |records| > 0 && RecordWithinLimits(records[0])
    ensures Fits(Leaf(None, None, records[..1]))
  {
    var cost := RecordCost(records[0]);
    assert RecordCosts(records[..1]) == [cost] && Sum([cost]) == Sum([cost][..0]) + cost;
  }

  // ---- Values that look like handles ----

  /** A value that looks like a handle names no page, or a page of the value of another key. */
  ghost predicate NamesNoneOrOther(v: bytes, key: bytes, overflow: OverflowMap, owner: map<PageId, bytes>) {
    IsHandle(v) ==>
      LeadsNowhere(v) || (HandlePage(v) in overflow && HandlePage(v) in owner && owner[HandlePage(v)] != key)
  }

  /** It names a page that begins with it, and its own length. */
  ghost predicate NamesItself(v: bytes, overflow: OverflowMap)
    requires IsHandle(v)
  {
    !LeadsNowhere(v) && HandlePage(v) in overflow && HandleLength(v) == |v| && v <= overflow[HandlePage(v)].data
  }

  /** Such a value is read along the rest of the chain of the page it names. */
  lemma LookalikeChain(raw: map<bytes, bytes>, view: map<bytes, bytes>, chains: map<bytes, seq<PageId>>,
                       owner: map<PageId, bytes>, overflow: OverflowMap, left: OverflowMap, key: bytes, v: bytes)
    returns (chain: seq<PageId>, read: bytes)
    requires ValuesOk(raw, view, chains, owner, overflow) && NamesNoneOrOther(v, key, overflow, owner)
    requires left == overflow - PagesFor(chains, key)
    ensures ReadsAs(left, v, chain, read)
    ensures LeadsNowhere(v) ==> read == []
    ensures IsHandle(v) && !LeadsNowhere(v) ==>
              HandlePage(v) in left && left[HandlePage(v)] == overflow[HandlePage(v)]
    ensures IsHandle(v) && !LeadsNowhere(v) ==>
              var other := owner[HandlePage(v)];
              other in chains && Distinct(chain) && PagesOf(chain) <= PagesOf(chains[other])
  {
    if !IsHandle(v) {
      chain, read := [], v;
    } else if LeadsNowhere(v) {
      chain := [];
      read := Gathered(left, [], HandleLength(v));
    } else {
      chain := RestOfChain(raw, view, chains, owner, overflow, left, key, HandlePage(v));
      read := Gathered(left, chain, HandleLength(v));
    }
  }

  lemma RestOfChain(raw: map<bytes, bytes>, view: map<bytes, bytes>, chains: map<bytes, seq<PageId>>,
                    owner: map<PageId, bytes>, overflow: OverflowMap, left: OverflowMap, key: bytes, p: PageId)
    returns (chain: seq<PageId>)
    requires ValuesOk(raw, view, chains, owner, overflow) && p in overflow && owner[p] != key
    requires left == overflow - PagesFor(chains, key)
    ensures chain != [] && chain[0] == p && Linked(left, chain) && Distinct(chain) && p in left
    ensures owner[p] in chains && PagesOf(chain) <= PagesOf(chains[owner[p]])
  {
    var other := owner[p];
    assert p in chains[other];
    var j :| 0 <= j < |chains[other]| && chains[other][j] == p;
    assert ValueOk(raw, view, chains, overflow, other);
    ChainReads(overflow, raw[other], chains[other], view[other]);
    forall q | q in chains[other] && q in overflow ensures q in left && left[q] == overflow[q] {
      assert owner[q] == other;
    }
    OthersLinked(overflow, left, chains[other]);
    RestLinked(left, chains[other], j);
    chain := chains[other][j..];
  }

  lemma OthersLinked(overflow: OverflowMap, left: OverflowMap, chain: seq<PageId>)
    requires Linked(overflow, chain) && forall p :: p in chain && p in overflow ==> p in left && left[p] == overflow[p]
    ensures Linked(left, chain)
  {
    forall j | 0 <= j < |chain| ensures PageLinks(left, chain, j) {
      assert PageLinks(overflow, chain, j) && chain[j] in chain;
    }
  }

  /** A short value is read back exactly if it does not look like a handle, or names a page of the value of another key
      that begins with it, and its own length. A handle that leads nowhere is read as empty. */
  method StoreAndRead(tree: BTree, key: bytes, v: bytes) returns (r: Option<Option<bytes>>)
    requires tree.Valid() && |v| <= MAX_INLINE_VAL_SIZE && NamesNoneOrOther(v, key, tree.overflow, tree.owner)
    modifies tree
    ensures r.Some? ==> (r.value == Some(v) <==> !IsHandle(v) || NamesItself(v, old(tree.overflow)))
    ensures r.Some? && LeadsNowhere(v) ==> r.value == Some([])
    ensures old(AllSmall(tree.nodes)) && |key| <= MAX_KEY_SIZE && RecordCost(Record(key, v)) <= SMALL_RECORD ==>
              r.Some? || tree.alloc.numPages == U32_MAX
    ensures r.None? && tree.alloc.numPages == U32_MAX ==>
              old(tree.alloc.numPages + tree.shape[tree.root].height) + 2 >= U32_MAX
  {
    ghost var left := tree.overflow - PagesFor(tree.chains, key);
    ghost var chain, read := LookalikeChain(tree.raw, tree.view, tree.chains, tree.owner, tree.overflow, left, key, v);
    if IsHandle(v) {
      LookalikeReads(left, v, chain, read);
    }
    var ok := StoreShort(tree, key, v);
    if !ok {
      return None;
    }
    assert ReadsAs(tree.overflow, tree.raw[key], chain, read);
    var found := tree.Search(key);
    r := Some(found);
  }

  /** The insert of a short value. */
  method StoreShort(tree: BTree, key: bytes, v: bytes) returns (ok: bool)
    requires tree.Valid() && |v| <= MAX_INLINE_VAL_SIZE
    modifies tree
    ensures ok ==> tree.TreeValid() && tree.raw == old(tree.raw)[key := v]
    ensures ok ==> tree.overflow == old(tree.overflow - PagesFor(tree.chains, key))
    ensures old(AllSmall(tree.nodes)) && |key| <= MAX_KEY_SIZE && RecordCost(Record(key, v)) <= SMALL_RECORD ==>
              ok || tree.alloc.numPages == U32_MAX
    ensures tree.alloc.numPages == U32_MAX ==>
              old(tree.alloc.numPages + tree.shape[tree.root].height) + 2 >= U32_MAX
  {
    if |key| > MAX_KEY_SIZE {
      return false;
    }
    ghost var nodes, shape, root, raw := tree.nodes, tree.shape, tree.root, tree.raw;
    var put;
    ghost var stored, leafId, written, c;
    put, stored, leafId, c, written := tree.InsertPages(key, v);
    ErrorCases(put);
    if put.Err? && AllSmall(nodes) && RecordCost(Record(key, v)) <= SMALL_RECORD && put != Err(NoSpace) {
      SmallPutFits(nodes, shape, root, raw, leafId, Record(key, stored));
    }
    ok := put.Ok?;
  }

  /** Freeing such a value, as an overwrite or a delete of its key does, frees pages of the other value, which cannot be
      read any more. */
  method LookalikeFreesOther(tree: BTree, key: bytes, v: bytes) returns (ghost freed: seq<PageId>)
    requires tree.Valid() && IsHandle(v) && !LeadsNowhere(v) && NamesNoneOrOther(v, key, tree.overflow, tree.owner)
    requires key !in tree.chains
    modifies tree`overflow, tree`alloc
    ensures var other := old(tree.owner)[HandlePage(v)];
            && other in tree.chains && freed != [] && PagesOf(freed) <= PagesOf(tree.chains[other])
            && tree.overflow == old(tree.overflow) - PagesOf(freed)
            && other in tree.raw && !ReadsAs(tree.overflow, tree.raw[other], tree.chains[other], tree.view[other])
  {
    ghost var other := tree.owner[HandlePage(v)];
    ghost var read;
    assert tree.overflow - {} == tree.overflow;
    freed, read := LookalikeChain(tree.raw, tree.view, tree.chains, tree.owner, tree.overflow, tree.overflow, key, v);
    assert ValueOk(tree.raw, tree.view, tree.chains, tree.overflow, other);
    tree.FreeOverflowChain(v, freed);
    assert freed[0] in PagesOf(freed) && freed[0] in tree.chains[other];
    GoneUnlinked(tree.overflow, tree.chains[other], freed[0]);
  }

  lemma GoneUnlinked(pages: OverflowMap, chain: seq<PageId>, p: PageId)
    requires p in chain && p !in pages
    ensures !Linked(pages, chain)
  {
    var j :| 0 <= j < |chain| && chain[j] == p;
    assert !PageLinks(pages, chain, j);
  }

  /** There is such a value, and a new tree loses it. */
  method LookalikeLost(key: bytes) returns (v: bytes, r: Option<bytes>)
    requires |key| <= SMALL_RECORD - 20
    ensures |v| <= MAX_INLINE_VAL_SIZE && r == Some([]) && v != []
  {
    v := Handle(12, NO_PAGE);
    HandleFields(12, NO_PAGE);
    var tree := new BTree();
    var stored := StoreAndRead(tree, key, v);
    r := stored.value;
  }

  // ---- Deletes that break the tree ----

  /** A leaf that is not the leftmost one and holds something. */
  ghost predicate InnerLeaf(nodes: NodeMap, shape: Shape, id: PageId) {
    IsLeaf(nodes, id) && id in shape && nodes[id].records != [] && shape[id].lo.Some?
  }

  /** Only the delete of its last record empties such a leaf. */
  lemma InnerLeafKept(nodes: NodeMap, shape: Shape, leaf: PageId, id: PageId, key: bytes)
    requires InnerLeaf(nodes, shape, leaf) && IsLeaf(nodes, id) && !LastInInnerLeaf(nodes, shape, id, key)
    ensures InnerLeaf(nodes[id := WithoutKey(nodes[id], key)], shape, leaf)
  {
  }

  /** A delete that frees no leaf. */
  method RemoveEntry(tree: BTree, key: bytes, ghost leaf: PageId)
    requires tree.Valid() && !FreesLeaf(tree, key) && InnerLeaf(tree.nodes, tree.shape, leaf)
    modifies tree
    ensures tree.Valid() && tree.view == old(tree.view) - {key} && InnerLeaf(tree.nodes, tree.shape, leaf)
  {
    ghost var nodes := tree.nodes;
    ghost var id := tree.Delete(key);
    InnerLeafKept(nodes, tree.shape, leaf, id, key);
  }

  /** All that is left of a map is among the pairs from number `i` on. */
  ghost predicate Left(view: map<bytes, bytes>, pairs: seq<Record>, i: nat)
    requires i <= |pairs|
  {
    forall k {:trigger k in view} :: k in view ==> exists j :: i <= j < |pairs| && pairs[j].key == k
  }

  lemma LeftNext(view: map<bytes, bytes>, pairs: seq<Record>, i: nat)
    requires i < |pairs| && Left(view, pairs, i)
    ensures Left(view - {pairs[i].key}, pairs, i + 1)
  {
    forall k | k in view - {pairs[i].key} ensures exists j :: i + 1 <= j < |pairs| && pairs[j].key == k {
      var j :| i <= j < |pairs| && pairs[j].key == k;
    }
  }

  lemma AllLeft(view: map<bytes, bytes>, pairs: seq<Record>)
    requires forall r :: r in pairs <==> r.key in view && view[r.key] == r.val && [] <= r.key
    ensures Left(view, pairs, 0)
  {
    forall k | k in view ensures exists j :: 0 <= j < |pairs| && pairs[j].key == k {
      assert Record(k, view[k]) in pairs;
    }
  }

  /** A tree with such a leaf stands for a map that is not empty. */
  lemma InnerLeafHolds(nodes: NodeMap, shape: Shape, raw: map<bytes, bytes>, leaf: PageId) returns (k: bytes)
    requires Holds(nodes, raw) && InnerLeaf(nodes, shape, leaf)
    ensures k in raw
  {
    k := nodes[leaf].records[0].key;
    assert HasRecord(nodes[leaf], nodes[leaf].records[0]);
  }

  /** Deleting the keys of a tree one after the other comes to a key whose delete would free a leaf, if the tree has any
      other leaf than the leftmost one that holds something. */
  method Drain(tree: BTree, ghost leaf: PageId) returns (key: bytes)
    requires tree.Valid() && InnerLeaf(tree.nodes, tree.shape, leaf)
    modifies tree
    ensures tree.Valid() && FreesLeaf(tree, key)
  {
    var pairs := tree.ScanPrefix([]);
    AllLeft(tree.view, pairs);
    for i := 0 to |pairs|
      invariant tree.Valid() && InnerLeaf(tree.nodes, tree.shape, leaf) && Left(tree.view, pairs, i)
    {
      key := pairs[i].key;
      var frees := Frees(tree, key);
      if frees { return; }
      LeftNext(tree.view, pairs, i);
      RemoveEntry(tree, key, leaf);
    }
    ghost var k := InnerLeafHolds(tree.nodes, tree.shape, tree.raw, leaf);
    assert false;
  }

  /** So no run of deletes empties such a tree: one of them leaves pages that are no tree, with a lost leaf. */
  method DeleteBreaksTree(tree: BTree, ghost leaf: PageId)
    returns (key: bytes, ghost lost: PageId, ghost s: Span, ghost steps: nat)
    requires tree.Valid() && InnerLeaf(tree.nodes, tree.shape, leaf)
    modifies tree
    ensures InSpan(key, s) && LeafLost(tree.nodes, tree.root, lost, s, steps)
  {
    key := Drain(tree, leaf);
    ghost var id :| id in tree.nodes && LastInInnerLeaf(tree.nodes, tree.shape, id, key);
    s, steps := tree.shape[id], tree.shape[tree.root].height;
    ghost var nodes := tree.nodes;
    lost := tree.Delete(key);
    FreedLeaf(nodes, tree.shape, tree.root, lost, id, key);
  }

  /** Keys of 169 bytes, different in the first one. */
  function LongKey(i: nat): bytes
    requires i < 256
  {
    [i as byte] + seq(168, _ => 0)
  }

  ghost predicate HasLongKeys(keys: set<bytes>, n: nat)
    requires n <= 256
  {
    forall i :: 0 <= i < n ==> LongKey(i) in keys
  }

  lemma OtherKeyStays(records: seq<Record>, p: nat, key: bytes)
    requires p < |records| && key in KeysOf(records) && key != records[p].key
    ensures key in KeysOf(RemoveAt(records, p))
  {
    var q :| 0 <= q < |records| && KeysOf(records)[q] == key;
    assert KeysOf(RemoveAt(records, p))[if q < p then q else q - 1] == key;
  }

  /** Records with `n` of these keys take at least 177 bytes each. */
  lemma {:induction false} LongKeysTake(records: seq<Record>, n: nat)
    requires n <= 256 && forall i :: 0 <= i < n ==> LongKey(i) in KeysOf(records)
    ensures Sum(RecordCosts(records)) >= 177 * n
  {
    if n > 0 {
      var keys := KeysOf(records);
      var p :| 0 <= p < |keys| && keys[p] == LongKey(n - 1);
      var rest := RemoveAt(records, p);
      forall i | 0 <= i < n - 1 ensures LongKey(i) in KeysOf(rest) {
        assert LongKey(i)[0] != LongKey(n - 1)[0];
        OtherKeyStays(records, p, LongKey(i));
      }
      LongKeysTake(rest, n - 1);
      assert RecordCosts(records) == InsertAt(RecordCosts(rest), p, RecordCost(records[p]));
      SumInsert(RecordCosts(rest), p, RecordCost(records[p]));
    }
  }

  /** A tree that holds 24 of them or more has more than one leaf. */
  lemma ManyKeysNeedTwoLeaves(nodes: NodeMap, shape: Shape, root: PageId, raw: map<bytes, bytes>, n: nat)
    returns (leaf: PageId)
    requires TreeOk(nodes, shape, root) && Holds(nodes, raw) && PagesFit(nodes)
    requires 24 <= n <= 256 && HasLongKeys(raw.Keys, n)
    ensures InnerLeaf(nodes, shape, leaf)
  {
    if leaf' :| InnerLeaf(nodes, shape, leaf') {
      leaf := leaf';
    } else {
      var first := HolderOf(nodes, raw, LongKey(0));
      forall i | 0 <= i < n ensures LongKey(i) in KeysOf(nodes[first].records) {
        var id := HolderOf(nodes, raw, LongKey(i));
        assert !InnerLeaf(nodes, shape, id) && !InnerLeaf(nodes, shape, first);
        SameStart(nodes, shape, root, id, first);
      }
      assert PageFits(nodes[first]);
      LongKeysTake(nodes[first].records, n);
      assert false;
    }
  }

  lemma HolderOf(nodes: NodeMap, raw: map<bytes, bytes>, key: bytes) returns (id: PageId)
    requires Holds(nodes, raw) && key in raw
    ensures IsLeaf(nodes, id) && key in KeysOf(nodes[id].records)
  {
    var r := Record(key, raw[key]);
    id :| id in nodes && HasRecord(nodes[id], r);
    var i :| 0 <= i < |nodes[id].records| && nodes[id].records[i] == r;
    assert KeysOf(nodes[id].records)[i] == key;
  }

  /** Inserts of the first `n` of these keys. */
  function LongEntries(n: nat): (es: seq<Entry>)
    requires n <= 256
    ensures |es| == n && forall i :: 0 <= i < n ==> es[i] == Put(LongKey(i), [])
  {
    seq(n, i requires 0 <= i < n => Put(LongKey(i), []))
  }

  lemma {:induction false} LongEntriesStored(n: nat, done: nat)
    requires done <= n <= 256
    ensures HasLongKeys(Db.Replay(map[], LongEntries(n)[..done]).Keys, done)
  {
    if done > 0 {
      LongEntriesStored(n, done - 1);
      Db.ReplayNext(map[], LongEntries(n), done - 1);
    }
  }

  lemma {:induction false} LongEntriesPages(n: nat, i: nat, height: nat)
    requires i <= n <= 256 && height <= i
    ensures RunPages(LongEntries(n), i, height) <= (n - i) * 258
    decreases n - i
  {
    if i < n {
      LongEntriesPages(n, i + 1, height + 1);
    }
  }

  /** What a run of `n` of them needs and achieves. */
  lemma LongEntriesRun(n: nat)
    requires n <= 256
    ensures SmallEntries(LongEntries(n)) && RunPages(LongEntries(n), 0, 0) <= n * 258
    ensures HasLongKeys(Db.Replay(map[], LongEntries(n)[..n]).Keys, n)
  {
    LongEntriesPages(n, 0, 0);
    LongEntriesStored(n, n);
  }

  /** A run of inserts on a new tree that needs a second leaf. */
  method FillTwoLeaves(n: nat) returns (tree: BTree, ghost leaf: PageId)
    requires 24 <= n <= 256
    ensures fresh(tree) && tree.Valid() && InnerLeaf(tree.nodes, tree.shape, leaf)
  {
    tree := new BTree();
    var es := LongEntries(n);
    LongEntriesRun(n);
    var done, outcome := Run(tree, es, map[]);
    assert outcome.Done?;
    leaf := ManyKeysNeedTwoLeaves(tree.nodes, tree.shape, tree.root, tree.raw, n);
  }

  /** A run of inserts and deletes that starts with an empty tree and ends with a lost leaf. */
  method RunThatBreaksTree() returns (tree: BTree, key: bytes, ghost lost: PageId, ghost s: Span, ghost steps: nat)
    ensures InSpan(key, s) && LeafLost(tree.nodes, tree.root, lost, s, steps)
  {
    ghost var leaf;
    tree, leaf := FillTwoLeaves(24);
    key, lost, s, steps := DeleteBreaksTree(tree, leaf);
  }
}
