/** Whole runs of the B+ tree, and its pages on disk. */
module TreeRuns {
  import opened Common
  import opened Bytes
  import opened Nodes
  import opened PageAllocator
  import opened Overflow
  import opened TreeInvariant
  import opened TreeSplit
  import opened TreeCascade
  import opened LeafChain
  import opened NodeCodec
  import opened BPlusTree
  import opened Wal
  import Db = Database

  // ---- Pages ----

  /** Every page of a tree in order can be written, and is read back as the node it was written from. */
  lemma PagesReadBack(nodes: NodeMap, shape: Shape, root: PageId, other: set<PageId>, alloc: Allocator, id: PageId)
    requires Sound(nodes, shape, root, other, alloc) && id in nodes
    ensures Encodable(nodes[id]) && |NodeBytes(nodes[id])| <= PAGE_SIZE
    ensures ReadNode(Padded(NodeBytes(nodes[id]))) == nodes[id]
  {
    assert forall x :: x in nodes ==> x in alloc.Live();
    assert PageFits(nodes[id]) && NodeOk(nodes, shape, id);
    assert id != root ==> Attached(nodes, id);
    if nodes[id].Internal? {
      assert InternalOk(nodes, shape, id);
      forall i | 0 <= i < |nodes[id].children| ensures nodes[id].children[i] < TWO_32 {
        ChildAt(nodes, shape, id, i);
      }
    }
    RoundTrip(nodes[id]);
  }

  // ---- Runs ----

  /** A deletion, or an insert whose stored record, the key with the value or with the handle of its overflow pages,
      takes at most 177 bytes, and whose value is read back as it is. */
  predicate SmallEntry(e: Entry) {
    e.Put? ==>
      && |e.key| <= MAX_KEY_SIZE && Readable(e.val)
      && RecordCost(Record(e.key, if |e.val| <= MAX_INLINE_VAL_SIZE then e.val else Handle(|e.val|, 0))) <= SMALL_RECORD
  }

  /** A value that can be read back: a handle has room for its length, and it is not taken for a handle itself. */
  predicate Readable(v: bytes) {
    !IsHandle(v) && |v| < TWO_32
  }

  /** Deleting the key would free a leaf. */
  ghost predicate FreesLeaf(tree: BTree, key: bytes)
    reads tree
  {
    exists id :: id in tree.nodes && LastInInnerLeaf(tree.nodes, tree.shape, id, key)
  }

  /** Only the leaf responsible for a key can be the one that a delete would free. */
  lemma FreedLeaf(nodes: NodeMap, shape: Shape, root: PageId, leaf: PageId, id: PageId, key: bytes)
    requires TreeOk(nodes, shape, root) && leaf in nodes && nodes[leaf].Leaf? && InSpan(key, shape[leaf])
    requires id in nodes && LastInInnerLeaf(nodes, shape, id, key)
    ensures id == leaf
  {
    assert NodeOk(nodes, shape, id) && NodeOk(nodes, shape, leaf);
    OnePageForKey(nodes, shape, root, id, leaf, key);
  }

  /** Whether deleting a key would free a leaf. */
  method Frees(tree: BTree, key: bytes) returns (frees: bool)
    requires tree.Valid()
    ensures frees <==> FreesLeaf(tree, key)
  {
    var id, leaf, found, pos := tree.Locate(key);
    var leftmost := tree.FindLeftmostLeaf(tree.root);
    if id == tree.root || id == leftmost {
      frees := false;
    } else {
      frees := found && |leaf.records| == 1;
      if tree.shape[id].lo.None? { SameStart(tree.nodes, tree.shape, tree.root, id, leftmost); }
      assert found ==> leaf.records[pos].key == key;
      assert leaf.records != [] ==> KeysOf(leaf.records)[0] == leaf.records[0].key;
    }
    assert frees <==> LastInInnerLeaf(tree.nodes, tree.shape, id, key);
    forall x | x in tree.nodes && LastInInnerLeaf(tree.nodes, tree.shape, x, key) ensures x == id {
      FreedLeaf(tree.nodes, tree.shape, tree.root, id, x, key);
    }
  }

  /** Why a run ends: all done; the index refused an insert; a value that would not be read back; no page left;
      a delete that would free a leaf. */
  datatype Outcome = Done | Refused | Unreadable | Full | WouldFree

  /** The tree stands for `m`. */
  ghost predicate Represents(tree: BTree, m: map<bytes, bytes>)
    reads tree
  {
    tree.Valid() && tree.view == m
  }

  /** One insert. It is refused if the key is too long; a small record in a tree of small records is never refused. */
  method PutEntry(tree: BTree, key: bytes, val: bytes) returns (outcome: Outcome)
    requires tree.Valid() && Readable(val)
    modifies tree
    ensures outcome.Done? || outcome.Refused? || outcome.Full?
    ensures outcome.Done? ==>
              && |key| <= MAX_KEY_SIZE && tree.Valid() && tree.view == old(tree.view)[key := val]
              && tree.shape[tree.root].height <= old(tree.shape[tree.root].height) + 1
    ensures |key| > MAX_KEY_SIZE ==> outcome.Refused? && unchanged(tree)
    ensures outcome.Full? ==> tree.alloc.numPages == U32_MAX
    ensures tree.alloc.numPages <= old(tree.alloc.numPages + tree.shape[tree.root].height) + 2 + OverflowPages(val)
    ensures old(AllSmall(tree.nodes)) && SmallEntry(Put(key, val)) ==>
              !outcome.Refused? && (outcome.Done? ==> AllSmall(tree.nodes))
  {
    ghost var nodes, shape, root, raw := tree.nodes, tree.shape, tree.root, tree.raw;
    var r;
    ghost var stored, leafId;
    r, stored, leafId := tree.Insert(key, val);
    ErrorCases(r);
    KeptShort(val);
    outcome := if r.Ok? then Done else if r == Err(NoSpace) then Full else Refused;
    if AllSmall(nodes) && SmallEntry(Put(key, val)) && !outcome.Full? {
      SmallPutFits(nodes, shape, root, raw, leafId, Record(key, stored));
    }
  }

  /** One change, unless it is a delete that would free a leaf or a value that would not be read back. */
  method Perform(tree: BTree, e: Entry, ghost m: map<bytes, bytes>) returns (outcome: Outcome)
    requires Represents(tree, m)
    modifies tree
    ensures outcome.Done? ==>
              && Db.Accepted(e) && Represents(tree, Db.Apply(m, e))
              && tree.shape[tree.root].height <= old(tree.shape[tree.root].height) + 1
    ensures !Db.Accepted(e) ==> outcome.Refused? || outcome.Unreadable?
    ensures outcome.Refused? ==> e.Put? && (Db.Accepted(e) || Represents(tree, m))
    ensures outcome.Unreadable? ==> e.Put? && !Readable(e.val) && unchanged(tree)
    ensures outcome.WouldFree? ==> e.Delete? && FreesLeaf(tree, e.key) && unchanged(tree)
    ensures outcome.Full? ==> tree.alloc.numPages == U32_MAX
    ensures tree.alloc.numPages <= old(tree.alloc.numPages) + MostPages(e, old(tree.shape[tree.root].height))
    ensures old(AllSmall(tree.nodes)) && SmallEntry(e) ==>
              && (outcome.Done? ==> AllSmall(tree.nodes))
              && (outcome.Done? || outcome.Full? || outcome.WouldFree?)
  {
    match e
    case Put(k, v) =>
      if !Readable(v) { return Unreadable; }
      outcome := PutEntry(tree, k, v);
    case Delete(k) =>
      var frees := Frees(tree, k);
      if frees { return WouldFree; }
      ghost var id := tree.Delete(k);
      outcome := Done;
  }

  /** An upper bound for the pages that one change adds to the file. */
  function MostPages(e: Entry, height: nat): nat {
    if e.Put? then height + 2 + OverflowPages(e.val) else 0
  }

  /** An upper bound for the pages that changes from number `i` on add to the file, if the tree is at most `height` high
      before them. */
  function RunPages(es: seq<Entry>, i: nat, height: nat): nat
    requires i <= |es|
    decreases |es| - i
  {
    if i == |es| then 0 else MostPages(es[i], height) + RunPages(es, i + 1, height + 1)
  }

  ghost predicate SmallEntries(es: seq<Entry>) {
    forall i :: 0 <= i < |es| ==> SmallEntry(es[i])
  }

  /** How far a run has come that began with map `m`, `pages` pages and a tree `height` high. */
  ghost predicate Performed(m: map<bytes, bytes>, es: seq<Entry>, done: nat, pages: nat, height: nat,
                            m': map<bytes, bytes>, pages': nat, height': nat)
  {
    && done <= |es| && m' == Db.Replay(m, es[..done]) && Db.AllAccepted(es[..done])
    && height' <= height + done && pages' + RunPages(es, done, height + done) <= pages + RunPages(es, 0, height)
  }

  lemma PerformedNext(m: map<bytes, bytes>, es: seq<Entry>, done: nat, pages: nat, height: nat,
                      m': map<bytes, bytes>, pages': nat, height': nat,
                      m'': map<bytes, bytes>, pages'': nat, height'': nat)
    requires done < |es| && Performed(m, es, done, pages, height, m', pages', height')
    requires pages'' <= pages' + MostPages(es[done], height')
    ensures pages'' <= pages + RunPages(es, 0, height)
    ensures Db.Accepted(es[done]) && m'' == Db.Apply(m', es[done]) && height'' <= height' + 1 ==>
              Performed(m, es, done + 1, pages, height, m'', pages'', height'')
  {
    Db.ReplayNext(m, es, done);
    assert MostPages(es[done], height') <= MostPages(es[done], height + done);
  }

  /** Any run of inserts and deletes goes on until the index refuses an insert, the file is full, a value would not be
      read back or a delete would free a leaf; up to there the tree is in order and stands for the map that the
      operations give. Small records are never refused, and the file is only full if the operations may need that many
      pages. This is also the replay of a log into the tree. */
  method Run(tree: BTree, es: seq<Entry>, ghost m: map<bytes, bytes>) returns (done: nat, outcome: Outcome)
    requires Represents(tree, m)
    modifies tree
    ensures done <= |es| && (outcome.Done? <==> done == |es|) && Db.AllAccepted(es[..done])
    ensures outcome.Done? || outcome.WouldFree? || outcome.Unreadable? ==> Represents(tree, Db.Replay(m, es[..done]))
    ensures outcome.WouldFree? ==> es[done].Delete? && FreesLeaf(tree, es[done].key)
    ensures outcome.Unreadable? ==> es[done].Put? && !Readable(es[done].val)
    ensures outcome.Refused? ==>
              es[done].Put? && (Db.Accepted(es[done]) || Represents(tree, Db.Replay(m, es[..done])))
    ensures outcome.Full? ==>
              old(tree.alloc.numPages) + RunPages(es, 0, old(tree.shape[tree.root].height)) >= U32_MAX
    ensures old(AllSmall(tree.nodes)) && SmallEntries(es) ==>
              && !outcome.Refused? && !outcome.Unreadable?
              && (!outcome.Full? ==> AllSmall(tree.nodes))
  {
    done := 0;
    ghost var small := AllSmall(tree.nodes) && SmallEntries(es);
    ghost var pages, height := tree.alloc.numPages, tree.shape[tree.root].height;
    while done < |es|
      invariant Represents(tree, tree.view) && (small ==> AllSmall(tree.nodes))
      invariant Performed(m, es, done, pages, height, tree.view, tree.alloc.numPages, tree.shape[tree.root].height)
    {
      assert small ==> SmallEntry(es[done]);
      ghost var m', pages', height' := tree.view, tree.alloc.numPages, tree.shape[tree.root].height;
      outcome := Perform(tree, es[done], m');
      PerformedNext(m, es, done, pages, height, m', pages', height',
                    tree.view, tree.alloc.numPages, if outcome.Done? then tree.shape[tree.root].height else 0);
      if !outcome.Done? { return; }
      done := done + 1;
    }
    outcome := Done;
  }

  /** After a run on a new tree, lookups and scans answer as the map does. */
  method Query(es: seq<Entry>, key: bytes, prefix: bytes)
    returns (found: Option<bytes>, pairs: seq<Record>, done: nat, outcome: Outcome)
    ensures done <= |es| && (outcome.Done? <==> done == |es|)
    ensures outcome.Done? || outcome.WouldFree? || outcome.Unreadable? ==>
              var m := Db.Replay(map[], es[..done]);
              && found == (if key in m then Some(m[key]) else None)
              && SortedRecords(pairs)
              && forall r :: r in pairs <==> r.key in m && m[r.key] == r.val && prefix <= r.key
    ensures SmallEntries(es) && RunPages(es, 0, 0) < U32_MAX - 2 ==> outcome.Done? || outcome.WouldFree?
  {
    var tree := new BTree();
    done, outcome := Run(tree, es, map[]);
    found, pairs := None, [];
    if outcome.Done? || outcome.WouldFree? || outcome.Unreadable? {
      found := tree.Search(key);
      pairs := tree.ScanPrefix(prefix);
    }
  }
}
