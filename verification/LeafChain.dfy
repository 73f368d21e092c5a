/** The sibling links: every leaf is reached once, in key order. */
module LeafChain {
  import opened Common
  import opened Bytes
  import opened Nodes
  import opened TreeInvariant
  import opened TreeContents
  import opened TreeSplit

  /** Bound `b` lies to the right of bound `a`; no bound is the leftmost. */
  predicate RightOf(a: Option<bytes>, b: Option<bytes>) {
    b.Some? && (a.None? || Less(a.value, b.value))
  }

  ghost predicate IsLeaf(nodes: NodeMap, id: PageId) {
    id in nodes && nodes[id].Leaf?
  }

  /** The leaves whose interval starts right of `lo`. */
  ghost function LeavesAfter(nodes: NodeMap, shape: Shape, lo: Option<bytes>): set<PageId> {
    set x | x in nodes && x in shape && nodes[x].Leaf? && RightOf(lo, shape[x].lo)
  }

  /** The smallest key a page is responsible for. */
  function Least(s: Span): bytes {
    if s.lo.Some? then s.lo.value else []
  }

  /** No page's interval is empty. */
  lemma {:induction false} SpanNonEmpty(nodes: NodeMap, shape: Shape, root: PageId, id: PageId)
    requires TreeOk(nodes, shape, root) && id in nodes
    ensures InSpan(Least(shape[id]), shape[id])
    ensures shape[id].hi.Some? ==> shape[id].hi.value != []
    decreases shape[root].height - shape[id].height
  {
    LessIsStrictTotalOrder();
    if id != root {
      assert Attached(nodes, id);
      var p, i := ParentOf(nodes, shape, root, id);
      SpanNonEmpty(nodes, shape, root, p);
      var n := nodes[p];
      assert NodeOk(nodes, shape, p);
      ChildAt(nodes, shape, p, i);
      assert i > 0 ==> Inside(n.keys[i - 1], shape[p]);
      assert i < |n.keys| ==> Inside(n.keys[i], shape[p]);
    }
  }

  /** Leaves that start at the same bound are the same. */
  lemma SameStart(nodes: NodeMap, shape: Shape, root: PageId, a: PageId, b: PageId)
    requires TreeOk(nodes, shape, root) && IsLeaf(nodes, a) && IsLeaf(nodes, b) && shape[a].lo == shape[b].lo
    ensures a == b
  {
    SpanNonEmpty(nodes, shape, root, a);
    SpanNonEmpty(nodes, shape, root, b);
    assert NodeOk(nodes, shape, a) && NodeOk(nodes, shape, b);
    OnePageForKey(nodes, shape, root, a, b, Least(shape[a]));
  }

  /** The sibling link of a leaf leads to the leaf that starts next, with no other leaf in between. */
  lemma NextStarts(nodes: NodeMap, shape: Shape, root: PageId, id: PageId, x: PageId)
    requires TreeOk(nodes, shape, root) && IsLeaf(nodes, id) && IsLeaf(nodes, x)
    requires RightOf(shape[id].lo, shape[x].lo)
    ensures nodes[id].next.Some? && IsLeaf(nodes, nodes[id].next.value)
    ensures x == nodes[id].next.value || RightOf(shape[nodes[id].next.value].lo, shape[x].lo)
  {
    LessIsStrictTotalOrder();
    assert NodeOk(nodes, shape, id) && NodeOk(nodes, shape, x);
    SpanNonEmpty(nodes, shape, root, x);
    if InSpan(Least(shape[x]), shape[id]) {
      OnePageForKey(nodes, shape, root, id, x, Least(shape[x]));
    }
    NextIsLeaf(nodes, shape, root, id);
    if shape[x].lo == shape[nodes[id].next.value].lo {
      SameStart(nodes, shape, root, x, nodes[id].next.value);
    }
  }

  lemma NextIsLeaf(nodes: NodeMap, shape: Shape, root: PageId, id: PageId)
    requires TreeOk(nodes, shape, root) && IsLeaf(nodes, id)
    ensures nodes[id].next.Some? == shape[id].hi.Some?
    ensures nodes[id].next.Some? ==>
              && IsLeaf(nodes, nodes[id].next.value)
              && shape[nodes[id].next.value].lo == shape[id].hi
              && RightOf(shape[id].lo, shape[nodes[id].next.value].lo)
  {
    LessIsStrictTotalOrder();
    assert NodeOk(nodes, shape, id);
    if nodes[id].next.Some? {
      var next := nodes[id].next.value;
      assert NodeOk(nodes, shape, next);
      assert nodes[next].Internal? ==> ChildOk(nodes, shape, next, nodes[next], 0);
      SpanNonEmpty(nodes, shape, root, id);
    }
  }

  /** Following a sibling link leaves fewer leaves ahead, so walking the chain ends. */
  lemma FewerAhead(nodes: NodeMap, shape: Shape, root: PageId, id: PageId)
    requires TreeOk(nodes, shape, root) && IsLeaf(nodes, id) && nodes[id].next.Some?
    ensures nodes[id].next.value in shape
    ensures LeavesAfter(nodes, shape, shape[nodes[id].next.value].lo) < LeavesAfter(nodes, shape, shape[id].lo)
  {
    LessIsStrictTotalOrder();
    NextIsLeaf(nodes, shape, root, id);
    var next := nodes[id].next.value;
    assert next in LeavesAfter(nodes, shape, shape[id].lo) && next !in LeavesAfter(nodes, shape, shape[next].lo);
  }

  /** `chain` is what walking the sibling links from its first leaf visits. */
  ghost predicate IsWalk(nodes: NodeMap, chain: seq<PageId>) {
    && chain != []
    && (forall i :: 0 <= i < |chain| ==> IsLeaf(nodes, chain[i]))
    && (forall i :: 0 <= i < |chain| - 1 ==> nodes[chain[i]].next == Some(chain[i + 1]))
    && nodes[chain[|chain| - 1]].next.None?
  }

  ghost predicate InKeyOrder(shape: Shape, chain: seq<PageId>) {
    forall i, j :: 0 <= i < j < |chain| ==>
      chain[i] in shape && chain[j] in shape && RightOf(shape[chain[i]].lo, shape[chain[j]].lo)
  }

  /** The walk from a leaf visits, in key order, exactly that leaf and those right of it. */
  lemma {:induction false} WalkFrom(nodes: NodeMap, shape: Shape, root: PageId, id: PageId) returns (chain: seq<PageId>)
    requires TreeOk(nodes, shape, root) && IsLeaf(nodes, id)
    ensures IsWalk(nodes, chain) && chain[0] == id && InKeyOrder(shape, chain)
    ensures forall x :: x in chain <==> x == id || x in LeavesAfter(nodes, shape, shape[id].lo)
    decreases LeavesAfter(nodes, shape, shape[id].lo)
  {
    LessIsStrictTotalOrder();
    NextIsLeaf(nodes, shape, root, id);
    if nodes[id].next.None? {
      chain := [id];
      forall x | x in LeavesAfter(nodes, shape, shape[id].lo) ensures false {
        NextStarts(nodes, shape, root, id, x);
      }
    } else {
      FewerAhead(nodes, shape, root, id);
      var next := nodes[id].next.value;
      var rest := WalkFrom(nodes, shape, root, next);
      chain := [id] + rest;
      forall x | x in LeavesAfter(nodes, shape, shape[id].lo) ensures x in chain {
        NextStarts(nodes, shape, root, id, x);
      }
      forall i, j | 0 <= i < j < |chain|
        ensures chain[i] in shape && chain[j] in shape && RightOf(shape[chain[i]].lo, shape[chain[j]].lo)
      {
        assert chain[j] in rest;
        assert chain[j] == next || chain[j] in LeavesAfter(nodes, shape, shape[next].lo);
        if i > 0 {
          assert chain[i] == rest[i - 1] && chain[j] == rest[j - 1];
        }
      }
    }
  }

  /** From the leftmost leaf, the sibling links lead through every leaf exactly once, in key order. */
  lemma ChainVisitsAllLeaves(nodes: NodeMap, shape: Shape, root: PageId, first: PageId) returns (chain: seq<PageId>)
    requires TreeOk(nodes, shape, root) && IsLeaf(nodes, first) && shape[first].lo.None?
    ensures IsWalk(nodes, chain) && chain[0] == first && InKeyOrder(shape, chain) && Distinct(chain)
    ensures forall x :: x in chain <==> IsLeaf(nodes, x)
  {
    LessIsStrictTotalOrder();
    chain := WalkFrom(nodes, shape, root, first);
    forall x | IsLeaf(nodes, x) ensures x in chain {
      if shape[x].lo.None? {
        SameStart(nodes, shape, root, x, first);
      }
    }
  }

  // ---- Scanning ----

  /** `results` are exactly the pairs of `view` with a key in `seen` that extends the prefix, in key order. */
  ghost predicate Collected(results: seq<Record>, view: map<bytes, bytes>, prefix: bytes, seen: set<bytes>) {
    && SortedRecords(results)
    && (forall r {:trigger r in results} :: r in results <==>
          r.key in seen && r.key in view && view[r.key] == r.val && prefix <= r.key)
  }

  /** The keys left of a bound. */
  ghost function KeysLeftOf(keys: set<bytes>, b: Option<bytes>): set<bytes> {
    set k | k in keys && b.Some? && Less(k, b.value)
  }

  ghost function KeysBelow(keys: set<bytes>, b: Option<bytes>): set<bytes> {
    set k | k in keys && Below(k, b)
  }

  /** The keys left of a bound and those of the first `i` records. */
  ghost function Passed(keys: set<bytes>, lo: Option<bytes>, records: seq<Record>, i: nat): set<bytes>
    requires i <= |records|
  {
    KeysLeftOf(keys, lo) + set r | r in records[..i] :: r.key
  }

  lemma CollectedStart(view: map<bytes, bytes>, prefix: bytes, s: Span)
    requires InSpan(prefix, s)
    ensures Collected([], view, prefix, KeysLeftOf(view.Keys, s.lo))
  {
    LessIsStrictTotalOrder();
    forall k | k in KeysLeftOf(view.Keys, s.lo) ensures !(prefix <= k) {
      if prefix <= k {
        PrefixNotAbove(prefix, k, 0);
      }
    }
  }

  lemma CollectedStep(results: seq<Record>, view: map<bytes, bytes>, prefix: bytes, seen: set<bytes>, r: Record)
    requires Collected(results, view, prefix, seen) && r.key in view && view[r.key] == r.val
    requires forall k :: k in seen ==> Less(k, r.key)
    ensures Collected(if prefix <= r.key then results + [r] else results, view, prefix, seen + {r.key})
  {
    LessIsStrictTotalOrder();
    var after := if prefix <= r.key then results + [r] else results;
    forall i, j | 0 <= i < j < |after| ensures Less(after[i].key, after[j].key) {
      assert after[i] in results;
    }
    forall x ensures x in after <==> x.key in seen + {r.key} && x.key in view && view[x.key] == x.val && prefix <= x.key {
      assert prefix <= r.key ==> (x in after <==> x in results || x == r);
    }
  }

  /** Past a key above the prefix that does not extend it, no key extends it. */
  lemma CollectedEnd(results: seq<Record>, view: map<bytes, bytes>, prefix: bytes, seen: set<bytes>, key: bytes)
    requires Collected(results, view, prefix, seen)
    requires !(prefix <= key) && Less(prefix, key)
    requires forall k :: k in view && k !in seen ==> k == key || Less(key, k)
    ensures Collected(results, view, prefix, view.Keys)
  {
    forall k | k in view && k !in seen ensures !(prefix <= k) {
      if prefix <= k && k != key {
        PrefixInterval(prefix, key, k, 0);
      }
    }
  }

  /** Between the keys passed so far and the rest of the map comes the next record of the leaf. */
  lemma PassedStep(nodes: NodeMap, shape: Shape, root: PageId, raw: map<bytes, bytes>, id: PageId, i: nat)
    requires TreeOk(nodes, shape, root) && Holds(nodes, raw) && IsLeaf(nodes, id) && i < |nodes[id].records|
    ensures var key, passed := nodes[id].records[i].key, Passed(raw.Keys, shape[id].lo, nodes[id].records, i);
            && key in raw && raw[key] == nodes[id].records[i].val
            && (forall k :: k in passed ==> Less(k, key))
            && (forall k :: k in raw && k !in passed ==> k == key || Less(key, k))
            && Passed(raw.Keys, shape[id].lo, nodes[id].records, i + 1) == passed + {key}
  {
    LessIsStrictTotalOrder();
    var records, key, lo := nodes[id].records, nodes[id].records[i].key, shape[id].lo;
    var passed := Passed(raw.Keys, lo, records, i);
    assert NodeOk(nodes, shape, id);
    assert HasRecord(nodes[id], records[i]);
    assert records[..i + 1] == records[..i] + [records[i]];
    forall k | k in passed ensures Less(k, key) {
      if k !in KeysLeftOf(raw.Keys, lo) {
        var r :| r in records[..i] && r.key == k;
      }
    }
    forall k | k in raw && k !in passed ensures k == key || Less(key, k) {
      if Less(k, key) {
        LeafDecides(nodes, shape, root, raw, id, k);
      }
    }
  }

  /** After the last record of a leaf, exactly the keys below the end of its interval have been passed. */
  lemma PassedAll(nodes: NodeMap, shape: Shape, root: PageId, raw: map<bytes, bytes>, id: PageId)
    requires TreeOk(nodes, shape, root) && Holds(nodes, raw) && IsLeaf(nodes, id)
    ensures Passed(raw.Keys, shape[id].lo, nodes[id].records, |nodes[id].records|) == KeysBelow(raw.Keys, shape[id].hi)
  {
    LessIsStrictTotalOrder();
    SpanNonEmpty(nodes, shape, root, id);
    assert NodeOk(nodes, shape, id);
    var records := nodes[id].records;
    assert records[..|records|] == records;
    var passed := Passed(raw.Keys, shape[id].lo, records, |records|);
    forall k | k in passed ensures k in KeysBelow(raw.Keys, shape[id].hi) {
      if k !in KeysLeftOf(raw.Keys, shape[id].lo) {
        var r :| r in records && r.key == k;
        assert HasRecord(nodes[id], r);
      }
    }
    forall k | k in KeysBelow(raw.Keys, shape[id].hi) ensures k in passed {
      if InSpan(k, shape[id]) {
        LeafDecides(nodes, shape, root, raw, id, k);
        assert Record(k, raw[k]) in records;
      }
    }
  }

  // ---- Deleting ----

  /** The leaf that holds `key` holds nothing else, and is not the leftmost leaf (so not the root either). */
  ghost predicate LastInInnerLeaf(nodes: NodeMap, shape: Shape, id: PageId, key: bytes) {
    IsLeaf(nodes, id) && id in shape && |nodes[id].records| == 1 && nodes[id].records[0].key == key && shape[id].lo.Some?
  }

  /** An internal page lists a page that is gone. */
  ghost predicate Dangling(nodes: NodeMap, p: PageId, id: PageId) {
    p in nodes && nodes[p].Internal? && id in nodes[p].children && id !in nodes
  }

  /** Pages with a dangling child are not a tree, whatever heights, intervals and root one assumes. */
  lemma DanglingIsNoTree(nodes: NodeMap, p: PageId, id: PageId)
    requires Dangling(nodes, p, id)
    ensures forall shape, root :: !TreeOk(nodes, shape, root)
  {
    var i :| 0 <= i < |nodes[p].children| && nodes[p].children[i] == id;
    forall shape, root ensures !TreeOk(nodes, shape, root) {
      assert TreeOk(nodes, shape, root) ==> NodeOk(nodes, shape, p);
    }
  }

  /** The child that a descent for `k` takes: the one left of the first separator above `k`. */
  function ChildIndex(keys: seq<bytes>, k: bytes): (i: nat)
    ensures i <= |keys| && (i < |keys| ==> Less(k, keys[i])) && (forall j :: 0 <= j < i ==> !Less(k, keys[j]))
  {
    if keys == [] || Less(k, keys[0]) then 0 else 1 + ChildIndex(keys[1..], k)
  }

  /** Descending for `k` from page `from` arrives at page `to` after so many steps, whether or not `to` is there. */
  ghost predicate Reaches(nodes: NodeMap, from: PageId, k: bytes, to: PageId, steps: nat)
    decreases steps
  {
    if steps == 0 then from == to
    else
      && from in nodes && nodes[from].Internal? && ChildIndex(nodes[from].keys, k) < |nodes[from].children|
      && Reaches(nodes, nodes[from].children[ChildIndex(nodes[from].keys, k)], k, to, steps - 1)
  }

  /** A descent arrives at the leaf responsible for the key. */
  lemma {:induction false} DescentArrives(nodes: NodeMap, shape: Shape, root: PageId, from: PageId, k: bytes, id: PageId)
    requires TreeOk(nodes, shape, root) && from in nodes && InSpan(k, shape[from])
    requires IsLeaf(nodes, id) && InSpan(k, shape[id])
    ensures Reaches(nodes, from, k, id, shape[from].height)
    decreases shape[from].height
  {
    assert NodeOk(nodes, shape, from) && NodeOk(nodes, shape, id);
    if nodes[from].Leaf? {
      OnePageForKey(nodes, shape, root, from, id, k);
    } else {
      var i := ChildIndex(nodes[from].keys, k);
      ChildAt(nodes, shape, from, i);
      DescentArrives(nodes, shape, root, nodes[from].children[i], k, id);
    }
  }

  /** A descent depends on the internal pages only. */
  lemma {:induction false} DescentFrame(nodes: NodeMap, after: NodeMap, from: PageId, k: bytes, to: PageId, steps: nat)
    requires Reaches(nodes, from, k, to, steps) && SameInternal(nodes, after)
    ensures Reaches(after, from, k, to, steps)
    decreases steps
  {
    if steps > 0 {
      DescentFrame(nodes, after, nodes[from].children[ChildIndex(nodes[from].keys, k)], k, to, steps - 1);
    }
  }

  ghost predicate SameInternal(nodes: NodeMap, after: NodeMap) {
    forall x {:trigger nodes[x]} :: x in nodes && nodes[x].Internal? ==> x in after && after[x] == nodes[x]
  }

  /** The page `id` is gone, but descending for any key of the interval `s` arrives there, and the pages are not a
      tree, whatever heights, intervals and root one assumes. */
  ghost predicate LeafLost(nodes: NodeMap, root: PageId, id: PageId, s: Span, steps: nat) {
    && id !in nodes
    && (forall k {:trigger InSpan(k, s)} :: InSpan(k, s) ==> Reaches(nodes, root, k, id, steps))
    && (forall shape', root' :: !TreeOk(nodes, shape', root'))
  }

  /** Taking away a leaf that is still listed loses it in this sense. */
  lemma LostKeys(nodes: NodeMap, after: NodeMap, shape: Shape, root: PageId, id: PageId, p: PageId)
    requires TreeOk(nodes, shape, root) && IsLeaf(nodes, id) && SameInternal(nodes, after) && Dangling(after, p, id)
    ensures LeafLost(after, root, id, shape[id], shape[root].height)
  {
    DanglingIsNoTree(after, p, id);
    forall k | InSpan(k, shape[id]) ensures Reaches(after, root, k, id, shape[root].height) {
      DescentArrives(nodes, shape, root, root, k, id);
      DescentFrame(nodes, after, root, k, id, shape[root].height);
    }
  }

  /** The leaf `id` is gone, and the one before it, `prev`, links to the one behind; no other page differs. */
  ghost predicate Unlinked(nodes: NodeMap, after: NodeMap, id: PageId, prev: PageId) {
    && IsLeaf(nodes, id) && IsLeaf(nodes, prev) && prev != id && nodes[prev].next == Some(id)
    && after == nodes[prev := nodes[prev].(next := nodes[id].next)] - {id}
  }

  /** Descending for `k` from the root arrives at a leaf that has the record. */
  ghost predicate FoundAt(nodes: NodeMap, root: PageId, k: bytes, v: bytes, steps: nat, x: PageId) {
    Reaches(nodes, root, k, x, steps) && IsLeaf(nodes, x) && Record(k, v) in nodes[x].records
  }

  /** What is left when a leaf with one record is freed: the descent for every key but that of the record still finds it,
      with its stored bytes, and no leaf has any other record. */
  ghost predicate OthersKept(nodes: NodeMap, root: PageId, contents: map<bytes, bytes>, steps: nat) {
    && (forall k {:trigger k in contents} :: k in contents ==> exists x :: FoundAt(nodes, root, k, contents[k], steps, x))
    && (forall x, r {:trigger HasRecord(nodes[x], r)} :: x in nodes && HasRecord(nodes[x], r) ==>
          r.key in contents && contents[r.key] == r.val)
  }

  lemma UnlinkedKeepsOthers(nodes: NodeMap, after: NodeMap, shape: Shape, root: PageId, raw: map<bytes, bytes>, id: PageId,
                            prev: PageId, key: bytes)
    requires TreeOk(nodes, shape, root) && Holds(nodes, raw) && Unlinked(nodes, after, id, prev)
    requires |nodes[id].records| == 1 && nodes[id].records[0].key == key
    ensures OthersKept(after, root, raw - {key}, shape[root].height)
  {
    var contents, steps := raw - {key}, shape[root].height;
    forall k | k in contents ensures exists x :: FoundAt(after, root, k, contents[k], steps, x) {
      var x := OtherFound(nodes, after, shape, root, raw, id, prev, key, k);
      assert contents[k] == raw[k] && FoundAt(after, root, k, contents[k], steps, x);
    }
    forall x, r | x in after && HasRecord(after[x], r) ensures r.key in contents && contents[r.key] == r.val {
      OtherRecord(nodes, after, shape, root, raw, id, prev, key, x, r);
    }
  }

  lemma OtherFound(nodes: NodeMap, after: NodeMap, shape: Shape, root: PageId, raw: map<bytes, bytes>, id: PageId,
                   prev: PageId, key: bytes, k: bytes) returns (x: PageId)
    requires TreeOk(nodes, shape, root) && Holds(nodes, raw) && Unlinked(nodes, after, id, prev)
    requires |nodes[id].records| == 1 && nodes[id].records[0].key == key && k in raw && k != key
    ensures FoundAt(after, root, k, raw[k], shape[root].height, x)
  {
    x :| x in nodes && HasRecord(nodes[x], Record(k, raw[k]));
    assert NodeOk(nodes, shape, x);
    DescentArrives(nodes, shape, root, root, k, x);
    DescentFrame(nodes, after, root, k, x, shape[root].height);
    assert x != id && after[x].records == nodes[x].records;
  }

  lemma OtherRecord(nodes: NodeMap, after: NodeMap, shape: Shape, root: PageId, raw: map<bytes, bytes>, id: PageId,
                    prev: PageId, key: bytes, x: PageId, r: Record)
    requires TreeOk(nodes, shape, root) && Holds(nodes, raw) && Unlinked(nodes, after, id, prev)
    requires |nodes[id].records| == 1 && nodes[id].records[0].key == key && x in after && HasRecord(after[x], r)
    ensures r.key in raw && r.key != key && raw[r.key] == r.val
  {
    assert HasRecord(nodes[x], r);
    assert NodeOk(nodes, shape, x) && NodeOk(nodes, shape, id);
    if r.key == key {
      OnePageForKey(nodes, shape, root, x, id, key);
    }
  }

  /** The sibling links from the leftmost leaf lead through the remaining leaves, each once, in key order. */
  lemma UnlinkedChain(nodes: NodeMap, after: NodeMap, shape: Shape, root: PageId, id: PageId, prev: PageId, first: PageId)
    returns (chain: seq<PageId>)
    requires TreeOk(nodes, shape, root) && Unlinked(nodes, after, id, prev)
    requires IsLeaf(nodes, first) && shape[first].lo.None?
    ensures IsWalk(after, chain) && chain[0] == first && InKeyOrder(shape, chain) && Distinct(chain)
    ensures forall x :: x in chain <==> IsLeaf(after, x)
  {
    var all := ChainVisitsAllLeaves(nodes, shape, root, first);
    assert prev in all;
    var i :| 0 <= i < |all| && all[i] == prev;
    assert i < |all| - 1 && all[i + 1] == id;
    chain := RemoveAt(all, i + 1);
    WalkWithout(nodes, after, all, i, id, prev);
    OrderWithout(shape, all, i + 1);
  }

  lemma OrderWithout(shape: Shape, all: seq<PageId>, at: nat)
    requires InKeyOrder(shape, all) && Distinct(all) && at < |all|
    ensures InKeyOrder(shape, RemoveAt(all, at)) && Distinct(RemoveAt(all, at))
    ensures forall x :: x in RemoveAt(all, at) <==> x in all && x != all[at]
  {
    var chain := RemoveAt(all, at);
    forall i, j | 0 <= i < j < |chain|
      ensures chain[i] in shape && chain[j] in shape && RightOf(shape[chain[i]].lo, shape[chain[j]].lo)
      ensures chain[i] != chain[j]
    {
      assert chain[i] == all[if i < at then i else i + 1] && chain[j] == all[if j < at then j else j + 1];
    }
    assert all == all[..at] + [all[at]] + all[at + 1..] && chain == all[..at] + all[at + 1..];
  }

  lemma WalkWithout(nodes: NodeMap, after: NodeMap, all: seq<PageId>, i: nat, id: PageId, prev: PageId)
    requires IsWalk(nodes, all) && Distinct(all) && Unlinked(nodes, after, id, prev)
    requires i + 1 < |all| && all[i] == prev && all[i + 1] == id
    ensures IsWalk(after, RemoveAt(all, i + 1))
  {
    var chain := RemoveAt(all, i + 1);
    forall j | 0 <= j < |chain| ensures IsLeaf(after, chain[j]) {
      assert chain[j] == all[if j <= i then j else j + 1] && chain[j] != id;
    }
    forall j | 0 <= j < |chain| - 1 ensures after[chain[j]].next == Some(chain[j + 1]) {
      assert chain[j] == all[if j <= i then j else j + 1];
      assert chain[j + 1] == all[if j + 1 <= i then j + 1 else j + 2];
      assert j != i ==> chain[j] != prev;
    }
    var last := |chain| - 1;
    assert chain[last] == all[if last <= i then last else last + 1];
    assert last != i ==> chain[last] != prev;
  }

  lemma RemoveRecordSorted(records: seq<Record>, pos: nat)
    requires SortedRecords(records) && pos < |records|
    ensures SortedRecords(RemoveAt(records, pos))
    ensures forall x :: x in RemoveAt(records, pos) <==> x in records && x.key != records[pos].key
  {
    LessIsStrictTotalOrder();
    var after := RemoveAt(records, pos);
    forall x ensures x in after <==> x in records && x.key != records[pos].key {
      if x in records && x.key != records[pos].key {
        var i :| 0 <= i < |records| && records[i] == x;
        assert after[if i < pos then i else i - 1] == x;
      }
      if x in after {
        var i :| 0 <= i < |after| && after[i] == x;
        assert records[if i < pos then i else i + 1] == x;
      }
    }
  }

  /** A leaf after a removal: the tree is in order, the page still fits, and the map lacks the key. */
  lemma RemoveFromLeaf(nodes: NodeMap, shape: Shape, root: PageId, raw: map<bytes, bytes>, id: PageId, pos: nat)
    requires TreeOk(nodes, shape, root) && Holds(nodes, raw) && PagesFit(nodes)
    requires IsLeaf(nodes, id) && pos < |nodes[id].records|
    ensures var n := nodes[id].(records := RemoveAt(nodes[id].records, pos));
            && TreeOk(nodes[id := n], shape, root)
            && Holds(nodes[id := n], raw - {nodes[id].records[pos].key})
            && PagesFit(nodes[id := n]) && Fits(n)
            && (AllSmall(nodes) ==> AllSmall(nodes[id := n]))
  {
    var records, after := nodes[id].records, RemoveAt(nodes[id].records, pos);
    var n := nodes[id].(records := after);
    assert NodeOk(nodes, shape, id) && PageFits(nodes[id]);
    RemoveRecordSorted(records, pos);
    forall i | 0 <= i < |after| ensures InSpan(after[i].key, shape[id]) && RecordWithinLimits(after[i]) {
      assert after[i] == records[if i < pos then i else i + 1];
    }
    LeafEditOk(nodes, shape, root, id, after);
    RemoveHolds(nodes, shape, root, raw, id, after, records[pos].key);
    RemoveCosts(nodes[id], pos);
    PageWritten(nodes, id, n);
    assert AllSmall(nodes) ==> Small(nodes[id]);
  }

  lemma RemoveCosts(n: Node, pos: nat)
    requires n.Leaf? && pos < |n.records|
    ensures Fits(n) ==> Fits(n.(records := RemoveAt(n.records, pos)))
    ensures Small(n) ==> Small(n.(records := RemoveAt(n.records, pos)))
  {
    var m, costs := n.(records := RemoveAt(n.records, pos)), RecordCosts(n.records);
    assert Costs(m) == RemoveAt(costs, pos);
    SumRemove(costs, pos);
    forall i | 0 <= i < |Costs(m)| ensures Costs(m)[i] == Costs(n)[if i < pos then i else i + 1] {
    }
  }
}
