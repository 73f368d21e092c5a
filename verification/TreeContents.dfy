/** The map a B+ tree stands for: the union of its leaves' records. */
module TreeContents {
  import opened Bytes
  import opened Nodes
  import opened TreeInvariant

  predicate HasRecord(n: Node, r: Record) {
    n.Leaf? && r in n.records
  }

  ghost predicate Stored(nodes: NodeMap, r: Record) {
    exists id :: id in nodes && HasRecord(nodes[id], r)
  }

  /** `contents` is exactly what the leaves hold. */
  ghost predicate Holds(nodes: NodeMap, contents: map<bytes, bytes>) {
    && (forall id, r {:trigger HasRecord(nodes[id], r)} :: id in nodes && HasRecord(nodes[id], r) ==>
          r.key in contents && contents[r.key] == r.val)
    && (forall k {:trigger k in contents} :: k in contents ==> Stored(nodes, Record(k, contents[k])))
  }

  /** A leaf responsible for `k` decides whether `k` is in the map, and with which value. */
  lemma LeafDecides(nodes: NodeMap, shape: Shape, root: PageId, contents: map<bytes, bytes>, id: PageId, k: bytes)
    requires TreeOk(nodes, shape, root) && Holds(nodes, contents)
    requires id in nodes && nodes[id].Leaf? && InSpan(k, shape[id])
    ensures k in contents ==> Record(k, contents[k]) in nodes[id].records
    ensures forall i :: 0 <= i < |nodes[id].records| && nodes[id].records[i].key == k ==>
              k in contents && contents[k] == nodes[id].records[i].val
  {
    if k in contents {
      var other :| other in nodes && HasRecord(nodes[other], Record(k, contents[k]));
      assert NodeOk(nodes, shape, id) && NodeOk(nodes, shape, other);
      OnePageForKey(nodes, shape, root, id, other, k);
    }
    forall i | 0 <= i < |nodes[id].records| && nodes[id].records[i].key == k
      ensures k in contents && contents[k] == nodes[id].records[i].val
    {
      assert HasRecord(nodes[id], nodes[id].records[i]);
    }
  }

  /** Putting a record into the leaf responsible for its key puts it into the map. */
  lemma PutHolds(nodes: NodeMap, shape: Shape, root: PageId, contents: map<bytes, bytes>,
                 id: PageId, records: seq<Record>, r: Record)
    requires TreeOk(nodes, shape, root) && Holds(nodes, contents)
    requires id in nodes && nodes[id].Leaf? && InSpan(r.key, shape[id])
    requires forall x :: x in records <==> x == r || (x in nodes[id].records && x.key != r.key)
    ensures Holds(nodes[id := nodes[id].(records := records)], contents[r.key := r.val])
  {
    var after := nodes[id := nodes[id].(records := records)];
    var contents' := contents[r.key := r.val];
    assert HasRecord(after[id], r);
    forall k | k in contents' ensures Stored(after, Record(k, contents'[k])) {
      if k != r.key {
        var x :| x in nodes && HasRecord(nodes[x], Record(k, contents[k]));
        assert HasRecord(after[x], Record(k, contents[k]));
      }
    }
    forall x, y | x in after && HasRecord(after[x], y) ensures y.key in contents' && contents'[y.key] == y.val {
      if x != id {
        assert HasRecord(nodes[x], y);
        if y.key == r.key {
          assert NodeOk(nodes, shape, id) && NodeOk(nodes, shape, x);
          OnePageForKey(nodes, shape, root, id, x, r.key);
        }
      } else if y != r {
        assert HasRecord(nodes[id], y);
      }
    }
  }

  /** Taking the record of a key out of its leaf takes it out of the map. */
  lemma RemoveHolds(nodes: NodeMap, shape: Shape, root: PageId, contents: map<bytes, bytes>,
                    id: PageId, records: seq<Record>, key: bytes)
    requires TreeOk(nodes, shape, root) && Holds(nodes, contents)
    requires id in nodes && nodes[id].Leaf? && InSpan(key, shape[id])
    requires forall x :: x in records <==> x in nodes[id].records && x.key != key
    ensures Holds(nodes[id := nodes[id].(records := records)], contents - {key})
  {
    var after := nodes[id := nodes[id].(records := records)];
    var contents' := contents - {key};
    forall k | k in contents' ensures Stored(after, Record(k, contents'[k])) {
      var x :| x in nodes && HasRecord(nodes[x], Record(k, contents[k]));
      assert HasRecord(after[x], Record(k, contents[k]));
    }
    forall x, y | x in after && HasRecord(after[x], y) ensures y.key in contents' && contents'[y.key] == y.val {
      assert HasRecord(nodes[x], y);
      if x != id && y.key == key {
        assert NodeOk(nodes, shape, id) && NodeOk(nodes, shape, x);
        OnePageForKey(nodes, shape, root, id, x, key);
      }
    }
  }

  /** Two sets of pages store the same records. */
  ghost predicate SameRecords(nodes: NodeMap, after: NodeMap) {
    && (forall id, r {:trigger HasRecord(nodes[id], r)} :: id in nodes && HasRecord(nodes[id], r) ==> Stored(after, r))
    && (forall id, r {:trigger HasRecord(after[id], r)} :: id in after && HasRecord(after[id], r) ==> Stored(nodes, r))
  }

  lemma SameRecordsHold(nodes: NodeMap, after: NodeMap, contents: map<bytes, bytes>)
    requires Holds(nodes, contents) && SameRecords(nodes, after)
    ensures Holds(after, contents)
  {
  }

  function RecordsOf(n: Node): seq<Record> {
    if n.Leaf? then n.records else []
  }

  /** Changing links and internal pages only. */
  lemma SameRecordsPointwise(nodes: NodeMap, after: NodeMap)
    requires nodes.Keys <= after.Keys
    requires forall x {:trigger after[x]} :: x in after ==>
               RecordsOf(after[x]) == if x in nodes then RecordsOf(nodes[x]) else []
    ensures SameRecords(nodes, after)
  {
    forall id, r | id in nodes && HasRecord(nodes[id], r) ensures Stored(after, r) {
      assert r in RecordsOf(after[id]);
      assert HasRecord(after[id], r);
    }
    forall id, r | id in after && HasRecord(after[id], r) ensures Stored(nodes, r) {
      assert r in RecordsOf(after[id]);
      assert HasRecord(nodes[id], r);
    }
  }

  lemma SameRecordsTransitive(a: NodeMap, b: NodeMap, c: NodeMap)
    requires SameRecords(a, b) && SameRecords(b, c)
    ensures SameRecords(a, c)
  {
    forall id, r | id in a && HasRecord(a[id], r) ensures Stored(c, r) {
      var x :| x in b && HasRecord(b[x], r);
    }
    forall id, r | id in c && HasRecord(c[id], r) ensures Stored(a, r) {
      var x :| x in b && HasRecord(b[x], r);
    }
  }
}
