/** The page format of B+ tree nodes. */
module NodeCodec {
  import opened Common
  import opened Bytes
  import opened Nodes
  import opened PageAllocator

  const NODE_TYPE_LEAF: byte := 0
  const NODE_TYPE_INTERNAL: byte := 1

  // ---- The format ----

  /** A 4-byte page link; no page is all ones. */
  function LinkBytes(id: Option<PageId>): bytes {
    LE(if id.Some? then id.value else NO_PAGE, 4)
  }

  function RecordBytes(r: Record): (b: bytes)
    ensures |b| == RecordCost(r)
  {
    Field(r.key) + Field(r.val)
  }

  function RecordsBytes(rs: seq<Record>): bytes {
    if rs == [] then [] else RecordBytes(rs[0]) + RecordsBytes(rs[1..])
  }

  function KeysBytes(ks: seq<bytes>): bytes {
    if ks == [] then [] else Field(ks[0]) + KeysBytes(ks[1..])
  }

  function ChildrenBytes(cs: seq<PageId>): bytes {
    if cs == [] then [] else LE(cs[0], 4) + ChildrenBytes(cs[1..])
  }

  function HeaderBytes(n: Node): bytes {
    match n
    case Leaf(parent, next, records) => [NODE_TYPE_LEAF] + LE(|records|, 2) + LinkBytes(parent) + LinkBytes(next)
    case Internal(parent, keys, _) => [NODE_TYPE_INTERNAL] + LE(|keys|, 2) + LinkBytes(parent)
  }

  function NodeBytes(n: Node): bytes {
    match n
    case Leaf(_, _, records) => HeaderBytes(n) + RecordsBytes(records)
    case Internal(_, keys, children) => HeaderBytes(n) + ChildrenBytes(children) + KeysBytes(keys)
  }

  /** `e` at the start of an otherwise blank page. */
  function Padded(e: bytes): Page
    requires |e| <= PAGE_SIZE
  {
    e + seq(PAGE_SIZE - |e|, _ => 0)
  }

  /** What a node must satisfy for its page to hold it: links are 32-bit ids, and an internal node has one child
      more than keys. */
  predicate Encodable(n: Node) {
    && Fits(n)
    && (n.parent.Some? ==> n.parent.value < NO_PAGE)
    && (n.Leaf? && n.next.Some? ==> n.next.value < NO_PAGE)
    && (n.Internal? ==> |n.children| == |n.keys| + 1 && forall i :: 0 <= i < |n.children| ==> n.children[i] < TWO_32)
  }

  // ---- Reading ----

  /** The record at offset `off` and the offset after it; none if it does not fit the page. */
  function RecordAt(page: Page, off: nat): (r: Option<(Record, nat)>)
    requires off <= PAGE_SIZE
    ensures r.Some? ==> r.value.1 <= PAGE_SIZE
  {
    if off + 4 > PAGE_SIZE then None
    else
      var klen := FromLE(page[off..off + 4]);
      var o1 := off + 4;
      if o1 + klen > PAGE_SIZE || o1 + klen + 4 > PAGE_SIZE then None
      else
        var o2 := o1 + klen;
        var vlen := FromLE(page[o2..o2 + 4]);
        var o3 := o2 + 4;
        if o3 + vlen > PAGE_SIZE then None
        else Some((Record(page[o1..o2], page[o3..o3 + vlen]), o3 + vlen))
  }

  /** Up to `count` records from offset `off` on, ending early at a record that does not fit the page. */
  function ReadRecords(page: Page, off: nat, count: nat): seq<Record>
    requires off <= PAGE_SIZE
    decreases count
  {
    if count == 0 then []
    else match RecordAt(page, off)
      case None => []
      case Some((r, next)) => [r] + ReadRecords(page, next, count - 1)
  }

  function ReadChildren(page: Page, off: nat, count: nat): (cs: seq<PageId>)
    requires off <= PAGE_SIZE
    ensures off + 4 * |cs| <= PAGE_SIZE
    decreases count
  {
    if count == 0 || off + 4 > PAGE_SIZE then []
    else [FromLE(page[off..off + 4])] + ReadChildren(page, off + 4, count - 1)
  }

  function ReadKeys(page: Page, off: nat, count: nat): seq<bytes>
    requires off <= PAGE_SIZE
    decreases count
  {
    if count == 0 || off + 4 > PAGE_SIZE then []
    else
      var klen := FromLE(page[off..off + 4]);
      var o1 := off + 4;
      if o1 + klen > PAGE_SIZE then []
      else [page[o1..o1 + klen]] + ReadKeys(page, o1 + klen, count - 1)
  }

  function ReadLink(page: Page, off: nat): Option<PageId>
    requires off + 4 <= PAGE_SIZE
  {
    var id := FromLE(page[off..off + 4]);
    if id == NO_PAGE then None else Some(id)
  }

  /** The node a page holds; every page holds one. */
  function ReadNode(page: Page): Node {
    var count := FromLE(page[1..3]);
    if page[0] == NODE_TYPE_LEAF then Leaf(ReadLink(page, 3), ReadLink(page, 7), ReadRecords(page, 11, count))
    else ReadInternal(page, count, ReadLink(page, 3))
  }

  function ReadInternal(page: Page, count: nat, parent: Option<PageId>): Node {
    ReadSeparators(page, ReadChildren(page, 7, count + 1), count, parent)
  }

  function ReadSeparators(page: Page, children: seq<PageId>, count: nat, parent: Option<PageId>): Node
    requires 7 + 4 * |children| <= PAGE_SIZE
  {
    Internal(parent, ReadKeys(page, 7 + 4 * |children|, count), children)
  }

  /** `from_page`: reads the fields one after the other, without ever reading outside the page. */
  method FromPage(page: Page) returns (n: Node)
    ensures n == ReadNode(page)
  {
    var count := FromLE(page[1..3]);
    var parent := ReadLink(page, 3);
    if page[0] == NODE_TYPE_LEAF {
      var next := ReadLink(page, 7);
      var records := RecordsFrom(page, 11, count);
      n := Leaf(parent, next, records);
    } else {
      var children := ChildrenFrom(page, 7, count + 1);
      var keys := KeysFrom(page, 7 + 4 * |children|, count);
      n := Internal(parent, keys, children);
    }
  }

  lemma NextRead<T>(done: seq<T>, x: T, rest: seq<T>)
    ensures (done + [x]) + rest == done + ([x] + rest)
  {
  }

  method RecordsFrom(page: Page, off: nat, count: nat) returns (records: seq<Record>)
    requires off <= PAGE_SIZE
    ensures records == ReadRecords(page, off, count)
  {
    records := [];
    var offset: nat, i: nat := off, 0;
    while i < count
      invariant i <= count && offset <= PAGE_SIZE
      invariant records + ReadRecords(page, offset, count - i) == ReadRecords(page, off, count)
    {
      var next := RecordFrom(page, offset);
      if next.None? { break; }
      var (r, after) := next.value;
      NextRead(records, r, ReadRecords(page, after, count - i - 1));
      records, offset, i := records + [r], after, i + 1;
    }
  }

  method RecordFrom(page: Page, offset: nat) returns (r: Option<(Record, nat)>)
    requires offset <= PAGE_SIZE
    ensures r == RecordAt(page, offset)
  {
    if offset + 4 > PAGE_SIZE { return None; }
    var klen := FromLE(page[offset..offset + 4]);
    var o1 := offset + 4;
    if o1 + klen > PAGE_SIZE { return None; }
    var key := page[o1..o1 + klen];
    var o2 := o1 + klen;
    if o2 + 4 > PAGE_SIZE { return None; }
    var vlen := FromLE(page[o2..o2 + 4]);
    var o3 := o2 + 4;
    if o3 + vlen > PAGE_SIZE { return None; }
    return Some((Record(key, page[o3..o3 + vlen]), o3 + vlen));
  }

  method ChildrenFrom(page: Page, off: nat, count: nat) returns (children: seq<PageId>)
    requires off <= PAGE_SIZE
    ensures children == ReadChildren(page, off, count)
  {
    children := [];
    var offset: nat, i: nat := off, 0;
    while i < count
      invariant i <= count && offset <= PAGE_SIZE
      invariant children + ReadChildren(page, offset, count - i) == ReadChildren(page, off, count)
    {
      if offset + 4 > PAGE_SIZE { break; }
      var child := FromLE(page[offset..offset + 4]);
      children, offset, i := children + [child], offset + 4, i + 1;
    }
  }

  method KeysFrom(page: Page, off: nat, count: nat) returns (keys: seq<bytes>)
    requires off <= PAGE_SIZE
    ensures keys == ReadKeys(page, off, count)
  {
    keys := [];
    var offset: nat, i: nat := off, 0;
    while i < count
      invariant i <= count && offset <= PAGE_SIZE
      invariant keys + ReadKeys(page, offset, count - i) == ReadKeys(page, off, count)
    {
      if offset + 4 > PAGE_SIZE { break; }
      var klen := FromLE(page[offset..offset + 4]);
      var o1 := offset + 4;
      if o1 + klen > PAGE_SIZE { break; }
      var key := page[o1..o1 + klen];
      keys, offset, i := keys + [key], o1 + klen, i + 1;
    }
  }

  // ---- Writing ----

  lemma SplicePadded(e: bytes, b: bytes)
    requires |e| + |b| <= PAGE_SIZE
    ensures Splice(Padded(e), |e|, b) == Padded(e + b)
  {
  }

  lemma {:induction false} RecordsBytesSize(rs: seq<Record>)
    ensures |RecordsBytes(rs)| == Sum(RecordCosts(rs))
  {
    if rs != [] {
      RecordsBytesSize(rs[1..]);
      SumConcat([RecordCost(rs[0])], RecordCosts(rs[1..]));
      assert RecordCosts(rs) == [RecordCost(rs[0])] + RecordCosts(rs[1..]);
      assert Sum([RecordCost(rs[0])]) == Sum([]) + RecordCost(rs[0]);
    }
  }

  lemma {:induction false} KeysBytesSize(ks: seq<bytes>)
    ensures |KeysBytes(ks)| == Sum(KeyCosts(ks, 0))
  {
    if ks != [] {
      KeysBytesSize(ks[1..]);
      SumConcat([4 + |ks[0]|], KeyCosts(ks[1..], 0));
      assert KeyCosts(ks, 0) == [4 + |ks[0]|] + KeyCosts(ks[1..], 0);
      assert Sum([4 + |ks[0]|]) == Sum([]) + 4 + |ks[0]|;
    }
  }

  lemma {:induction false} ChildrenBytesSize(cs: seq<PageId>)
    ensures |ChildrenBytes(cs)| == 4 * |cs|
  {
    if cs != [] {
      ChildrenBytesSize(cs[1..]);
    }
  }

  /** `encoded_size` is the length of the encoding. */
  lemma NodeBytesSize(n: Node)
    ensures |NodeBytes(n)| == SizeOf(n)
  {
    match n
    case Leaf(_, _, records) => RecordsBytesSize(records);
    case Internal(_, keys, children) => KeysBytesSize(keys); ChildrenBytesSize(children);
  }

  lemma {:induction false} RecordsBytesAppend(rs: seq<Record>, r: Record)
    ensures RecordsBytes(rs + [r]) == RecordsBytes(rs) + RecordBytes(r)
  {
    if rs == [] {
      assert rs + [r] == [r];
      assert RecordsBytes([r][1..]) == [];
    } else {
      RecordsBytesAppend(rs[1..], r);
      assert (rs + [r])[1..] == rs[1..] + [r];
    }
  }

  lemma {:induction false} KeysBytesAppend(ks: seq<bytes>, k: bytes)
    ensures KeysBytes(ks + [k]) == KeysBytes(ks) + Field(k)
  {
    if ks == [] {
      assert ks + [k] == [k];
      assert KeysBytes([k][1..]) == [];
    } else {
      KeysBytesAppend(ks[1..], k);
      assert (ks + [k])[1..] == ks[1..] + [k];
    }
  }

  lemma {:induction false} ChildrenBytesAppend(cs: seq<PageId>, c: PageId)
    ensures ChildrenBytes(cs + [c]) == ChildrenBytes(cs) + LE(c, 4)
  {
    if cs == [] {
      assert cs + [c] == [c];
      assert ChildrenBytes([c][1..]) == [];
    } else {
      ChildrenBytesAppend(cs[1..], c);
      assert (cs + [c])[1..] == cs[1..] + [c];
    }
  }

  lemma {:induction false} RecordsBytesPrefix(rs: seq<Record>, i: nat)
    requires i <= |rs|
    ensures |RecordsBytes(rs[..i])| <= |RecordsBytes(rs)|
    decreases |rs| - i
  {
    if i == |rs| {
      assert rs[..i] == rs;
    } else {
      assert rs[..i + 1] == rs[..i] + [rs[i]];
      RecordsBytesAppend(rs[..i], rs[i]);
      RecordsBytesPrefix(rs, i + 1);
    }
  }

  lemma {:induction false} KeysBytesPrefix(ks: seq<bytes>, i: nat)
    requires i <= |ks|
    ensures |KeysBytes(ks[..i])| <= |KeysBytes(ks)|
    decreases |ks| - i
  {
    if i == |ks| {
      assert ks[..i] == ks;
    } else {
      assert ks[..i + 1] == ks[..i] + [ks[i]];
      KeysBytesAppend(ks[..i], ks[i]);
      KeysBytesPrefix(ks, i + 1);
    }
  }

  /** Writes `b` at `offset` of a page that so far holds `e`. */
  method Put(page: Page, offset: nat, b: bytes, ghost e: bytes) returns (page': Page, offset': nat)
    requires offset == |e| && |e| + |b| <= PAGE_SIZE && page == Padded(e)
    ensures page' == Padded(e + b) && offset' == |e + b|
  {
    SplicePadded(e, b);
    page', offset' := Splice(page, offset, b), offset + |b|;
  }

  /** Writes a length field and the bytes. */
  method PutField(page: Page, offset: nat, k: bytes, ghost e: bytes) returns (page': Page, offset': nat)
    requires offset == |e| && |e| + 4 + |k| <= PAGE_SIZE && page == Padded(e)
    ensures page' == Padded(e + Field(k)) && offset' == |e + Field(k)|
  {
    page', offset' := Put(page, offset, LE(|k|, 4), e);
    page', offset' := Put(page', offset', k, e + LE(|k|, 4));
    AppendAssociative(e, LE(|k|, 4), k);
  }

  /** `to_page`: fails exactly on a node larger than a page, and otherwise writes its encoding within bounds. */
  method ToPage(n: Node) returns (r: Result<Page, ()>)
    ensures r.Ok? == Fits(n)
    ensures r.Ok? ==> |NodeBytes(n)| <= PAGE_SIZE && r.value == Padded(NodeBytes(n))
  {
    var size := EncodedSize(n);
    if size > PAGE_SIZE {
      return Err(());
    }
    NodeBytesSize(n);
    var page: Page, offset := seq(PAGE_SIZE, _ => 0), 0;
    assert page == Padded([]);
    page, offset := Put(page, offset, HeaderBytes(n), []);
    assert [] + HeaderBytes(n) == HeaderBytes(n);
    if n.Leaf? {
      page := PutRecords(page, offset, n.records, HeaderBytes(n));
    } else {
      ChildrenBytesSize(n.children);
      page, offset := PutChildren(page, offset, n.children, HeaderBytes(n));
      page := PutKeys(page, offset, n.keys, HeaderBytes(n) + ChildrenBytes(n.children));
    }
    return Ok(page);
  }

  method PutRecords(page0: Page, offset0: nat, records: seq<Record>, ghost e: bytes) returns (page: Page)
    requires offset0 == |e| && |e| + |RecordsBytes(records)| <= PAGE_SIZE && page0 == Padded(e)
    ensures page == Padded(e + RecordsBytes(records))
  {
    page := page0;
    var offset := offset0;
    assert e + RecordsBytes(records[..0]) == e;
    for i := 0 to |records|
      invariant |e + RecordsBytes(records[..i])| == offset <= PAGE_SIZE
      invariant page == Padded(e + RecordsBytes(records[..i]))
    {
      var key, val := records[i].key, records[i].val;
      assert records[..i + 1] == records[..i] + [records[i]];
      RecordsBytesAppend(records[..i], records[i]);
      RecordsBytesPrefix(records, i + 1);
      ghost var e0 := e + RecordsBytes(records[..i]);
      page, offset := PutField(page, offset, key, e0);
      page, offset := PutField(page, offset, val, e0 + Field(key));
      AppendAssociative(e0, Field(key), Field(val));
      AppendAssociative(e, RecordsBytes(records[..i]), RecordBytes(records[i]));
    }
    assert records[..|records|] == records;
  }

  method PutChildren(page0: Page, offset0: nat, children: seq<PageId>, ghost e: bytes) returns (page: Page, offset: nat)
    requires offset0 == |e| && |e| + 4 * |children| <= PAGE_SIZE && page0 == Padded(e)
    ensures |e + ChildrenBytes(children)| == offset <= PAGE_SIZE && page == Padded(e + ChildrenBytes(children))
  {
    page, offset := page0, offset0;
    assert e + ChildrenBytes(children[..0]) == e;
    for i := 0 to |children|
      invariant |e + ChildrenBytes(children[..i])| == offset == |e| + 4 * i
      invariant page == Padded(e + ChildrenBytes(children[..i]))
    {
      assert children[..i + 1] == children[..i] + [children[i]];
      ChildrenBytesAppend(children[..i], children[i]);
      ghost var e0 := e + ChildrenBytes(children[..i]);
      page, offset := Put(page, offset, LE(children[i], 4), e0);
      AppendAssociative(e, ChildrenBytes(children[..i]), LE(children[i], 4));
    }
    assert children[..|children|] == children;
  }

  method PutKeys(page0: Page, offset0: nat, keys: seq<bytes>, ghost e: bytes) returns (page: Page)
    requires offset0 == |e| && |e| + |KeysBytes(keys)| <= PAGE_SIZE && page0 == Padded(e)
    ensures page == Padded(e + KeysBytes(keys))
  {
    page := page0;
    var offset := offset0;
    assert e + KeysBytes(keys[..0]) == e;
    for i := 0 to |keys|
      invariant |e + KeysBytes(keys[..i])| == offset <= PAGE_SIZE
      invariant page == Padded(e + KeysBytes(keys[..i]))
    {
      assert keys[..i + 1] == keys[..i] + [keys[i]];
      KeysBytesAppend(keys[..i], keys[i]);
      KeysBytesPrefix(keys, i + 1);
      ghost var e0 := e + KeysBytes(keys[..i]);
      page, offset := PutField(page, offset, keys[i], e0);
      AppendAssociative(e, KeysBytes(keys[..i]), Field(keys[i]));
    }
    assert keys[..|keys|] == keys;
  }

  // ---- Round trip ----

  /** A length field followed by that many bytes. */
  lemma {:induction false} ReadRecordsBack(page: Page, off: nat, rs: seq<Record>)
    requires HoldsAt(page, off, RecordsBytes(rs))
    ensures ReadRecords(page, off, |rs|) == rs
    decreases |rs|
  {
    if rs != [] {
      HoldsSplit(page, off, RecordBytes(rs[0]), RecordsBytes(rs[1..]));
      RecordBack(page, off, rs[0].key, rs[0].val);
      ReadRecordsBack(page, off + RecordCost(rs[0]), rs[1..]);
      assert rs == [rs[0]] + rs[1..];
    }
  }

  lemma RecordBack(page: Page, off: nat, k: bytes, v: bytes)
    requires HoldsAt(page, off, Field(k) + Field(v))
    ensures RecordAt(page, off) == Some((Record(k, v), off + 8 + |k| + |v|))
  {
    HoldsSplit(page, off, Field(k), Field(v));
    FieldHeld(page, off, k);
    FieldHeld(page, off + 4 + |k|, v);
    ReadOneRecord(page, off, k, v);
  }

  lemma ReadOneRecord(page: Page, off: nat, k: bytes, v: bytes)
    requires off + 4 + |k| + 4 + |v| <= PAGE_SIZE
    requires FromLE(page[off..off + 4]) == |k| && page[off + 4..off + 4 + |k|] == k
    requires FromLE(page[off + 4 + |k|..off + 4 + |k| + 4]) == |v|
    requires page[off + 4 + |k| + 4..off + 4 + |k| + 4 + |v|] == v
    ensures RecordAt(page, off) == Some((Record(k, v), off + 8 + |k| + |v|))
  {
  }

  lemma {:induction false} ReadKeysBack(page: Page, off: nat, ks: seq<bytes>)
    requires HoldsAt(page, off, KeysBytes(ks))
    ensures ReadKeys(page, off, |ks|) == ks
    decreases |ks|
  {
    if ks != [] {
      HoldsSplit(page, off, Field(ks[0]), KeysBytes(ks[1..]));
      FieldHeld(page, off, ks[0]);
      ReadKeysBack(page, off + |Field(ks[0])|, ks[1..]);
      assert ks == [ks[0]] + ks[1..];
    }
  }

  lemma {:induction false} ReadChildrenBack(page: Page, off: nat, cs: seq<PageId>)
    requires HoldsAt(page, off, ChildrenBytes(cs))
    requires forall i :: 0 <= i < |cs| ==> cs[i] < TWO_32
    ensures ReadChildren(page, off, |cs|) == cs
    decreases |cs|
  {
    if cs != [] {
      HoldsSplit(page, off, LE(cs[0], 4), ChildrenBytes(cs[1..]));
      FromLE32(cs[0]);
      ReadChildrenBack(page, off + 4, cs[1..]);
    }
  }

  lemma ReadLinkBack(page: Page, off: nat, id: Option<PageId>)
    requires HoldsAt(page, off, LinkBytes(id)) && (id.Some? ==> id.value < NO_PAGE)
    ensures ReadLink(page, off) == id
  {
    FromLE32(if id.Some? then id.value else NO_PAGE);
  }

  /** A node that fits has fewer entries than a 16-bit count can hold. */
  lemma CountFits(n: Node)
    requires Fits(n)
    ensures n.Leaf? ==> |n.records| < 0x1_0000
    ensures n.Internal? ==> |n.keys| < 0x1_0000
  {
    match n
    case Leaf(_, _, records) =>
      if |records| > 0 { SumBounds(RecordCosts(records), 1, PAGE_SIZE + Sum(RecordCosts(records))) by { CostsBelowSum(RecordCosts(records)); } }
    case Internal(_, keys, _) =>
      if |keys| > 0 { SumBounds(KeyCosts(keys, 0), 1, PAGE_SIZE + Sum(KeyCosts(keys, 0))) by { CostsBelowSum(KeyCosts(keys, 0)); } }
  }

  lemma {:induction false} CostsBelowSum(costs: seq<nat>)
    ensures forall i :: 0 <= i < |costs| ==> costs[i] <= Sum(costs)
  {
    if costs != [] {
      CostsBelowSum(costs[..|costs| - 1]);
    }
  }

  lemma ReadHeaderBack(page: Page, t: byte, count: nat, parent: Option<PageId>, rest: bytes)
    requires HoldsAt(page, 0, [t] + LE(count, 2) + LinkBytes(parent) + rest)
    requires count < 0x1_0000 && (parent.Some? ==> parent.value < NO_PAGE)
    ensures page[0] == t && FromLE(page[1..3]) == count && ReadLink(page, 3) == parent
    ensures HoldsAt(page, 7, rest)
  {
    HoldsSplit(page, 0, [t] + LE(count, 2) + LinkBytes(parent), rest);
    HoldsSplit(page, 0, [t] + LE(count, 2), LinkBytes(parent));
    HoldsSplit(page, 0, [t], LE(count, 2));
    assert page[0] == page[0..1][0];
    FromLE16(count);
    ReadLinkBack(page, 3, parent);
  }

  lemma LeafRoundTrip(page: Page, n: Node)
    requires n.Leaf? && Encodable(n) && HoldsAt(page, 0, NodeBytes(n))
    ensures ReadNode(page) == n
  {
    CountFits(n);
    var header, next, rest := [NODE_TYPE_LEAF] + LE(|n.records|, 2) + LinkBytes(n.parent), LinkBytes(n.next), RecordsBytes(n.records);
    AppendAssociative(header, next, rest);
    ReadHeaderBack(page, NODE_TYPE_LEAF, |n.records|, n.parent, next + rest);
    HoldsSplit(page, 7, next, rest);
    ReadLinkBack(page, 7, n.next);
    ReadRecordsBack(page, 11, n.records);
  }

  lemma InternalRoundTrip(page: Page, n: Node)
    requires n.Internal? && Encodable(n) && HoldsAt(page, 0, NodeBytes(n))
    ensures ReadNode(page) == n
  {
    CountFits(n);
    var kids, keys := ChildrenBytes(n.children), KeysBytes(n.keys);
    AppendAssociative(HeaderBytes(n), kids, keys);
    ChildrenBytesSize(n.children);
    InternalParts(page, n.parent, n.keys, n.children, kids + keys);
  }

  lemma InternalParts(page: Page, parent: Option<PageId>, keys: seq<bytes>, children: seq<PageId>, body: bytes)
    requires HoldsAt(page, 0, [NODE_TYPE_INTERNAL] + LE(|keys|, 2) + LinkBytes(parent) + body)
    requires |keys| < 0x1_0000 && (parent.Some? ==> parent.value < NO_PAGE) && |children| == |keys| + 1
    requires body == ChildrenBytes(children) + KeysBytes(keys) && |ChildrenBytes(children)| == 4 * |children|
    requires forall i :: 0 <= i < |children| ==> children[i] < TWO_32
    ensures ReadNode(page) == Internal(parent, keys, children)
  {
    ReadHeaderBack(page, NODE_TYPE_INTERNAL, |keys|, parent, body);
    InternalBody(page, children, keys, parent);
  }

  lemma InternalBody(page: Page, children: seq<PageId>, keys: seq<bytes>, parent: Option<PageId>)
    requires HoldsAt(page, 7, ChildrenBytes(children) + KeysBytes(keys)) && |ChildrenBytes(children)| == 4 * |children|
    requires |children| == |keys| + 1 && forall i :: 0 <= i < |children| ==> children[i] < TWO_32
    ensures ReadInternal(page, |keys|, parent) == Internal(parent, keys, children)
  {
    ReadBodyBack(page, 7, children, keys, 7 + 4 * |children|);
    SeparatorsFirst(page, children, keys, parent);
    ChildrenFirst(page, children, |keys|, parent);
  }

  lemma SeparatorsFirst(page: Page, children: seq<PageId>, keys: seq<bytes>, parent: Option<PageId>)
    requires 7 + 4 * |children| <= PAGE_SIZE && ReadKeys(page, 7 + 4 * |children|, |keys|) == keys
    ensures ReadSeparators(page, children, |keys|, parent) == Internal(parent, keys, children)
  {
  }

  lemma ChildrenFirst(page: Page, children: seq<PageId>, count: nat, parent: Option<PageId>)
    requires |children| == count + 1 && ReadChildren(page, 7, |children|) == children
    ensures 7 + 4 * |children| <= PAGE_SIZE
    ensures ReadInternal(page, count, parent) == ReadSeparators(page, children, count, parent)
  {
  }

  lemma ReadBodyBack(page: Page, off: nat, children: seq<PageId>, keys: seq<bytes>, next: nat)
    requires HoldsAt(page, off, ChildrenBytes(children) + KeysBytes(keys)) && next == off + |ChildrenBytes(children)|
    requires forall i :: 0 <= i < |children| ==> children[i] < TWO_32
    ensures off <= PAGE_SIZE && ReadChildren(page, off, |children|) == children
    ensures next <= PAGE_SIZE && ReadKeys(page, next, |keys|) == keys
  {
    HoldsSplit(page, off, ChildrenBytes(children), KeysBytes(keys));
    ReadChildrenBack(page, off, children);
    ReadKeysBack(page, next, keys);
  }

  /** Reading a written page gives back the node. */
  lemma RoundTrip(n: Node)
    requires Encodable(n)
    ensures |NodeBytes(n)| <= PAGE_SIZE && ReadNode(Padded(NodeBytes(n))) == n
  {
    NodeBytesSize(n);
    var page := Padded(NodeBytes(n));
    assert HoldsAt(page, 0, NodeBytes(n));
    if n.Leaf? {
      LeafRoundTrip(page, n);
    } else {
      InternalRoundTrip(page, n);
    }
  }
}
