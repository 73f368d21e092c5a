/** The pages of the tree as bytes in the cache: what the tree holds in its node map and its overflow map is what is read
    through the buffer pool and, after a flush, from the file. */
module NodeStore {
  import opened Bytes
  import opened Nodes
  import opened Overflow
  import opened TreeInvariant
  import opened NodeCodec
  import Disk = Pager
  import Cache = BufferPool

  // ---- Overflow pages ----

  function OverflowBytes(p: OverflowPage): Page
    requires |p.data| == CHUNK
  {
    LE(p.next, 4) + p.data
  }

  function ReadOverflow(page: Page): OverflowPage {
    OverflowPage(FromLE(page[0..4]), page[4..])
  }

  lemma OverflowRoundTrip(p: OverflowPage)
    requires |p.data| == CHUNK && p.next < TWO_32
    ensures ReadOverflow(OverflowBytes(p)) == p
  {
    assert OverflowBytes(p)[0..4] == LE(p.next, 4) && OverflowBytes(p)[4..] == p.data;
    FromLE32(p.next);
  }

  // ---- The store ----

  ghost predicate HoldsNode(slots: map<PageId, Cache.Slot>, pages: seq<Page>, id: PageId, n: Node) {
    ReadNode(Cache.ViewOf(slots, pages, id)) == n
  }

  ghost predicate HoldsOverflow(slots: map<PageId, Cache.Slot>, pages: seq<Page>, id: PageId, p: OverflowPage) {
    ReadOverflow(Cache.ViewOf(slots, pages, id)) == p
  }

  /** The pages that the tree has are those read through the cache. */
  ghost predicate StoresIn(slots: map<PageId, Cache.Slot>, pages: seq<Page>, nodes: NodeMap, overflow: OverflowMap) {
    && nodes.Keys !! overflow.Keys && 0 !in nodes && 0 !in overflow
    && (forall id {:trigger nodes[id]} :: id in nodes ==> HoldsNode(slots, pages, id, nodes[id]))
    && (forall id {:trigger overflow[id]} :: id in overflow ==> HoldsOverflow(slots, pages, id, overflow[id]))
  }

  ghost predicate Stores(pool: Cache.BufferPool, nodes: NodeMap, overflow: OverflowMap)
    reads pool, pool.pager
  {
    StoresIn(pool.slots, pool.pager.pages, nodes, overflow)
  }

  /** Changes of the cache that show at no page of the tree but `id`. */
  lemma StillStores(slots: map<PageId, Cache.Slot>, pages: seq<Page>, slots': map<PageId, Cache.Slot>, pages': seq<Page>,
                    nodes: NodeMap, overflow: OverflowMap, id: PageId)
    requires StoresIn(slots, pages, nodes, overflow) && Cache.SameView(slots, pages, slots', pages', {0, id})
    ensures StoresIn(slots', pages', nodes - {id}, overflow - {id})
  {
    forall x | x in nodes && x != id ensures HoldsNode(slots', pages', x, nodes[x]) {
      assert HoldsNode(slots, pages, x, nodes[x]);
      assert Cache.ViewOf(slots', pages', x) == Cache.ViewOf(slots, pages, x);
    }
    forall x | x in overflow && x != id ensures HoldsOverflow(slots', pages', x, overflow[x]) {
      assert HoldsOverflow(slots, pages, x, overflow[x]);
      assert Cache.ViewOf(slots', pages', x) == Cache.ViewOf(slots, pages, x);
    }
  }

  /** Changes that show at page 0 at most. */
  lemma StoresSame(slots: map<PageId, Cache.Slot>, pages: seq<Page>, slots': map<PageId, Cache.Slot>, pages': seq<Page>,
                   nodes: NodeMap, overflow: OverflowMap)
    requires StoresIn(slots, pages, nodes, overflow) && Cache.SameView(slots, pages, slots', pages', {0})
    ensures StoresIn(slots', pages', nodes, overflow)
  {
    StillStores(slots, pages, slots', pages', nodes, overflow, 0);
    assert nodes - {0} == nodes && overflow - {0} == overflow;
  }

  lemma StoresNode(slots: map<PageId, Cache.Slot>, pages: seq<Page>, nodes: NodeMap, overflow: OverflowMap, id: PageId,
                   n: Node)
    requires StoresIn(slots, pages, nodes - {id}, overflow - {id}) && id != 0 && id !in overflow
    requires HoldsNode(slots, pages, id, n)
    ensures StoresIn(slots, pages, nodes[id := n], overflow)
  {
    assert overflow - {id} == overflow && (nodes - {id})[id := n] == nodes[id := n];
  }

  lemma StoresOverflow(slots: map<PageId, Cache.Slot>, pages: seq<Page>, nodes: NodeMap, overflow: OverflowMap,
                       id: PageId, p: OverflowPage)
    requires StoresIn(slots, pages, nodes - {id}, overflow - {id}) && id != 0 && id !in nodes
    requires HoldsOverflow(slots, pages, id, p)
    ensures StoresIn(slots, pages, nodes, overflow[id := p])
  {
    assert nodes - {id} == nodes && (overflow - {id})[id := p] == overflow[id := p];
  }

  /** `write_node`: fails exactly if the node is larger than a page; otherwise the page then holds the node. */
  method StoreNode(pool: Cache.BufferPool, id: PageId, n: Node, ghost nodes: NodeMap, ghost overflow: OverflowMap)
    returns (ok: bool)
    requires pool.Valid() && Stores(pool, nodes, overflow) && 0 < id < U32_MAX && id !in overflow
    requires Fits(n) ==> Encodable(n)
    modifies pool, pool.pager
    ensures pool.Valid() && ok == Fits(n)
    ensures Stores(pool, if ok then nodes[id := n] else nodes, overflow)
  {
    var page := ToPage(n);
    ok := page.Ok?;
    if ok {
      RoundTrip(n);
      StorePage(pool, id, page.value, n, nodes, overflow);
    }
  }

  method StorePage(pool: Cache.BufferPool, id: PageId, page: Page, ghost n: Node, ghost nodes: NodeMap,
                   ghost overflow: OverflowMap)
    requires pool.Valid() && Stores(pool, nodes, overflow) && 0 < id < U32_MAX && id !in overflow && ReadNode(page) == n
    modifies pool, pool.pager
    ensures pool.Valid() && Stores(pool, nodes[id := n], overflow)
  {
    pool.WritePage(id, page);
    StillStores(old(pool.slots), old(pool.pager.pages), pool.slots, pool.pager.pages, nodes, overflow, id);
    StoresNode(pool.slots, pool.pager.pages, nodes, overflow, id, n);
  }

  /** `read_node`. */
  method FetchNode(pool: Cache.BufferPool, id: PageId, ghost nodes: NodeMap, ghost overflow: OverflowMap) returns (n: Node)
    requires pool.Valid() && Stores(pool, nodes, overflow) && id in nodes
    modifies pool, pool.pager
    ensures pool.Valid() && n == nodes[id] && Stores(pool, nodes, overflow)
  {
    assert HoldsNode(pool.slots, pool.pager.pages, id, nodes[id]);
    var page := pool.FetchPage(id);
    StoresSame(old(pool.slots), old(pool.pager.pages), pool.slots, pool.pager.pages, nodes, overflow);
    n := FromPage(page);
  }

  /** The link and the data of an overflow page. */
  method FetchOverflow(pool: Cache.BufferPool, id: PageId, ghost nodes: NodeMap, ghost overflow: OverflowMap)
    returns (p: OverflowPage)
    requires pool.Valid() && Stores(pool, nodes, overflow) && id in overflow
    modifies pool, pool.pager
    ensures pool.Valid() && p == overflow[id] && Stores(pool, nodes, overflow)
  {
    assert HoldsOverflow(pool.slots, pool.pager.pages, id, overflow[id]);
    var page := pool.FetchPage(id);
    StoresSame(old(pool.slots), old(pool.pager.pages), pool.slots, pool.pager.pages, nodes, overflow);
    p := ReadOverflow(page);
  }

  /** One round of `write_overflow_value`: the page gets the link and the chunk, and is blank behind it. */
  method StoreChunk(pool: Cache.BufferPool, id: PageId, next: PageId, chunk: bytes, ghost nodes: NodeMap,
                    ghost overflow: OverflowMap)
    requires pool.Valid() && Stores(pool, nodes, overflow) && 0 < id < U32_MAX && id !in nodes
    requires next < TWO_32 && |chunk| <= CHUNK
    modifies pool, pool.pager
    ensures pool.Valid()
    ensures Stores(pool, nodes, overflow[id := OverflowPage(next, chunk + seq(CHUNK - |chunk|, _ => 0))])
  {
    ghost var p := OverflowPage(next, chunk + seq(CHUNK - |chunk|, _ => 0));
    var page := Splice(Splice(Disk.Blank(), 0, LE(next, 4)), 4, chunk);
    assert page == OverflowBytes(p);
    OverflowRoundTrip(p);
    pool.WritePage(id, page);
    StillStores(old(pool.slots), old(pool.pager.pages), pool.slots, pool.pager.pages, nodes, overflow, id);
    StoresOverflow(pool.slots, pool.pager.pages, nodes, overflow, id, p);
  }

  /** `flush_all`: afterwards the file holds the tree. */
  method FlushStore(pool: Cache.BufferPool, ghost nodes: NodeMap, ghost overflow: OverflowMap)
    requires pool.Valid() && Stores(pool, nodes, overflow)
    modifies pool, pool.pager
    ensures pool.Valid() && Stores(pool, nodes, overflow)
    ensures forall id {:trigger nodes[id]} :: id in nodes ==> ReadNode(Disk.ReadFrom(pool.pager.pages, id)) == nodes[id]
    ensures forall id {:trigger overflow[id]} :: id in overflow ==>
              ReadOverflow(Disk.ReadFrom(pool.pager.pages, id)) == overflow[id]
  {
    pool.FlushAll();
    StoresSame(old(pool.slots), old(pool.pager.pages), pool.slots, pool.pager.pages, nodes, overflow);
    OnDisk(pool.slots, pool.pager.pages, nodes, overflow);
  }

  lemma OnDisk(slots: map<PageId, Cache.Slot>, pages: seq<Page>, nodes: NodeMap, overflow: OverflowMap)
    requires StoresIn(slots, pages, nodes, overflow)
    requires forall id: PageId {:trigger Disk.ReadFrom(pages, id)} :: id != 0 ==>
               Disk.ReadFrom(pages, id) == Cache.ViewOf(slots, pages, id)
    ensures forall id {:trigger nodes[id]} :: id in nodes ==> ReadNode(Disk.ReadFrom(pages, id)) == nodes[id]
    ensures forall id {:trigger overflow[id]} :: id in overflow ==> ReadOverflow(Disk.ReadFrom(pages, id)) == overflow[id]
  {
    forall id | id in nodes ensures ReadNode(Disk.ReadFrom(pages, id)) == nodes[id] {
      assert HoldsNode(slots, pages, id, nodes[id]);
    }
    forall id | id in overflow ensures ReadOverflow(Disk.ReadFrom(pages, id)) == overflow[id] {
      assert HoldsOverflow(slots, pages, id, overflow[id]);
    }
  }
}
