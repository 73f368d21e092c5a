/** Values too large for a leaf, stored as a chain of overflow pages behind a 12-byte handle. */
module Overflow {
  import opened Common
  import opened Bytes
  import opened Nodes
  import opened PageAllocator

  /** What an overflow page holds after its 4-byte link. */
  const CHUNK: nat := PAGE_SIZE - 4

  /** "OVRF" */
  const MAGIC: bytes := [0x4F, 0x56, 0x52, 0x46]

  datatype OverflowPage = OverflowPage(next: PageId, data: bytes)
  type OverflowMap = map<PageId, OverflowPage>

  predicate IsHandle(v: bytes) {
    |v| == 12 && v[..4] == MAGIC
  }

  function Handle(length: nat, first: PageId): (h: bytes)
    ensures IsHandle(h)
  {
    var h := MAGIC + LE(length, 4) + LE(first, 4);
    assert h[..4] == MAGIC;
    h
  }

  function HandleLength(h: bytes): nat
    requires IsHandle(h)
  {
    FromLE(h[4..8])
  }

  function HandlePage(h: bytes): PageId
    requires IsHandle(h)
  {
    FromLE(h[8..12])
  }

  /** A handle without a first page. No overflow value is stored this way, but a short value may look like it. */
  predicate LeadsNowhere(h: bytes) {
    IsHandle(h) && HandlePage(h) == NO_PAGE
  }

  /** The length field of a handle has 32 bits. */
  lemma HandleFields(length: nat, first: PageId)
    requires first < TWO_32
    ensures HandleLength(Handle(length, first)) == length % TWO_32
    ensures HandlePage(Handle(length, first)) == first
  {
    var h := Handle(length, first);
    assert h[4..8] == LE(length, 4) && h[8..12] == LE(first, 4);
    FromLE32(length);
    FromLE32(first);
  }

  function Min(a: nat, b: nat): nat {
    if a < b then a else b
  }

  function ChunkCount(v: bytes): nat {
    (|v| + CHUNK - 1) / CHUNK
  }

  /** How many pages outside the tree a value takes. */
  function OverflowPages(v: bytes): nat {
    if |v| <= MAX_INLINE_VAL_SIZE then 0 else ChunkCount(v)
  }

  /** The `i`-th chunk of a value; the last one may be short, and those past it are empty. */
  function Chunk(v: bytes, i: nat): bytes {
    v[Min(CHUNK * i, |v|)..Min(CHUNK * i + CHUNK, |v|)]
  }

  /** What reading back a stored value gives: a value of 4 GiB or more loses the part its handle's length
      field cannot count. */
  function Kept(v: bytes): bytes {
    v[..|v| % TWO_32]
  }

  lemma KeptShort(v: bytes)
    requires |v| < TWO_32
    ensures Kept(v) == v
  {
  }

  function Link(chain: seq<PageId>, j: nat): PageId {
    if j < |chain| then chain[j] else NO_PAGE
  }

  /** Page `j` of the chain links to the next one and starts with chunk `from + j` of the value. */
  ghost predicate PageHolds(pages: OverflowMap, chain: seq<PageId>, v: bytes, from: nat, j: nat)
    requires j < |chain|
  {
    && chain[j] in pages
    && chain[j] < NO_PAGE
    && pages[chain[j]].next == Link(chain, j + 1)
    && |pages[chain[j]].data| == CHUNK
    && Chunk(v, from + j) <= pages[chain[j]].data
  }

  ghost predicate ChainFrom(pages: OverflowMap, chain: seq<PageId>, v: bytes, from: nat) {
    forall j {:trigger PageHolds(pages, chain, v, from, j)} :: 0 <= j < |chain| ==> PageHolds(pages, chain, v, from, j)
  }

  /** The chain behind a handle stores the value. */
  ghost predicate ChainHolds(pages: OverflowMap, handle: bytes, chain: seq<PageId>, v: bytes) {
    && IsHandle(handle)
    && chain != [] && Distinct(chain)
    && HandlePage(handle) == chain[0]
    && HandleLength(handle) == |v| <= CHUNK * |chain|
    && ChainFrom(pages, chain, v, 0)
  }

  ghost function PagesOf(chain: seq<PageId>): set<PageId> {
    set p | p in chain
  }

  /** A chain only depends on its own pages. */
  lemma ChainFrame(pages: OverflowMap, pages': OverflowMap, chain: seq<PageId>, v: bytes, from: nat)
    requires ChainFrom(pages, chain, v, from)
    requires forall p :: p in chain && p in pages ==> p in pages' && pages'[p] == pages[p]
    ensures ChainFrom(pages', chain, v, from)
  {
    forall j | 0 <= j < |chain| ensures PageHolds(pages', chain, v, from, j) {
      assert PageHolds(pages, chain, v, from, j);
    }
  }

  /** Adding a page in front of a chain. */
  lemma ChainPrepend(pages: OverflowMap, pages': OverflowMap, chain: seq<PageId>, v: bytes, from: nat, id: PageId)
    requires ChainFrom(pages, chain, v, from + 1)
    requires id !in pages && id < NO_PAGE
    requires id in pages' && pages' == pages[id := pages'[id]]
    requires pages'[id].next == Link(chain, 0) && |pages'[id].data| == CHUNK && Chunk(v, from) <= pages'[id].data
    ensures ChainFrom(pages', [id] + chain, v, from)
  {
    var longer := [id] + chain;
    forall j | 0 <= j < |longer| ensures PageHolds(pages', longer, v, from, j) {
      if j > 0 {
        assert PageHolds(pages, chain, v, from + 1, j - 1);
      }
    }
  }

  /** `pages` are those of `before` and the pages of a chain that stores the chunks of `v` from number `from` on. */
  ghost predicate ChainAdded(before: OverflowMap, pages: OverflowMap, chain: seq<PageId>, v: bytes, from: nat) {
    && ChainFrom(pages, chain, v, from) && Distinct(chain)
    && PagesOf(chain) !! before.Keys && pages.Keys == before.Keys + PagesOf(chain)
    && (forall p {:trigger pages[p]} :: p in before ==> pages[p] == before[p])
  }

  lemma ChainExtended(before: OverflowMap, pages: OverflowMap, chain: seq<PageId>, v: bytes, from: nat, id: PageId,
                      page: OverflowPage)
    requires ChainAdded(before, pages, chain, v, from + 1) && id !in pages && id < NO_PAGE
    requires page.next == Link(chain, 0) && |page.data| == CHUNK && Chunk(v, from) <= page.data
    ensures ChainAdded(before, pages[id := page], [id] + chain, v, from)
  {
    ChainPrepend(pages, pages[id := page], chain, v, from, id);
    assert PagesOf([id] + chain) == PagesOf(chain) + {id};
  }

  /** A chain that stores a value also stores what its handle keeps of it. */
  lemma ChainKept(pages: OverflowMap, chain: seq<PageId>, v: bytes)
    requires ChainFrom(pages, chain, v, 0)
    ensures ChainFrom(pages, chain, Kept(v), 0)
  {
    forall j | 0 <= j < |chain| ensures PageHolds(pages, chain, Kept(v), 0, j) {
      assert PageHolds(pages, chain, v, 0, j);
      assert Chunk(Kept(v), j) <= Chunk(v, j);
    }
  }

  // ---- Reading ----

  /** Page `j` of the chain links to the next one. */
  ghost predicate PageLinks(pages: OverflowMap, chain: seq<PageId>, j: nat)
    requires j < |chain|
  {
    && chain[j] in pages && chain[j] < NO_PAGE
    && pages[chain[j]].next == Link(chain, j + 1) && |pages[chain[j]].data| == CHUNK
  }

  /** The pages of a chain link to each other and the last one to none. */
  ghost predicate Linked(pages: OverflowMap, chain: seq<PageId>) {
    forall j {:trigger PageLinks(pages, chain, j)} :: 0 <= j < |chain| ==> PageLinks(pages, chain, j)
  }

  /** What the first `n` pages of a chain hold. */
  ghost function Data(pages: OverflowMap, chain: seq<PageId>, n: nat): (d: bytes)
    requires Linked(pages, chain) && n <= |chain|
    ensures |d| == CHUNK * n
  {
    if n == 0 then []
    else
      assert PageLinks(pages, chain, n - 1);
      Data(pages, chain, n - 1) + pages[chain[n - 1]].data
  }

  /** What is read of the first `n` pages of a chain for a handle with the given length. */
  ghost function GatheredBy(pages: OverflowMap, chain: seq<PageId>, length: nat, n: nat): (v: bytes)
    requires Linked(pages, chain) && n <= |chain|
    ensures |v| == Min(length, CHUNK * n)
  {
    Data(pages, chain, n)[..Min(length, CHUNK * n)]
  }

  ghost function Gathered(pages: OverflowMap, chain: seq<PageId>, length: nat): bytes
    requires Linked(pages, chain)
  {
    GatheredBy(pages, chain, length, |chain|)
  }

  /** The stored bytes `val` are read as `v`, through the pages `chain` if they look like a handle. */
  ghost predicate ReadsAs(pages: OverflowMap, val: bytes, chain: seq<PageId>, v: bytes) {
    if !IsHandle(val) then v == val
    else Linked(pages, chain) && HandlePage(val) == Link(chain, 0) && v == Gathered(pages, chain, HandleLength(val))
  }

  /** One page of a chain. */
  lemma GatherNext(pages: OverflowMap, chain: seq<PageId>, length: nat, j: nat)
    requires Linked(pages, chain) && j < |chain| && PageLinks(pages, chain, j)
    ensures var take := Min(length - Min(length, CHUNK * j), CHUNK);
            && take <= |pages[chain[j]].data|
            && GatheredBy(pages, chain, length, j) + pages[chain[j]].data[..take] ==
               GatheredBy(pages, chain, length, j + 1)
  {
    var before, data := Data(pages, chain, j), pages[chain[j]].data;
    if length < CHUNK * j {
      assert (before + data)[..length] == before[..length];
    } else {
      assert before[..CHUNK * j] == before;
    }
  }

  /** A chain that stores a value is read as that value. */
  lemma ChainReads(pages: OverflowMap, handle: bytes, chain: seq<PageId>, v: bytes)
    requires ChainHolds(pages, handle, chain, v)
    ensures ReadsAs(pages, handle, chain, v)
  {
    forall j | 0 <= j < |chain| ensures PageLinks(pages, chain, j) {
      assert PageHolds(pages, chain, v, 0, j);
    }
    GatheredTo(pages, chain, v, |chain|);
  }

  lemma {:induction false} GatheredTo(pages: OverflowMap, chain: seq<PageId>, v: bytes, n: nat)
    requires Linked(pages, chain) && ChainFrom(pages, chain, v, 0) && n <= |chain|
    ensures GatheredBy(pages, chain, |v|, n) == v[..Min(|v|, CHUNK * n)]
  {
    if n > 0 {
      GatheredTo(pages, chain, v, n - 1);
      assert PageLinks(pages, chain, n - 1) && PageHolds(pages, chain, v, 0, n - 1);
      GatherNext(pages, chain, |v|, n - 1);
      ChunkNext(v, n - 1, pages[chain[n - 1]].data);
    }
  }

  lemma ChunkNext(v: bytes, i: nat, data: bytes)
    requires Chunk(v, i) <= data
    ensures var take := Min(|v| - Min(|v|, CHUNK * i), CHUNK);
            take <= |data| && v[..Min(|v|, CHUNK * i)] + data[..take] == v[..Min(|v|, CHUNK * (i + 1))]
  {
    var take := Min(|v| - Min(|v|, CHUNK * i), CHUNK);
    assert |Chunk(v, i)| == take && data[..take] == Chunk(v, i);
  }

  /** Links lead from a page along one chain only. */
  lemma {:induction false} OneChain(pages: OverflowMap, chain: seq<PageId>, chain': seq<PageId>, n: nat)
    requires Linked(pages, chain) && Linked(pages, chain') && Link(chain, 0) == Link(chain', 0) && n <= |chain|
    ensures n <= |chain'| && chain[..n] == chain'[..n] && Link(chain, n) == Link(chain', n)
  {
    if n > 0 {
      OneChain(pages, chain, chain', n - 1);
      assert PageLinks(pages, chain, n - 1) && chain[n - 1] == Link(chain', n - 1);
      assert n - 1 < |chain'| && PageLinks(pages, chain', n - 1);
      assert chain[..n] == chain[..n - 1] + [chain[n - 1]];
      assert chain'[..n] == chain'[..n - 1] + [chain'[n - 1]];
    }
  }

  /** Stored bytes are read in one way. */
  lemma ReadsOneWay(pages: OverflowMap, val: bytes, chain: seq<PageId>, v: bytes, chain': seq<PageId>, v': bytes)
    requires ReadsAs(pages, val, chain, v) && ReadsAs(pages, val, chain', v')
    ensures v == v'
  {
    if IsHandle(val) {
      assert chain != [] ==> PageLinks(pages, chain, 0);
      assert chain' != [] ==> PageLinks(pages, chain', 0);
      OneChain(pages, chain, chain', |chain|);
      OneChain(pages, chain', chain, |chain'|);
      assert chain[..|chain|] == chain && chain'[..|chain'|] == chain';
    }
  }

  // ---- Short values that look like handles ----

  /** The rest of a chain from page `j` on is a chain. */
  lemma RestLinked(pages: OverflowMap, chain: seq<PageId>, j: nat)
    requires Linked(pages, chain) && j <= |chain|
    ensures Linked(pages, chain[j..])
  {
    forall i | 0 <= i < |chain[j..]| ensures PageLinks(pages, chain[j..], i) {
      assert PageLinks(pages, chain, j + i) && chain[j..][i] == chain[j + i];
    }
  }

  /** A value that looks like a handle is read back exactly if it names a page that begins with it, and its own length. */
  lemma LookalikeReads(pages: OverflowMap, val: bytes, chain: seq<PageId>, v: bytes)
    requires IsHandle(val) && ReadsAs(pages, val, chain, v)
    ensures v == val <==>
            chain != [] && HandleLength(val) == |val| && chain[0] in pages && val <= pages[chain[0]].data
  {
    if chain != [] {
      assert PageLinks(pages, chain, 0);
      DataBegins(pages, chain, |chain|);
      assert |v| == 12 <==> HandleLength(val) == 12;
      if HandleLength(val) == 12 {
        assert v == pages[chain[0]].data[..12];
      }
    }
  }

  lemma {:induction false} DataBegins(pages: OverflowMap, chain: seq<PageId>, n: nat)
    requires Linked(pages, chain) && 0 < n <= |chain|
    ensures PageLinks(pages, chain, 0) && pages[chain[0]].data <= Data(pages, chain, n)
  {
    assert PageLinks(pages, chain, n - 1);
    if n > 1 {
      DataBegins(pages, chain, n - 1);
    }
  }

  lemma ChunkCountCovers(v: bytes)
    ensures CHUNK * ChunkCount(v) >= |v|
    ensures |v| > 0 ==> ChunkCount(v) > 0 && CHUNK * (ChunkCount(v) - 1) < |v|
  {
  }

  // ---- All values of a store ----

  /** How the value of key `k` is stored: inline, or as the chain its handle leads to. */
  ghost predicate ValueOk(raw: map<bytes, bytes>, view: map<bytes, bytes>, chains: map<bytes, seq<PageId>>,
                          pages: OverflowMap, k: bytes)
    requires k in raw && k in view
  {
    if IsHandle(raw[k]) then k in chains && ChainHolds(pages, raw[k], chains[k], view[k])
    else k !in chains && view[k] == raw[k]
  }

  /** `raw` stores the values of `view`, and every overflow page belongs to exactly one of them: no page is
      shared and none is lost. */
  ghost predicate ValuesOk(raw: map<bytes, bytes>, view: map<bytes, bytes>, chains: map<bytes, seq<PageId>>,
                           owner: map<PageId, bytes>, pages: OverflowMap)
  {
    && raw.Keys == view.Keys && chains.Keys <= raw.Keys && owner.Keys == pages.Keys
    && (forall k {:trigger ValueOk(raw, view, chains, pages, k)} :: k in raw ==> ValueOk(raw, view, chains, pages, k))
    && Owned(chains, owner)
  }

  /** Each page is in the chain of its owner and in no other. */
  ghost predicate Owned(chains: map<bytes, seq<PageId>>, owner: map<PageId, bytes>) {
    && (forall k, p {:trigger p in chains[k]} :: k in chains && p in chains[k] ==> p in owner && owner[p] == k)
    && (forall p {:trigger owner[p]} :: p in owner ==> owner[p] in chains && p in chains[owner[p]])
  }

  ghost function ChainOf(chains: map<bytes, seq<PageId>>, k: bytes): seq<PageId> {
    if k in chains then chains[k] else []
  }

  /** Every value of a store in order is read back, and none is stored as a handle that leads nowhere. */
  lemma ValueReads(raw: map<bytes, bytes>, view: map<bytes, bytes>, chains: map<bytes, seq<PageId>>,
                   owner: map<PageId, bytes>, pages: OverflowMap, k: bytes)
    requires ValuesOk(raw, view, chains, owner, pages) && k in raw
    ensures k in view && !LeadsNowhere(raw[k]) && ReadsAs(pages, raw[k], ChainOf(chains, k), view[k])
  {
    assert ValueOk(raw, view, chains, pages, k);
    if IsHandle(raw[k]) {
      assert PageHolds(pages, chains[k], view[k], 0, 0);
      ChainReads(pages, raw[k], chains[k], view[k]);
    }
  }

  /** The value of a key is not affected by changes to other keys and other pages. */
  lemma ValueFrame(raw: map<bytes, bytes>, view: map<bytes, bytes>, chains: map<bytes, seq<PageId>>, pages: OverflowMap,
                   raw': map<bytes, bytes>, view': map<bytes, bytes>, chains': map<bytes, seq<PageId>>, pages': OverflowMap,
                   k: bytes)
    requires k in raw && k in view && ValueOk(raw, view, chains, pages, k)
    requires k in raw' && raw'[k] == raw[k] && k in view' && view'[k] == view[k]
    requires if k in chains then k in chains' && chains'[k] == chains[k] else k !in chains'
    requires k in chains ==> forall p :: p in chains[k] && p in pages ==> p in pages' && pages'[p] == pages[p]
    ensures ValueOk(raw', view', chains', pages', k)
  {
    if k in chains {
      ChainFrame(pages, pages', chains[k], view[k], 0);
    }
  }

  /** The pages of the value of `k`. */
  ghost function PagesFor(chains: map<bytes, seq<PageId>>, k: bytes): set<PageId> {
    if k in chains then PagesOf(chains[k]) else {}
  }

  /** Removing the value of `key` and its pages. */
  lemma ValuesRemove(raw: map<bytes, bytes>, view: map<bytes, bytes>, chains: map<bytes, seq<PageId>>,
                     owner: map<PageId, bytes>, pages: OverflowMap, pages': OverflowMap, key: bytes)
    requires ValuesOk(raw, view, chains, owner, pages)
    requires pages'.Keys == pages.Keys - PagesFor(chains, key)
    requires forall p :: p in pages && p in pages' ==> pages'[p] == pages[p]
    ensures ValuesOk(raw - {key}, view - {key}, chains - {key}, owner - PagesFor(chains, key), pages')
  {
    var raw', view', chains' := raw - {key}, view - {key}, chains - {key};
    forall k | k in raw' ensures ValueOk(raw', view', chains', pages', k) {
      assert k in chains ==> forall p :: p in chains[k] ==> owner[p] == k;
      ValueFrame(raw, view, chains, pages, raw', view', chains', pages', k);
    }
  }

  /** Storing the value of a new key. `chain` is empty when the value is stored inline. */
  lemma ValuesAdd(raw: map<bytes, bytes>, view: map<bytes, bytes>, chains: map<bytes, seq<PageId>>,
                  owner: map<PageId, bytes>, pages: OverflowMap, pages': OverflowMap,
                  key: bytes, stored: bytes, value: bytes, chain: seq<PageId>)
    returns (chains': map<bytes, seq<PageId>>, owner': map<PageId, bytes>)
    requires ValuesOk(raw, view, chains, owner, pages) && key !in raw
    requires PagesOf(chain) !! pages.Keys && pages'.Keys == pages.Keys + PagesOf(chain)
    requires forall p :: p in pages ==> pages'[p] == pages[p]
    requires if IsHandle(stored) then ChainHolds(pages', stored, chain, value) else chain == [] && value == stored
    ensures ValuesOk(raw[key := stored], view[key := value], chains', owner', pages')
  {
    assert key !in chains;
    chains' := if IsHandle(stored) then chains[key := chain] else chains;
    owner' := owner + map p | p in PagesOf(chain) :: key;
    var raw', view' := raw[key := stored], view[key := value];
    assert ValueOk(raw', view', chains', pages', key);
    forall k | k in raw' ensures ValueOk(raw', view', chains', pages', k) {
      if k != key {
        assert k in chains ==> forall p :: p in chains[k] ==> owner[p] == k;
        ValueFrame(raw, view, chains, pages, raw', view', chains', pages', k);
      }
    }
    OwnedAdd(chains, owner, chains', owner', key, chain);
    assert owner'.Keys == pages'.Keys;
  }

  lemma OwnedAdd(chains: map<bytes, seq<PageId>>, owner: map<PageId, bytes>,
                 chains': map<bytes, seq<PageId>>, owner': map<PageId, bytes>, key: bytes, chain: seq<PageId>)
    requires Owned(chains, owner) && key !in chains
    requires chains' == chains[key := chain] || (chains' == chains && chain == [])
    requires owner'.Keys == owner.Keys + PagesOf(chain) && PagesOf(chain) !! owner.Keys
    requires forall p :: p in owner' ==> owner'[p] == if p in owner then owner[p] else key
    ensures Owned(chains', owner')
  {
    forall k, p | k in chains' && p in chains'[k] ensures p in owner' && owner'[p] == k {
      assert k == key ==> p in PagesOf(chain);
    }
    forall p | p in owner' ensures owner'[p] in chains' && p in chains'[owner'[p]] {
      assert p !in owner ==> p in PagesOf(chain);
    }
  }

  /** Replacing or adding the value of `key`, freeing the pages of the old value. */
  lemma ValuesPut(raw: map<bytes, bytes>, view: map<bytes, bytes>, chains: map<bytes, seq<PageId>>,
                  owner: map<PageId, bytes>, pages: OverflowMap, pages': OverflowMap,
                  key: bytes, stored: bytes, value: bytes, chain: seq<PageId>)
    returns (chains': map<bytes, seq<PageId>>, owner': map<PageId, bytes>)
    requires ValuesOk(raw, view, chains, owner, pages)
    requires PagesOf(chain) !! pages.Keys
    requires pages'.Keys == pages.Keys - PagesFor(chains, key) + PagesOf(chain)
    requires forall p :: p in pages && p in pages' ==> pages'[p] == pages[p]
    requires if IsHandle(stored) then ChainHolds(pages', stored, chain, value) else chain == [] && value == stored
    ensures ValuesOk(raw[key := stored], view[key := value], chains', owner', pages')
  {
    var freed := PagesFor(chains, key);
    ValuesRemove(raw, view, chains, owner, pages, pages - freed, key);
    chains', owner' := ValuesAdd(raw - {key}, view - {key}, chains - {key}, owner - freed, pages - freed, pages',
                                 key, stored, value, chain);
    assert (raw - {key})[key := stored] == raw[key := stored];
    assert (view - {key})[key := value] == view[key := value];
  }

  /** The pages of a new value, none if it is stored inline, have been written next to those before. */
  ghost predicate NewlyStored(before: OverflowMap, written: OverflowMap, stored: bytes, chain: seq<PageId>, value: bytes) {
    && PagesOf(chain) !! before.Keys && written.Keys == before.Keys + PagesOf(chain)
    && (forall p :: p in before ==> written[p] == before[p])
    && (if IsHandle(stored) then ChainHolds(written, stored, chain, value) else chain == [] && value == stored)
  }

  /** `ValuesPut` in the order of events: the pages of the new value are written (`written`), then those of the
      old value are freed. */
  lemma ValuesReplaced(raw: map<bytes, bytes>, view: map<bytes, bytes>, chains: map<bytes, seq<PageId>>,
                       owner: map<PageId, bytes>, pages: OverflowMap, written: OverflowMap,
                       key: bytes, stored: bytes, value: bytes, chain: seq<PageId>)
    returns (chains': map<bytes, seq<PageId>>, owner': map<PageId, bytes>)
    requires ValuesOk(raw, view, chains, owner, pages)
    requires NewlyStored(pages, written, stored, chain, value)
    ensures ValuesOk(raw[key := stored], view[key := value], chains', owner', written - PagesFor(chains, key))
  {
    var freed := PagesFor(chains, key);
    forall p | p in freed ensures p in pages {
      assert p in chains[key];
    }
    if IsHandle(stored) {
      forall p | p in chain ensures p !in freed {
        assert p in PagesOf(chain);
      }
      ChainFrame(written, written - freed, chain, value, 0);
    }
    chains', owner' := ValuesPut(raw, view, chains, owner, pages, written - freed, key, stored, value, chain);
  }
}
