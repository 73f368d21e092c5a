/** The write-back cache of pages with least-recently-used eviction. The pager changes page 0 underneath the cache, so
    what is said about contents is said about the other pages. */
module BufferPool {
  import opened Common
  import opened Bytes
  import opened Nodes
  import opened PageAllocator
  import opened Pager

  datatype Slot = Slot(page: Page, dirty: bool)

  // ---- The cache as a value ----

  /** What is read through the cache. */
  function ViewOf(slots: map<PageId, Slot>, pages: seq<Page>, id: PageId): Page {
    if id in slots then slots[id].page else ReadFrom(pages, id)
  }

  /** Clean pages are the same on disk. */
  ghost predicate CleanOnDisk(slots: map<PageId, Slot>, pages: seq<Page>) {
    forall id {:trigger slots[id]} :: id in slots && id != 0 && !slots[id].dirty ==> slots[id].page == ReadFrom(pages, id)
  }

  /** The recency list, most recent first, has the cached ids, each once, and at most `capacity` of them. */
  ghost predicate Listed(slots: map<PageId, Slot>, order: seq<PageId>, capacity: nat) {
    Distinct(order) && (forall id :: id in order <==> id in slots) && |order| <= capacity
  }

  ghost predicate Sound(slots: map<PageId, Slot>, order: seq<PageId>, capacity: nat, pages: seq<Page>) {
    && Listed(slots, order, capacity)
    && CleanOnDisk(slots, pages)
    && (forall id {:trigger slots[id]} :: id in slots && slots[id].dirty ==> id < U32_MAX)
    && 0 < |pages| <= U32_MAX
  }

  /** Nothing but the pages in `ids` reads differently. */
  ghost predicate SameView(slots: map<PageId, Slot>, pages: seq<Page>, slots': map<PageId, Slot>, pages': seq<Page>,
                           ids: set<PageId>) {
    forall id: PageId {:trigger ViewOf(slots', pages', id)} :: id !in ids ==>
      ViewOf(slots', pages', id) == ViewOf(slots, pages, id)
  }

  function Without(order: seq<PageId>, id: PageId): seq<PageId> {
    if order == [] then [] else if order[0] == id then order[1..] else [order[0]] + Without(order[1..], id)
  }

  lemma {:induction false} WithoutIs(order: seq<PageId>, id: PageId)
    requires Distinct(order)
    ensures Distinct(Without(order, id))
    ensures forall x :: x in Without(order, id) <==> x in order && x != id
    ensures |Without(order, id)| == if id in order then |order| - 1 else |order|
  {
    if order != [] {
      var rest := order[1..];
      assert order == [order[0]] + rest;
      assert forall x :: x in order <==> x == order[0] || x in rest;
      WithoutIs(rest, id);
      assert order[0] !in Without(rest, id) && Distinct(rest);
      DistinctCons(order[0], Without(rest, id));
    }
  }

  /** The other pages stay in their order. */
  lemma {:induction false} WithoutAt(order: seq<PageId>, id: PageId, k: nat)
    requires Distinct(order) && k < |order| && order[k] == id
    ensures Without(order, id) == order[..k] + order[k + 1..]
  {
    if k > 0 {
      var rest := order[1..];
      WithoutAt(rest, id, k - 1);
      assert order[..k] == [order[0]] + rest[..k - 1] && order[k + 1..] == rest[k..];
    }
  }

  lemma {:induction false} WithoutAbsent(order: seq<PageId>, id: PageId)
    requires id !in order
    ensures Without(order, id) == order
  {
    if order != [] {
      WithoutAbsent(order[1..], id);
    }
  }

  lemma DistinctCons(x: PageId, s: seq<PageId>)
    requires x !in s && Distinct(s)
    ensures Distinct([x] + s)
  {
  }

  function Promoted(order: seq<PageId>, id: PageId): seq<PageId> {
    [id] + Without(order, id)
  }

  /** Using or adding a page puts it in front. */
  lemma PromotedListed(slots: map<PageId, Slot>, order: seq<PageId>, capacity: nat, id: PageId, slot: Slot)
    requires Listed(slots, order, capacity) && (id in slots || |order| < capacity)
    ensures Listed(slots[id := slot], Promoted(order, id), capacity)
  {
    WithoutIs(order, id);
    DistinctCons(id, Without(order, id));
    assert forall x :: x in Promoted(order, id) <==> x == id || x in Without(order, id);
  }

  // ---- Recency ----

  /** When a page was last used; -1 if never. */
  ghost function LastUse(uses: seq<PageId>, id: PageId): int {
    if uses == [] then -1 else if uses[|uses| - 1] == id then |uses| - 1 else LastUse(uses[..|uses| - 1], id)
  }

  /** The list has the pages by their last use, the latest first. */
  ghost predicate ByRecency(order: seq<PageId>, uses: seq<PageId>) {
    forall i, j :: 0 <= i < j < |order| ==> LastUse(uses, order[i]) > LastUse(uses, order[j])
  }

  lemma {:induction false} LastUseBefore(uses: seq<PageId>, id: PageId)
    ensures LastUse(uses, id) < |uses|
  {
    if uses != [] {
      LastUseBefore(uses[..|uses| - 1], id);
    }
  }

  /** The order stays when a page is dropped, and when a page that is used is put in front. */
  lemma RecencyKept(order: seq<PageId>, uses: seq<PageId>, id: PageId)
    requires ByRecency(order, uses) && Distinct(order)
    ensures ByRecency(Without(order, id), uses) && ByRecency(Promoted(order, id), uses + [id])
  {
    WithoutIs(order, id);
    var rest := Without(order, id);
    if id in order {
      var k :| 0 <= k < |order| && order[k] == id;
      WithoutAt(order, id, k);
      DropKeeps(order, uses, k);
    } else {
      WithoutAbsent(order, id);
    }
    UseKeeps(rest, uses, id);
  }

  lemma DropKeeps(order: seq<PageId>, uses: seq<PageId>, k: nat)
    requires ByRecency(order, uses) && k < |order|
    ensures ByRecency(order[..k] + order[k + 1..], uses)
  {
    var rest := order[..k] + order[k + 1..];
    forall i, j | 0 <= i < j < |rest| ensures LastUse(uses, rest[i]) > LastUse(uses, rest[j]) {
      assert rest[i] == order[if i < k then i else i + 1] && rest[j] == order[if j < k then j else j + 1];
    }
  }

  lemma UseKeeps(rest: seq<PageId>, uses: seq<PageId>, id: PageId)
    requires ByRecency(rest, uses) && id !in rest
    ensures ByRecency([id] + rest, uses + [id])
  {
    var order := [id] + rest;
    assert (uses + [id])[..|uses|] == uses;
    forall i, j | 0 <= i < j < |order| ensures LastUse(uses + [id], order[i]) > LastUse(uses + [id], order[j]) {
      assert order[j] == rest[j - 1] && rest[j - 1] in rest;
      assert i > 0 ==> order[i] == rest[i - 1] && rest[i - 1] in rest;
      LastUseBefore(uses, order[j]);
    }
  }

  /** So the last page of the list, which is the one evicted, is the one whose last use is the longest ago. */
  lemma LastIsLeastRecent(order: seq<PageId>, uses: seq<PageId>)
    requires ByRecency(order, uses) && order != []
    ensures forall x :: x in order && x != order[|order| - 1] ==> LastUse(uses, order[|order| - 1]) < LastUse(uses, x)
  {
    forall x | x in order && x != order[|order| - 1] ensures LastUse(uses, order[|order| - 1]) < LastUse(uses, x) {
      var i :| 0 <= i < |order| && order[i] == x;
    }
  }

  // ---- Room for a page ----

  /** Putting a page that is not there into a full cache. */
  predicate NeedsRoom(slots: map<PageId, Slot>, order: seq<PageId>, capacity: nat, id: PageId) {
    |order| == capacity && id !in slots
  }

  /** The pages that stay when room is made: all but the least recently used one. */
  ghost function KeptOrder(slots: map<PageId, Slot>, order: seq<PageId>, capacity: nat, id: PageId): seq<PageId> {
    if NeedsRoom(slots, order, capacity, id) && order != [] then order[..|order| - 1] else order
  }

  ghost function KeptSlots(slots: map<PageId, Slot>, order: seq<PageId>, capacity: nat, id: PageId): map<PageId, Slot> {
    if NeedsRoom(slots, order, capacity, id) && order != [] then slots - {order[|order| - 1]} else slots
  }

  /** The same pages, all clean. */
  ghost predicate AllClean(slots: map<PageId, Slot>, slots': map<PageId, Slot>) {
    slots'.Keys == slots.Keys && forall id {:trigger slots'[id]} :: id in slots' ==> slots'[id] == Slot(slots[id].page, false)
  }

  /** The disk has every page but 0 as it is read through the cache. */
  ghost predicate OnDisk(slots: map<PageId, Slot>, pages: seq<Page>) {
    forall id: PageId {:trigger ReadFrom(pages, id)} :: id != 0 ==> ReadFrom(pages, id) == ViewOf(slots, pages, id)
  }

  /** The write that is being counted is the last of `interval` many. */
  ghost predicate FlushDue(writes: nat, interval: nat) {
    interval > 0 && writes + 1 >= interval
  }

  ghost function NextCount(writes: nat, interval: nat): nat {
    if interval == 0 then writes else if writes + 1 >= interval then 0 else writes + 1
  }

  /** Dropping a page from the cache changes what is read there only; not even that if the page is written back when
      dirty. */
  lemma Dropped(slots: map<PageId, Slot>, order: seq<PageId>, capacity: nat, pages: seq<Page>, id: PageId)
    requires Sound(slots, order, capacity, pages) && id in slots
    ensures Sound(slots - {id}, Without(order, id), capacity, pages)
    ensures |Without(order, id)| < |order|
    ensures SameView(slots, pages, slots - {id}, pages, {id})
    ensures !slots[id].dirty ==> SameView(slots, pages, slots - {id}, pages, {0})
  {
    WithoutIs(order, id);
  }

  /** Writing a page to disk keeps the cache sound if the cache has no other contents for it. */
  lemma DiskWritten(slots: map<PageId, Slot>, order: seq<PageId>, capacity: nat, pages: seq<Page>, id: PageId,
                    page: Page)
    requires Sound(slots, order, capacity, pages) && id < U32_MAX && id !in slots
    ensures Sound(slots, order, capacity, Written(pages, id, page))
    ensures SameView(slots, pages, slots, Written(pages, id, page), {id})
    ensures ViewOf(slots, Written(pages, id, page), id) == page
  {
    ReadWritten(pages, id, page, id);
    forall other: PageId ensures ReadFrom(Written(pages, id, page), other) == if other == id then page else ReadFrom(pages, other) {
      ReadWritten(pages, id, page, other);
    }
  }

  /** A page put into the cache after other changes that do not show. */
  lemma Chain(slots: map<PageId, Slot>, pages: seq<Page>, slots': map<PageId, Slot>, pages': seq<Page>, id: PageId,
              page: Page)
    requires SameView(slots, pages, slots', pages', {0})
    ensures forall dirty :: SameView(slots, pages, slots'[id := Slot(page, dirty)], pages', {0, id})
  {
    forall dirty, other: PageId | other !in {0, id}
      ensures ViewOf(slots'[id := Slot(page, dirty)], pages', other) == ViewOf(slots, pages, other)
    {
      assert ViewOf(slots'[id := Slot(page, dirty)], pages', other) == ViewOf(slots', pages', other);
    }
  }

  // ---- The pool ----

  class BufferPool {
    const pager: Pager
    const capacity: nat
    const syncInterval: nat
    var slots: map<PageId, Slot>
    var order: seq<PageId>
    var dirtyWrites: nat

    ghost predicate Valid()
      reads this, pager
    {
      capacity > 0 && Sound(slots, order, capacity, pager.pages)
    }

    ghost function View(id: PageId): Page
      reads this, pager
    {
      ViewOf(slots, pager.pages, id)
    }

    constructor (pager: Pager, capacity: nat, syncInterval: nat)
      requires 0 < |pager.pages| <= U32_MAX
      ensures Valid() && this.pager == pager && this.capacity == (if capacity > 1 then capacity else 1)
      ensures this.syncInterval == syncInterval && slots == map[] && order == [] && dirtyWrites == 0
      ensures forall id: PageId :: View(id) == ReadFrom(pager.pages, id)
    {
      this.pager, this.capacity, this.syncInterval := pager, if capacity > 1 then capacity else 1, syncInterval;
      slots, order, dirtyWrites := map[], [], 0;
    }

    /** Makes room for one page: the least recently used one goes, to disk if it is dirty. */
    method Evict()
      requires Valid() && order != []
      modifies `slots, `order, pager
      ensures Valid() && order == old(order[..|order| - 1])
      ensures slots == old(slots) - {old(order[|order| - 1])}
      ensures SameView(old(slots), old(pager.pages), slots, pager.pages, {0})
      ensures pager.alloc.free == old(pager.alloc.free)
      ensures var id := old(order[|order| - 1]);
              old(pager.Valid()) && !(old(slots)[id].dirty && id in old(pager.alloc.free)) ==>
                (pager.Valid() <==> id != 0 || HeadKept(old(slots), old(pager.pages)))
    {
      var id := order[|order| - 1];
      var slot := slots[id];
      Dropped(slots, order, capacity, pager.pages, id);
      WithoutAt(order, id, |order| - 1);
      assert order[..|order| - 1] + order[|order|..] == order[..|order| - 1];
      slots, order := slots - {id}, Without(order, id);
      if slot.dirty {
        DiskWritten(slots, order, capacity, pager.pages, id, slot.page);
        pager.WritePage(id, slot.page);
      }
    }

    /** `put_and_evict`. */
    method PutAndEvict(id: PageId, page: Page, dirty: bool)
      requires Valid() && (dirty ==> id < U32_MAX) && (!dirty ==> page == View(id))
      modifies `slots, `order, pager
      ensures Valid() && View(id) == page && id in slots && order[0] == id
      ensures SameView(old(slots), old(pager.pages), slots, pager.pages, {0, id})
      ensures order == Promoted(old(KeptOrder(slots, order, capacity, id)), id)
      ensures slots == old(KeptSlots(slots, order, capacity, id))
                         [id := Slot(page, dirty || (id in old(slots) && old(slots)[id].dirty))]
      ensures !old(NeedsRoom(slots, order, capacity, id)) ==> unchanged(pager)
    {
      if |order| == capacity && id !in slots {
        Evict();
      }
      assert !dirty && id != 0 ==> ViewOf(slots, pager.pages, id) == page;
      Chain(old(slots), old(pager.pages), slots, pager.pages, id, page);
      var newDirty := dirty || (id in slots && slots[id].dirty);
      PromotedListed(slots, order, capacity, id, Slot(page, newDirty));
      slots, order := slots[id := Slot(page, newDirty)], Promoted(order, id);
    }

    /** `fetch_page`: gives what is read through the cache, and changes nothing that is. */
    method FetchPage(id: PageId) returns (page: Page)
      requires Valid()
      modifies `slots, `order, pager
      ensures Valid() && id in slots && order[0] == id
      ensures order == Promoted(old(KeptOrder(slots, order, capacity, id)), id)
      ensures slots == old(KeptSlots(slots, order, capacity, id))[id := Slot(page, id in old(slots) && old(slots)[id].dirty)]
      ensures !old(NeedsRoom(slots, order, capacity, id)) ==> unchanged(pager)
      ensures page == View(id) == old(View(id))
      ensures SameView(old(slots), old(pager.pages), slots, pager.pages, {0})
    {
      if id in slots {
        PromotedListed(slots, order, capacity, id, slots[id]);
        assert slots[id := slots[id]] == slots;
        order := Promoted(order, id);
        return slots[id].page;
      }
      page := pager.ReadPage(id);
      PutAndEvict(id, page, false);
    }

    /** `flush_all`: afterwards every page on disk is the one read through the cache. The free list survives exactly if
        the cache has no dirty page 0 with another list head. */
    method FlushAll()
      requires Valid()
      modifies `slots, pager
      ensures Valid() && slots.Keys == old(slots).Keys && |pager.pages| >= old(|pager.pages|)
      ensures AllClean(old(slots), slots)
      ensures SameView(old(slots), old(pager.pages), slots, pager.pages, {})
      ensures OnDisk(slots, pager.pages)
      ensures pager.pages[0] == if Dirty(old(slots), 0) then old(slots)[0].page else old(pager.pages)[0]
      ensures pager.alloc.free == old(pager.alloc.free)
      ensures old(pager.Valid()) && NoneFree(old(slots), old(pager.alloc.free)) ==>
                (pager.Valid() <==> HeadKept(old(slots), old(pager.pages)))
    {
      var toFlush := CollectDirty();
      WriteBack(toFlush, old(slots));
      AllFlushed(old(slots), slots, old(pager.pages), pager.pages, toFlush);
      assert pager.pages[0] == ReadFrom(pager.pages, 0);
      if old(pager.Valid()) && NoneFree(old(slots), pager.alloc.free) {
        FlushedList(old(slots), old(pager.pages), pager.pages, pager.alloc.free);
      }
    }

    /** The second half of `flush_all`: writes the collected pages. */
    method WriteBack(toFlush: seq<(PageId, Page)>, ghost dirty: map<PageId, Slot>)
      requires forall k {:trigger toFlush[k]} :: 0 <= k < |toFlush| ==> IsDirty(dirty, toFlush[k]) && toFlush[k].0 < U32_MAX
      requires 0 < |pager.pages| <= U32_MAX
      modifies pager
      ensures old(|pager.pages|) <= |pager.pages| <= U32_MAX
      ensures forall k {:trigger toFlush[k]} :: 0 <= k < |toFlush| ==> ReadFrom(pager.pages, toFlush[k].0) == toFlush[k].1
      ensures forall id: PageId {:trigger ReadFrom(pager.pages, id)} ::
                || ReadFrom(pager.pages, id) == ReadFrom(old(pager.pages), id)
                || (Dirty(dirty, id) && ReadFrom(pager.pages, id) == dirty[id].page)
      ensures pager.alloc.free == old(pager.alloc.free)
      ensures old(pager.alloc.numPages == |pager.pages|) ==> pager.alloc.numPages == |pager.pages|
    {
      var j: nat := 0;
      while j < |toFlush|
        invariant j <= |toFlush| && 0 < old(|pager.pages|) <= |pager.pages| <= U32_MAX
        invariant forall k {:trigger toFlush[k]} :: 0 <= k < j ==> ReadFrom(pager.pages, toFlush[k].0) == toFlush[k].1
        invariant forall id: PageId {:trigger ReadFrom(pager.pages, id)} ::
                    || ReadFrom(pager.pages, id) == ReadFrom(old(pager.pages), id)
                    || (Dirty(dirty, id) && ReadFrom(pager.pages, id) == dirty[id].page)
        invariant pager.alloc.free == old(pager.alloc.free)
        invariant old(pager.alloc.numPages == |pager.pages|) ==> pager.alloc.numPages == |pager.pages|
      {
        var (id, page) := toFlush[j];
        ghost var before := pager.pages;
        pager.WritePage(id, page);
        forall other: PageId ensures ReadFrom(pager.pages, other) == if other == id then page else ReadFrom(before, other) {
          ReadWritten(before, id, page, other);
        }
        j := j + 1;
      }
    }

    /** The first half of `flush_all`: marks the dirty pages clean and collects them. */
    method CollectDirty() returns (toFlush: seq<(PageId, Page)>)
      requires Valid()
      modifies `slots
      ensures Collected(old(slots), slots, toFlush) && Listed(slots, order, capacity)
    {
      toFlush := [];
      var i: nat := 0;
      while i < |order|
        invariant i <= |order| && slots.Keys == old(slots).Keys
        invariant forall id {:trigger slots[id]} :: id in slots ==> slots[id].page == old(slots)[id].page
        invariant forall k {:trigger order[k]} :: 0 <= k < |order| ==>
                    slots[order[k]].dirty == if k < i then false else old(slots)[order[k]].dirty
        invariant forall k {:trigger toFlush[k]} :: 0 <= k < |toFlush| ==> IsDirty(old(slots), toFlush[k])
        invariant forall k {:trigger order[k]} :: 0 <= k < i && old(slots)[order[k]].dirty ==>
                    (order[k], old(slots)[order[k]].page) in toFlush
      {
        var id := order[i];
        var slot := slots[id];
        if slot.dirty {
          toFlush := toFlush + [(id, slot.page)];
          slots := slots[id := slot.(dirty := false)];
        }
        i := i + 1;
      }
      forall id | id in slots
        ensures !slots[id].dirty && (old(slots)[id].dirty ==> (id, old(slots)[id].page) in toFlush)
      {
        assert id in order;
      }
    }

    /** Counts a dirty write; every `syncInterval` of them everything is flushed. */
    method CountWrite()
      requires Valid()
      modifies `slots, `dirtyWrites, pager
      ensures Valid() && dirtyWrites == NextCount(old(dirtyWrites), syncInterval)
      ensures SameView(old(slots), old(pager.pages), slots, pager.pages, {})
      ensures if FlushDue(old(dirtyWrites), syncInterval) then AllClean(old(slots), slots) && OnDisk(slots, pager.pages)
              else slots == old(slots) && unchanged(pager)
    {
      if syncInterval > 0 {
        dirtyWrites := dirtyWrites + 1;
        if dirtyWrites >= syncInterval {
          dirtyWrites := 0;
          FlushAll();
        }
      }
    }

    /** `mark_dirty`: a cached page counts as used and, unless a flush is due, is dirty. */
    method MarkDirty(id: PageId)
      requires Valid() && id < U32_MAX
      modifies `slots, `order, `dirtyWrites, pager
      ensures Valid() && dirtyWrites == NextCount(old(dirtyWrites), syncInterval)
      ensures SameView(old(slots), old(pager.pages), slots, pager.pages, {})
      ensures order == if id in old(slots) then Promoted(old(order), id) else old(order)
      ensures var marked := if id in old(slots) then old(slots)[id := old(slots)[id].(dirty := true)] else old(slots);
              if FlushDue(old(dirtyWrites), syncInterval) then AllClean(marked, slots) && OnDisk(slots, pager.pages)
              else slots == marked && unchanged(pager)
    {
      if id in slots {
        PromotedListed(slots, order, capacity, id, slots[id].(dirty := true));
        slots, order := slots[id := slots[id].(dirty := true)], Promoted(order, id);
      }
      CountWrite();
    }

    /** `write_page`: what is read at `id` becomes `page`, and nothing else changes. */
    method WritePage(id: PageId, page: Page)
      requires Valid() && id < U32_MAX
      modifies `slots, `order, `dirtyWrites, pager
      ensures Valid() && View(id) == page && dirtyWrites == NextCount(old(dirtyWrites), syncInterval)
      ensures SameView(old(slots), old(pager.pages), slots, pager.pages, {0, id})
      ensures order == Promoted(old(KeptOrder(slots, order, capacity, id)), id)
      ensures var put := old(KeptSlots(slots, order, capacity, id))[id := Slot(page, true)];
              if FlushDue(old(dirtyWrites), syncInterval) then AllClean(put, slots) && OnDisk(slots, pager.pages)
              else slots == put && (!old(NeedsRoom(slots, order, capacity, id)) ==> unchanged(pager))
    {
      PutAndEvict(id, page, true);
      assert View(id) == page;
      CountWrite();
    }

    /** `allocate_page`: the new page reads as blank exactly if the cache has nothing else for it, and the cache stays
        in order exactly if it has no other clean copy of it. */
    method AllocatePage() returns (r: Option<PageId>)
      requires Valid()
      modifies pager
      ensures r.Some? ==> (View(r.value) == Blank() <==> r.value !in slots || slots[r.value].page == Blank())
      ensures Valid() <==> r.Some? && r.value in slots && !slots[r.value].dirty ==> slots[r.value].page == Blank()
      ensures SameView(slots, old(pager.pages), slots, pager.pages, if r.Some? then {0, r.value} else {0})
      ensures var head := FreeHead(old(pager.pages)[0]);
              r == if 0 < head < |old(pager.pages)| then Some(head)
                   else if |old(pager.pages)| < U32_MAX then Some(|old(pager.pages)|) else None
      ensures old(pager.Valid()) ==> pager.Valid()
      ensures old(pager.Valid()) && r.Some? ==> old(pager.alloc).Take() == Some((r.value, pager.alloc))
    {
      r := pager.AllocatePage();
    }

    /** `free_page`: the page leaves the cache and goes to the free list. */
    method FreePage(id: PageId)
      requires Valid()
      modifies `slots, `order, pager
      ensures Valid() && slots == old(slots) - {id} && order == Without(old(order), id)
      ensures SameView(old(slots), old(pager.pages), slots, pager.pages, {0, id})
      ensures old(pager.Valid()) && id in old(pager.alloc).Live() ==>
                pager.Valid() && pager.alloc == old(pager.alloc).Give(id)
    {
      Forget(id);
      pager.FreePage(id);
    }

    /** The page leaves the cache, without being written. */
    method Forget(id: PageId)
      requires Valid()
      modifies `slots, `order
      ensures Valid() && slots == old(slots) - {id} && order == Without(old(order), id)
      ensures SameView(old(slots), pager.pages, slots, pager.pages, {id})
    {
      if id in slots {
        Dropped(slots, order, capacity, pager.pages, id);
        slots, order := slots - {id}, Without(order, id);
      } else {
        WithoutAbsent(order, id);
      }
    }
  }

  // ---- Flushing ----

  ghost predicate IsDirty(slots: map<PageId, Slot>, p: (PageId, Page)) {
    p.0 in slots && slots[p.0].dirty && slots[p.0].page == p.1
  }

  /** The dirty pages were collected and are now marked clean. */
  ghost predicate Collected(slots: map<PageId, Slot>, slots': map<PageId, Slot>, toFlush: seq<(PageId, Page)>) {
    && slots'.Keys == slots.Keys
    && (forall id {:trigger slots'[id]} :: id in slots' ==> slots'[id] == Slot(slots[id].page, false))
    && (forall k {:trigger toFlush[k]} :: 0 <= k < |toFlush| ==> IsDirty(slots, toFlush[k]))
    && (forall id {:trigger slots[id]} :: id in slots && slots[id].dirty ==> (id, slots[id].page) in toFlush)
  }

  lemma AllFlushed(slots: map<PageId, Slot>, slots': map<PageId, Slot>, pages: seq<Page>, pages': seq<Page>,
                   toFlush: seq<(PageId, Page)>)
    requires Collected(slots, slots', toFlush) && CleanOnDisk(slots, pages)
    requires forall k {:trigger toFlush[k]} :: 0 <= k < |toFlush| ==> ReadFrom(pages', toFlush[k].0) == toFlush[k].1
    requires forall id: PageId {:trigger ReadFrom(pages', id)} ::
               || ReadFrom(pages', id) == ReadFrom(pages, id)
               || (Dirty(slots, id) && ReadFrom(pages', id) == slots[id].page)
    ensures CleanOnDisk(slots', pages')
    ensures SameView(slots, pages, slots', pages', {})
    ensures forall id: PageId {:trigger ReadFrom(pages', id)} ::
              ReadFrom(pages', id) == if Dirty(slots, id) then slots[id].page else ReadFrom(pages, id)
  {
    forall id | id in slots && slots[id].dirty ensures ReadFrom(pages', id) == slots[id].page {
      var k :| 0 <= k < |toFlush| && toFlush[k] == (id, slots[id].page);
    }
  }

  /** A dirty copy of a page is in the cache. */
  predicate Dirty(slots: map<PageId, Slot>, id: PageId) {
    id in slots && slots[id].dirty
  }

  /** No free page has a dirty copy in the cache. */
  ghost predicate NoneFree(slots: map<PageId, Slot>, free: seq<PageId>) {
    forall id {:trigger id in free} :: id in free ==> !Dirty(slots, id)
  }

  /** A dirty copy of page 0 has the same list head as page 0 on disk. */
  ghost predicate HeadKept(slots: map<PageId, Slot>, pages: seq<Page>)
    requires |pages| > 0
  {
    Dirty(slots, 0) ==> FreeHead(slots[0].page) == FreeHead(pages[0])
  }

  /** Writing back all dirty pages keeps the free list exactly if it keeps its head. */
  lemma FlushedList(slots: map<PageId, Slot>, pages: seq<Page>, pages': seq<Page>, free: seq<PageId>)
    requires FreeList(pages, free) && |pages| <= |pages'| && NoneFree(slots, free)
    requires forall id: PageId {:trigger ReadFrom(pages', id)} ::
               ReadFrom(pages', id) == if Dirty(slots, id) then slots[id].page else ReadFrom(pages, id)
    ensures FreeList(pages', free) <==> HeadKept(slots, pages)
  {
    assert pages'[0] == ReadFrom(pages', 0);
    if HeadKept(slots, pages) {
      forall i | 0 <= i < |free| ensures 0 < free[i] < |pages'| && NextFree(pages'[free[i]]) == At(free, i + 1) {
        assert free[i] in free && pages'[free[i]] == ReadFrom(pages', free[i]);
      }
    }
  }

  // ---- Page 0 ----

  /** Why page 0 is left out: the pager changes it on disk only, so a dirty copy of it in the cache is out of date. After
      a flush, the next allocation hands out a live page exactly if the list head in that copy is the id of one. */
  method StaleMetadata(pool: BufferPool) returns (r: Option<PageId>)
    requires pool.Valid() && pool.pager.Valid() && Dirty(pool.slots, 0)
    modifies pool, pool.pager
    ensures r.Some? && r.value in old(pool.pager.alloc).Live() <==>
            FreeHead(old(pool.slots)[0].page) in old(pool.pager.alloc).Live()
  {
    pool.FlushAll();
    r := pool.AllocatePage();
  }

  /** A new pool where page 1 is free and page 0 has been read and written back through the cache. */
  method StalePool() returns (pool: BufferPool)
    ensures fresh(pool) && fresh(pool.pager) && pool.Valid() && pool.pager.Valid()
    ensures pool.pager.alloc == Allocator([1], 2) && pool.slots.Keys == {0}
    ensures pool.slots[0].dirty && FreeHead(pool.slots[0].page) == 1
  {
    var pager := new Pager();
    pool := new BufferPool(pager, 8, 0);
    var r := pool.AllocatePage();
    pool.FreePage(1);
    assert pager.alloc == Allocator([1], 2) && pool.order == [];
    var meta := pool.FetchPage(0);
    pool.WritePage(0, meta);
  }

  /** It happens: in this pool page 1 is allocated, and after a flush it is allocated a second time, without having been
      freed. */
  method AllocatedTwice() returns (first: Option<PageId>, second: Option<PageId>)
    ensures first == second == Some(1)
  {
    var pool := StalePool();
    first := pool.AllocatePage();
    assert pool.pager.alloc == Allocator([], 2);
    pool.FlushAll();
    second := pool.AllocatePage();
  }
}
