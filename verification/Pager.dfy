/** The page file. Page 0 holds metadata, among it the head of the list of free pages; each free page holds the id
    of the next. */
module Pager {
  import opened Common
  import opened Bytes
  import opened Nodes
  import opened PageAllocator

  const META_MAGIC: bytes := [0x4D, 0x47, 0x44, 0x42]

  function Blank(): Page {
    seq(PAGE_SIZE, _ => 0)
  }

  function Blanks(n: nat): seq<Page> {
    seq(n, _ => Blank())
  }

  /** `read_page`: a page beyond the end of the file reads as blank. */
  function ReadFrom(pages: seq<Page>, id: PageId): Page {
    if id < |pages| then pages[id] else Blank()
  }

  /** `write_page`: writing beyond the end extends the file, with blank pages in between. */
  function Written(pages: seq<Page>, id: PageId, page: Page): seq<Page> {
    if id < |pages| then pages[id := page] else pages + Blanks(id - |pages|) + [page]
  }

  /** A write changes what is read at its id, and nothing else. */
  lemma ReadWritten(pages: seq<Page>, id: PageId, page: Page, other: PageId)
    ensures ReadFrom(Written(pages, id, page), other) == if other == id then page else ReadFrom(pages, other)
    ensures |Written(pages, id, page)| == if id < |pages| then |pages| else id + 1
  {
  }

  // ---- The free list ----

  function FreeHead(meta: Page): PageId {
    FromLE(meta[8..12])
  }

  function NextFree(page: Page): PageId {
    FromLE(page[0..4])
  }

  /** The rest of the metadata stays. */
  function WithFreeHead(meta: Page, id: PageId): (page: Page)
    ensures page[..8] == meta[..8] && page[12..] == meta[12..]
  {
    Splice(meta, 8, LE(id, 4))
  }

  lemma FreeHeadBack(meta: Page, id: PageId)
    requires id < TWO_32
    ensures FreeHead(WithFreeHead(meta, id)) == id
  {
    assert WithFreeHead(meta, id)[8..12] == LE(id, 4);
    FromLE32(id);
  }

  function FreedPage(next: PageId): Page {
    Splice(Blank(), 0, LE(next, 4))
  }

  lemma NextFreeBack(next: PageId)
    requires next < TWO_32
    ensures NextFree(FreedPage(next)) == next
  {
    assert FreedPage(next)[0..4] == LE(next, 4);
    FromLE32(next);
  }

  /** Element `i` of the list, or the marker of its end. */
  function At(free: seq<PageId>, i: nat): PageId {
    if i < |free| then free[i] else NO_PAGE
  }

  /** The pages linked from page 0 on are `free`, in this order, each once, and the last link is the end marker. */
  ghost predicate FreeList(pages: seq<Page>, free: seq<PageId>) {
    && |pages| > 0 && FreeHead(pages[0]) == At(free, 0)
    && Distinct(free)
    && forall i {:trigger free[i]} :: 0 <= i < |free| ==>
         0 < free[i] < |pages| && NextFree(pages[free[i]]) == At(free, i + 1)
  }

  /** What the file looks like after page `id` is freed. */
  function Freed(pages: seq<Page>, id: PageId): seq<Page>
    requires 0 < id < |pages|
  {
    pages[id := FreedPage(FreeHead(pages[0]))][0 := WithFreeHead(pages[0], id)]
  }

  lemma PopFree(pages: seq<Page>, free: seq<PageId>)
    requires FreeList(pages, free) && free != []
    ensures FreeHead(pages[0]) == free[0] && 0 < free[0] < |pages| && NextFree(pages[free[0]]) < TWO_32
    ensures FreeList(pages[0 := WithFreeHead(pages[0], NextFree(pages[free[0]]))][free[0] := Blank()], free[1..])
  {
    var next := NextFree(pages[free[0]]);
    assert next == At(free, 1) == At(free[1..], 0);
    assert 1 < |free| ==> 0 < free[1] < |pages|;
    NextFits(pages[free[0]]);
    FreeHeadBack(pages[0], next);
    var after := pages[0 := WithFreeHead(pages[0], next)][free[0] := Blank()];
    forall i | 0 <= i < |free[1..]|
      ensures 0 < free[1..][i] < |after| && NextFree(after[free[1..][i]]) == At(free[1..], i + 1)
    {
      assert free[1..][i] == free[i + 1] != free[0];
    }
  }

  lemma NextFits(page: Page)
    ensures NextFree(page) < TWO_32
  {
    var s := page[0..4];
    assert FromLEAt(s, 4) == 0;
    assert FromLEAt(s, 3) == s[3] as nat;
    assert FromLEAt(s, 2) == s[2] as nat + 256 * FromLEAt(s, 3);
    assert FromLEAt(s, 1) == s[1] as nat + 256 * FromLEAt(s, 2);
  }

  lemma PushFree(pages: seq<Page>, free: seq<PageId>, id: PageId)
    requires FreeList(pages, free) && 0 < id < |pages| <= U32_MAX && id !in free
    ensures FreeList(Freed(pages, id), [id] + free)
  {
    var after, more := Freed(pages, id), [id] + free;
    FreeHeadBack(pages[0], id);
    NextFreeBack(FreeHead(pages[0]));
    forall i | 0 <= i < |more| ensures 0 < more[i] < |after| && NextFree(after[more[i]]) == At(more, i + 1) {
      if i > 0 {
        assert more[i] == free[i - 1] && free[i - 1] in free;
      }
    }
  }

  /** Freeing a page is safe exactly if it is not free already: otherwise the list becomes a cycle, and no sequence of
      distinct pages is the list any more. */
  lemma DoubleFree(pages: seq<Page>, free: seq<PageId>, id: PageId)
    requires FreeList(pages, free) && 0 < id < |pages| <= U32_MAX
    ensures (exists after :: FreeList(Freed(pages, id), after)) <==> id !in free
  {
    if id !in free {
      PushFree(pages, free, id);
    } else {
      forall after ensures !FreeList(Freed(pages, id), after) {
        NoListAfter(pages, free, id, after);
      }
    }
  }

  lemma NoListAfter(pages: seq<Page>, free: seq<PageId>, id: PageId, after: seq<PageId>)
    requires FreeList(pages, free) && 0 < id < |pages| <= U32_MAX && id in free
    ensures !FreeList(Freed(pages, id), after)
  {
    if FreeList(Freed(pages, id), after) {
      FreeHeadBack(pages[0], id);
      NextFreeBack(FreeHead(pages[0]));
      AllLinked(pages, free);
      AllLinked(Freed(pages, id), after);
      var k :| 0 <= k < |free| && free[k] == id;
      assert after[0] == id && Linked(Freed(pages, id), after, 0);
      Cycle(pages, free, id, k, after, 0);
    }
  }

  lemma AllLinked(pages: seq<Page>, free: seq<PageId>)
    requires FreeList(pages, free)
    ensures forall j: nat {:trigger Linked(pages, free, j)} :: Linked(pages, free, j) && At(free, j) != 0
  {
    forall j: nat ensures Linked(pages, free, j) && At(free, j) != 0 {
      if j < |free| {
        assert 0 < free[j];
      }
    }
  }

  /** Element `i` of the list links to the next one. */
  ghost predicate Linked(pages: seq<Page>, free: seq<PageId>, i: nat) {
    i < |free| ==> free[i] < |pages| && NextFree(pages[free[i]]) == At(free, i + 1)
  }

  /** After a double free the list passes through the former free pages and comes back to the freed one. */
  lemma {:induction false} Cycle(pages: seq<Page>, free: seq<PageId>, id: PageId, k: nat, after: seq<PageId>, i: nat)
    requires 0 < id < |pages| && k < |free| && free[k] == id && free[k] !in free[..k]
    requires forall j: nat {:trigger Linked(pages, free, j)} :: Linked(pages, free, j) && At(free, j) != 0
    requires forall j: nat {:trigger Linked(Freed(pages, id), after, j)} :: Linked(Freed(pages, id), after, j)
    requires i <= k && i + 1 < |after| && after[i + 1] == free[i] && |pages| <= U32_MAX
    ensures k + 1 < |after| && after[k + 1] == id
    decreases k - i
  {
    if i < k {
      assert free[i] in free[..k];
      assert Linked(pages, free, i) && Linked(pages, free, i + 1) && Linked(Freed(pages, id), after, i + 1);
      Cycle(pages, free, id, k, after, i + 1);
    }
  }

  // ---- The file ----

  class Pager {
    var pages: seq<Page>
    /** The free pages in the order they will be handed out, and the number of pages. */
    ghost var alloc: Allocator

    /** Page 0, the free pages and the live pages are all there is. */
    ghost predicate Valid()
      reads this
    {
      alloc.Valid() && alloc.numPages == |pages| && FreeList(pages, alloc.free)
    }

    /** `open` of an empty file. */
    constructor ()
      ensures Valid() && alloc == Allocator([], 1)
      ensures |pages| == 1 && pages[0][..4] == META_MAGIC && FreeHead(pages[0]) == NO_PAGE
      ensures forall i :: 4 <= i < PAGE_SIZE && !(8 <= i < 12) ==> pages[0][i] == 0
    {
      var meta := Splice(Blank(), 0, META_MAGIC);
      pages, alloc := [WithFreeHead(meta, NO_PAGE)], Allocator([], 1);
      FreeHeadBack(meta, NO_PAGE);
    }

    method ReadPage(id: PageId) returns (page: Page)
      ensures page == ReadFrom(pages, id)
    {
      if id >= |pages| { return Blank(); }
      return pages[id];
    }

    /** Writing a page that is not free keeps the free list exactly if it is not page 0 with another list head. */
    method WritePage(id: PageId, page: Page)
      requires id < U32_MAX
      modifies this
      ensures pages == Written(old(pages), id, page)
      ensures alloc == Allocator(old(alloc.free), |pages|)
      ensures old(Valid()) && id !in old(alloc.free) ==>
                (Valid() <==> (id == 0 ==> FreeHead(page) == old(FreeHead(pages[0]))))
    {
      if id >= |pages| {
        pages := pages + Blanks(id - |pages|);
        pages := pages + [page];
      } else {
        pages := pages[id := page];
      }
      alloc := alloc.(numPages := |pages|);
    }

    /** `allocate_page`: the head of the free list or a new page, blank in either case. It is the allocator's choice,
        and no other page but page 0 changes. */
    method AllocatePage() returns (r: Option<PageId>)
      requires 0 < |pages| <= U32_MAX
      modifies this
      ensures 0 < |pages| <= U32_MAX
      ensures r.Some? ==> r.value < |pages| && pages[r.value] == Blank() && r.value != 0
      ensures forall id: PageId {:trigger ReadFrom(pages, id)} :: id != 0 && r != Some(id) ==>
                ReadFrom(pages, id) == ReadFrom(old(pages), id)
      ensures var head := FreeHead(old(pages)[0]);
              r == if 0 < head < |old(pages)| then Some(head)
                   else if |old(pages)| < U32_MAX then Some(|old(pages)|) else None
      ensures var head := FreeHead(old(pages)[0]);
              pages == if 0 < head < |old(pages)| then
                         old(pages)[0 := WithFreeHead(old(pages)[0], NextFree(old(pages)[head]))][head := Blank()]
                       else if r.Some? then old(pages) + [Blank()] else old(pages)
      ensures old(Valid()) ==> Valid() && (r.None? <==> old(alloc).Take().None?)
      ensures old(Valid()) && r.Some? ==> old(alloc).Take() == Some((r.value, alloc))
    {
      var meta := pages[0];
      var head := FreeHead(meta);
      if head != NO_PAGE && head < |pages| && head != 0 {
        var next := NextFree(pages[head]);
        if Valid() {
          PopFree(pages, alloc.free);
          alloc := alloc.(free := alloc.free[1..]);
        }
        pages := pages[0 := WithFreeHead(meta, next)];
        pages := pages[head := Blank()];
        r := Some(head);
      } else if |pages| < U32_MAX {
        r := Some(|pages|);
        pages := pages + [Blank()];
        alloc := alloc.(numPages := |pages|);
      } else {
        r := None;
      }
    }

    /** `free_page`: page 0 and pages beyond the end are ignored; a live page goes to the front of the free list. */
    method FreePage(id: PageId)
      requires 0 < |pages| <= U32_MAX
      modifies this
      ensures id == 0 || id >= |old(pages)| ==> pages == old(pages) && alloc == old(alloc)
      ensures 0 < id < |old(pages)| ==> pages == Freed(old(pages), id)
      ensures old(Valid()) && id in old(alloc).Live() ==> Valid() && alloc == old(alloc).Give(id)
    {
      if id == 0 || id >= |pages| { return; }
      if Valid() && id in alloc.Live() {
        PushFree(pages, alloc.free, id);
        GiveBack(alloc, id);
        alloc := alloc.Give(id);
      }
      var meta := pages[0];
      pages := pages[id := FreedPage(FreeHead(meta))];
      pages := pages[0 := WithFreeHead(meta, id)];
    }
  }
}
