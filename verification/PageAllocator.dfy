/** The allocation discipline of the page file, as the layers above the pager see it: a stack of freed page
    ids and the number of pages in the file. Page 0 holds metadata and is never handed out. */
module PageAllocator {
  import opened Common
  import opened Bytes
  import opened Nodes

  /** The id that stands for "no page" in stored links. */
  const NO_PAGE: PageId := U32_MAX

  datatype Allocator = Allocator(free: seq<PageId>, numPages: nat) {
    ghost predicate Valid() {
      && 1 <= numPages <= U32_MAX
      && Distinct(free)
      && (forall id :: id in free ==> 0 < id < numPages)
    }

    /** The pages that are in use. */
    ghost function Live(): set<PageId> {
      set id | 0 < id < numPages && id !in free
    }

    /** A freed page if there is one, otherwise a new page at the end of the file. There is none when all
        page ids below the `NO_PAGE` marker are taken. */
    function Take(): Option<(PageId, Allocator)> {
      if free != [] then Some((free[0], this.(free := free[1..])))
      else if numPages < U32_MAX then Some((numPages, this.(numPages := numPages + 1)))
      else None
    }

    function Give(id: PageId): Allocator {
      this.(free := [id] + free)
    }
  }

  /** Taking a page never hands out a live one, and makes exactly it live. */
  lemma TakeFresh(a: Allocator)
    requires a.Valid() && a.Take().Some?
    ensures var (id, b) := a.Take().value;
            && b.Valid() && id !in a.Live() && b.Live() == a.Live() + {id}
            && 0 < id < NO_PAGE && a.numPages <= b.numPages
  {
    var (id, b) := a.Take().value;
    if a.free != [] {
      assert a.free == [id] + b.free;
      assert forall x :: x in a.free <==> x == id || x in b.free;
      assert id !in b.free;
    }
    assert forall x :: x in b.Live() <==> x in a.Live() || x == id;
  }

  /** Giving back a live page makes exactly it free. */
  lemma GiveBack(a: Allocator, id: PageId)
    requires a.Valid() && id in a.Live()
    ensures a.Give(id).Valid() && a.Give(id).Live() == a.Live() - {id}
  {
    var b := a.Give(id);
    assert forall x :: x in b.free <==> x == id || x in a.free;
    assert forall x :: x in b.Live() <==> x in a.Live() && x != id;
  }

  /** A page given back is the next one handed out. */
  lemma GiveThenTake(a: Allocator, id: PageId)
    ensures a.Give(id).Take() == Some((id, a))
  {
    assert ([id] + a.free)[1..] == a.free;
  }
}
