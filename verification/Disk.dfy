/** The database file as a map from page id to page image, and the page allocator. */
module Disk {
  import opened Bytes

  class DiskManager {
    var pages: map<int, Data>
    var numPages: nat  // the length of the file, in pages
    var freePages: seq<int>
    var nextPage: int

    ghost predicate Valid()
      reads this
    {
      && 0 <= nextPage <= I32_LIMIT && numPages <= I32_LIMIT
      && (forall p :: p in pages ==> 0 <= p < numPages && |pages[p]| == PAGE_SIZE)
      && (forall i :: 0 <= i < |freePages| ==> 0 <= freePages[i] < nextPage)
      && (forall i, j :: 0 <= i < j < |freePages| ==> freePages[i] != freePages[j])
    }

    /** Ids that a later `AllocatePage` may still return. */
    ghost predicate Allocatable(p: int)
      reads this
    {
      p in freePages || p >= nextPage
    }

    /** The id that the next `AllocatePage` returns. */
    function Next(): int
      reads this
    {
      if |freePages| > 0 then freePages[|freePages| - 1] else nextPage
    }

    /** And the one after that. */
    function After(): int
      reads this
    {
      if |freePages| > 1 then freePages[|freePages| - 2] else nextPage + 1 - |freePages|
    }

    /** How many more pages can be handed out before 32-bit page ids overflow. */
    function Room(): int
      reads this
    {
      |freePages| + I32_LIMIT - nextPage
    }

    /** Opens a file of `length` pages; the length fixes the next fresh page id. */
    constructor (file: map<int, Data>, length: nat)
      requires length <= I32_LIMIT && forall p :: p in file ==> 0 <= p < length && |file[p]| == PAGE_SIZE
      ensures Valid() && pages == file && freePages == [] && numPages == length
      ensures forall p :: p in file ==> !Allocatable(p)
    {
      pages, numPages := file, length;
      freePages, nextPage := [], length;
    }

    /** Reads a written page. What a never-written page leaves in the buffer is not specified. */
    method ReadPage(p: int, buf: array<byte>)
      requires Valid() && buf.Length == PAGE_SIZE
      modifies buf
      ensures p in pages ==> buf[..] == pages[p]
    {
      if p in pages {
        CopyInto(buf, 0, pages[p]);
        assert buf[..] == buf[0..0 + |pages[p]|];
      } else {
        for k := 0 to buf.Length {
          buf[k] := *;
        }
      }
    }

    method WritePage(p: int, buf: array<byte>)
      requires Valid() && buf.Length == PAGE_SIZE && 0 <= p < I32_LIMIT
      modifies this`pages, this`numPages
      ensures Valid() && pages == old(pages)[p := buf[..]]
    {
      pages := pages[p := buf[..]];
      numPages := if p < numPages then numPages else p + 1;
    }

    /** Hands out a freed page if there is one, otherwise the next page past the end. */
    method AllocatePage() returns (p: int)
      requires Valid() && Room() > 0
      modifies this`freePages, this`nextPage
      ensures Valid() && p == old(Next()) && 0 <= p < I32_LIMIT && Room() == old(Room()) - 1
      ensures Next() == old(After())
      ensures old(freePages) != [] ==> old(freePages) == freePages + [p] && nextPage == old(nextPage)
      ensures old(freePages) == [] ==> p == old(nextPage) && nextPage == p + 1 && freePages == []
      ensures old(Allocatable(p)) && !Allocatable(p)
      ensures forall q :: q != p ==> (Allocatable(q) <==> old(Allocatable(q)))
    {
      if |freePages| > 0 {
        p := freePages[|freePages| - 1];
        freePages := freePages[..|freePages| - 1];
        assert old(freePages) == freePages + [p];
      } else {
        p := nextPage;
        nextPage := nextPage + 1;
      }
    }

    method DeallocatePage(p: int)
      requires Valid() && 0 <= p < nextPage && p !in freePages
      modifies this`freePages
      ensures Valid() && freePages == old(freePages) + [p]
      ensures forall q :: Allocatable(q) <==> old(Allocatable(q)) || q == p
    {
      freePages := freePages + [p];
    }
  }
}
