/** What the cached pages mean: frames in front of the disk, read as one page store. */
module StoreSpec {
  import opened Bytes
  import opened CacheSpec

  type Pages = map<int, Data>

  /** A page has a meaning once it is on disk or in a dirty frame. */
  predicate Written(c: Cache, dirty: seq<bool>, disk: Pages, p: int)
    requires c.Mapped() && |dirty| == |c.page|
  {
    p in disk || DirtyIn(c, dirty, p)
  }

  predicate DirtyIn(c: Cache, dirty: seq<bool>, p: int)
    requires c.Mapped() && |dirty| == |c.page|
  {
    p in c.table && dirty[c.table[p]]
  }

  /** Frames and disk together hold `store`: the frame's bytes where the page is cached, the disk's
      bytes otherwise; and a clean frame of a written page equals the disk. */
  ghost predicate Coherent(c: Cache, dirty: seq<bool>, bytes: seq<Data>, disk: Pages, store: Pages) {
    && c.Sized() && c.Mapped() && |dirty| == |bytes| == |c.page|
    && (forall i :: 0 <= i < |dirty| && dirty[i] ==> c.page[i] != NO_PAGE)
    && (forall p :: p in store <==> Written(c, dirty, disk, p))
    && (forall p :: p in store && p in c.table ==> bytes[c.table[p]] == store[p])
    && (forall p :: p in store && !DirtyIn(c, dirty, p) ==> disk[p] == store[p])
  }

  ghost predicate PageSized(pages: Pages) {
    forall p :: p in pages ==> |pages[p]| == PAGE_SIZE
  }

  lemma FlushCoherent(c: Cache, dirty: seq<bool>, bytes: seq<Data>, disk: Pages, store: Pages, i: nat)
    requires Coherent(c, dirty, bytes, disk, store) && i < |dirty| && dirty[i]
    ensures c.page[i] in c.table
    ensures Coherent(c, dirty[i := false], bytes, disk[c.page[i] := bytes[i]], store)
  {
    var d, w := dirty[i := false], disk[c.page[i] := bytes[i]];
    forall p
      ensures p in store <==> Written(c, d, w, p)
    {
      assert p in store <==> Written(c, dirty, disk, p);
    }
  }

  lemma UnassignCoherent(c: Cache, dirty: seq<bool>, bytes: seq<Data>, disk: Pages, store: Pages, i: nat)
    requires Coherent(c, dirty, bytes, disk, store) && i < |dirty| && !dirty[i]
    ensures Coherent(c.Unassign(i), dirty, bytes, disk, store)
  {
    var e := c.Unassign(i);
    forall p
      ensures p in store <==> Written(e, dirty, disk, p)
    {
      assert p in store <==> Written(c, dirty, disk, p);
    }
    forall p | p in store && !DirtyIn(e, dirty, p)
      ensures disk[p] == store[p]
    {
      assert !DirtyIn(c, dirty, p);
    }
  }

  lemma LoadCoherent(c: Cache, dirty: seq<bool>, bytes: seq<Data>, disk: Pages, store: Pages,
                     pid: int, i: nat, d: Data)
    requires Coherent(c, dirty, bytes, disk, store)
    requires i < |c.page| && c.page[i] == NO_PAGE && 0 <= pid < I32_LIMIT && pid !in c.table
    requires pid in disk ==> d == disk[pid]
    ensures Coherent(c.Assign(pid, i), dirty, bytes[i := d], disk, store)
  {
    var e := c.Assign(pid, i);
    assert !dirty[i];
    forall p
      ensures p in store <==> Written(e, dirty, disk, p)
    {
      assert p in store <==> Written(c, dirty, disk, p);
    }
    forall p | p in store && !DirtyIn(e, dirty, p)
      ensures disk[p] == store[p]
    {
      assert !DirtyIn(c, dirty, p);
    }
  }

  /** Marking a written frame dirty changes the meaning of its page alone. */
  lemma MarkCoherent(c: Cache, dirty: seq<bool>, bytes: seq<Data>, disk: Pages, store: Pages, i: nat, d: Data)
    requires Coherent(c, dirty, bytes, disk, store) && i < |dirty| && c.page[i] != NO_PAGE
    ensures Coherent(c, dirty[i := true], bytes[i := d], disk, store[c.page[i] := d])
  {
    var m := dirty[i := true];
    forall p
      ensures p in store[c.page[i] := d] <==> Written(c, m, disk, p)
    {
      assert p in store <==> Written(c, dirty, disk, p);
    }
    forall p | p in store[c.page[i] := d] && !DirtyIn(c, m, p)
      ensures disk[p] == store[c.page[i] := d][p]
    {
      assert p != c.page[i] && !DirtyIn(c, dirty, p);
    }
  }

  /** Only the page assignment matters to coherence, not pins, bits, hand or free stack. */
  lemma SameAssignmentCoherent(c: Cache, e: Cache, dirty: seq<bool>, bytes: seq<Data>, disk: Pages, store: Pages)
    requires Coherent(c, dirty, bytes, disk, store)
    requires e.Sized() && e.page == c.page && e.table == c.table
    ensures Coherent(e, dirty, bytes, disk, store)
  {
    forall p
      ensures p in store <==> Written(e, dirty, disk, p)
    {
      assert p in store <==> Written(c, dirty, disk, p);
    }
    forall p | p in store && !DirtyIn(e, dirty, p)
      ensures disk[p] == store[p]
    {
      assert !DirtyIn(c, dirty, p);
    }
  }

  lemma CleanIsDisk(c: Cache, dirty: seq<bool>, bytes: seq<Data>, disk: Pages, store: Pages)
    requires Coherent(c, dirty, bytes, disk, store) && forall i :: 0 <= i < |dirty| ==> !dirty[i]
    ensures disk == store
  {
    forall p
      ensures p in store <==> p in disk
    {
      assert p in store <==> Written(c, dirty, disk, p);
    }
    forall p | p in store
      ensures disk[p] == store[p]
    {
      assert !DirtyIn(c, dirty, p);
    }
  }
}
