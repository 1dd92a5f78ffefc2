/** The slotted page over one byte buffer: a header (record count, record-area start),
    a directory of (offset, length) entries growing up, and record bytes growing down. */
module SlottedPage {
  import opened Bytes
  import opened PageSpec

  // ----- the byte layout, read off a page image -----

  predicate Sized(page: Data, base: nat) {
    |page| == PAGE_SIZE && base + HEADER_SIZE <= PAGE_SIZE
  }

  function NumSlots(page: Data, base: nat): nat
    requires Sized(page, base)
  {
    U16At(page, base)
  }

  function RecordStart(page: Data, base: nat): nat
    requires Sized(page, base)
  {
    U16At(page, base + 2)
  }

  function EntryAt(base: nat, i: nat): nat {
    base + HEADER_SIZE + i * SLOT_SIZE
  }

  function DirectoryEnd(page: Data, base: nat): nat
    requires Sized(page, base)
  {
    EntryAt(base, NumSlots(page, base))
  }

  function Offset(page: Data, base: nat, i: nat): nat
    requires Sized(page, base) && EntryAt(base, i + 1) <= PAGE_SIZE
  {
    U16At(page, EntryAt(base, i))
  }

  function Length(page: Data, base: nat, i: nat): nat
    requires Sized(page, base) && EntryAt(base, i + 1) <= PAGE_SIZE
  {
    U16At(page, EntryAt(base, i) + 2)
  }

  /** The fields as bytes: two each, the least significant first; the record count and the start of the
      records in the header, then offset and length of each entry. */
  lemma LayoutBytes(page: Data, base: nat, i: nat)
    requires Sized(page, base) && base + 4 + 4 * i + 4 <= PAGE_SIZE
    ensures NumSlots(page, base) == page[base] as nat + 256 * page[base + 1] as nat
    ensures RecordStart(page, base) == page[base + 2] as nat + 256 * page[base + 3] as nat
    ensures var e := base + 4 + 4 * i;
            && Offset(page, base, i) == page[e] as nat + 256 * page[e + 1] as nat
            && Length(page, base, i) == page[e + 2] as nat + 256 * page[e + 3] as nat
  {
  }

  /** The directory ends before the record area starts, and the record area ends with the page. */
  predicate Bounded(page: Data, base: nat) {
    Sized(page, base) && DirectoryEnd(page, base) <= RecordStart(page, base) <= PAGE_SIZE
  }

  /** The bytes of record `i` lie in the record area, whether or not it is deleted. */
  predicate Placed(page: Data, base: nat, i: nat)
    requires Bounded(page, base) && i < NumSlots(page, base)
  {
    && RecordStart(page, base) <= Offset(page, base, i)
    && Offset(page, base, i) + Length(page, base, i) <= PAGE_SIZE
  }

  /** No byte belongs to both records. */
  predicate Apart(page: Data, base: nat, i: nat, j: nat)
    requires Bounded(page, base) && i < NumSlots(page, base) && j < NumSlots(page, base)
  {
    Length(page, base, i) > 0 && Length(page, base, j) > 0 ==>
      || Offset(page, base, i) + Length(page, base, i) <= Offset(page, base, j)
      || Offset(page, base, j) + Length(page, base, j) <= Offset(page, base, i)
  }

  ghost predicate WellFormed(page: Data, base: nat) {
    && Bounded(page, base)
    && (forall i :: 0 <= i < NumSlots(page, base) ==> Placed(page, base, i))
    && (forall i, j :: 0 <= i < j < NumSlots(page, base) ==> Apart(page, base, i, j))
  }

  ghost function RecordBytes(page: Data, base: nat, i: nat): Data
    requires WellFormed(page, base) && i < NumSlots(page, base)
  {
    assert Placed(page, base, i);
    if Length(page, base, i) == 0 then []
    else page[Offset(page, base, i)..Offset(page, base, i) + Length(page, base, i)]
  }

  /** The meaning of a page image. */
  ghost function View(page: Data, base: nat): PageView
    requires WellFormed(page, base)
  {
    PageView(seq(NumSlots(page, base), i requires 0 <= i < NumSlots(page, base) => RecordBytes(page, base, i)),
             RecordStart(page, base) - DirectoryEnd(page, base))
  }

  /** Record `i` is live and occupies `len` bytes from `at`: what a view of it denotes. */
  ghost predicate Lies(page: Data, base: nat, i: nat, at: nat, len: nat) {
    && WellFormed(page, base) && i < NumSlots(page, base)
    && 0 < len == Length(page, base, i) && at == Offset(page, base, i)
  }

  /** From `p` to `q`, every record but `k` kept its place and its bytes. */
  ghost predicate Kept(p: Data, q: Data, base: nat, k: int) {
    && WellFormed(p, base) && WellFormed(q, base) && NumSlots(p, base) <= NumSlots(q, base)
    && forall i :: 0 <= i < NumSlots(p, base) && i != k ==>
         SameEntry(p, q, base, i) && RecordBytes(q, base, i) == RecordBytes(p, base, i)
  }

  lemma KeptSame(p: Data, base: nat, k: int)
    requires WellFormed(p, base)
    ensures Kept(p, p, base, k)
  {
    forall i | 0 <= i < NumSlots(p, base)
      ensures SameEntry(p, p, base, i)
    {
    }
  }

  /** So a view of another record still denotes it. */
  lemma KeptView(p: Data, q: Data, base: nat, k: int, i: nat, at: nat, len: nat)
    requires Kept(p, q, base, k) && i != k && Lies(p, base, i, at, len)
    ensures Lies(q, base, i, at, len)
    ensures |q| == |p| == PAGE_SIZE && at + len <= PAGE_SIZE && q[at..at + len] == p[at..at + len]
    ensures i < |View(p, base).slots| && i < |View(q, base).slots|
    ensures View(q, base).slots[i] == View(p, base).slots[i] == p[at..at + len]
  {
    assert SameEntry(p, q, base, i) && RecordBytes(q, base, i) == RecordBytes(p, base, i);
    assert Placed(p, base, i) && Placed(q, base, i);
  }

  /** What the page operations need of a page image to find record `k`. */
  lemma Parts(page: Data, base: nat, k: nat)
    requires WellFormed(page, base)
    ensures Bounded(page, base) && |View(page, base).slots| == NumSlots(page, base)
    ensures View(page, base).free == RecordStart(page, base) - DirectoryEnd(page, base)
    ensures k < NumSlots(page, base) ==>
              Placed(page, base, k) && |View(page, base).slots[k]| == Length(page, base, k)
  {
    assert k < NumSlots(page, base) ==> Placed(page, base, k);
  }

  // ----- byte-level effects lifted to the page view -----

  /** Directory entry `i` reads the same in both images. */
  ghost predicate SameEntry(p: Data, q: Data, base: nat, i: nat)
    requires Sized(p, base) && Sized(q, base) && EntryAt(base, i + 1) <= PAGE_SIZE
  {
    Offset(p, base, i) == Offset(q, base, i) && Length(p, base, i) == Length(q, base, i)
  }

  lemma FieldAgree(p: Data, q: Data, at: nat)
    requires |p| == |q| && at + 2 <= |p| && Agree(p, q, at, at + 2)
    ensures U16At(p, at) == U16At(q, at)
  {
    assert p[at] == q[at] && p[at + 1] == q[at + 1];
  }

  lemma EntryAgree(p: Data, q: Data, base: nat, i: nat)
    requires Sized(p, base) && Sized(q, base) && EntryAt(base, i + 1) <= PAGE_SIZE
    requires Agree(p, q, EntryAt(base, i), EntryAt(base, i + 1))
    ensures SameEntry(p, q, base, i)
  {
    var at := EntryAt(base, i);
    assert p[at] == q[at] && p[at + 1] == q[at + 1] && p[at + 2] == q[at + 2] && p[at + 3] == q[at + 3];
  }

  /** The bytes in front of the header do not matter. */
  lemma BodyDecides(p: Data, q: Data, base: nat)
    requires WellFormed(p, base) && |q| == PAGE_SIZE && Agree(p, q, base, PAGE_SIZE)
    ensures WellFormed(q, base) && View(q, base) == View(p, base) && Kept(p, q, base, -1)
  {
    assert p[base] == q[base] && p[base + 1] == q[base + 1] && p[base + 2] == q[base + 2] && p[base + 3] == q[base + 3];
    forall i | 0 <= i < NumSlots(p, base)
      ensures SameEntry(p, q, base, i) && Placed(q, base, i)
    {
      EntryAgree(p, q, base, i);
      assert Placed(p, base, i);
    }
    forall i, j | 0 <= i < j < NumSlots(p, base)
      ensures Apart(q, base, i, j)
    {
      assert Apart(p, base, i, j) && SameEntry(p, q, base, i) && SameEntry(p, q, base, j);
    }
    forall i | 0 <= i < NumSlots(p, base)
      ensures RecordBytes(q, base, i) == RecordBytes(p, base, i)
    {
      assert SameEntry(p, q, base, i) && Placed(p, base, i);
    }
    assert View(q, base).slots == View(p, base).slots;
  }

  /** A page image with one more record, placed right below the old record area. */
  lemma Appended(p: Data, q: Data, base: nat, d: Data)
    requires WellFormed(p, base) && View(p, base).Fits(d) && Sized(q, base)
    requires NumSlots(q, base) == NumSlots(p, base) + 1
    requires RecordStart(q, base) == RecordStart(p, base) - |d|
    requires forall i :: 0 <= i < NumSlots(p, base) ==> SameEntry(p, q, base, i)
    requires Offset(q, base, NumSlots(p, base)) == RecordStart(q, base)
    requires Length(q, base, NumSlots(p, base)) == |d|
    requires q[RecordStart(q, base)..RecordStart(p, base)] == d
    requires Agree(p, q, RecordStart(p, base), PAGE_SIZE)
    ensures WellFormed(q, base) && View(q, base) == View(p, base).Insert(d) && Kept(p, q, base, -1)
  {
    hide U16At;
    var n := NumSlots(p, base);
    forall i | 0 <= i < n + 1
      ensures Placed(q, base, i)
    {
      assert i < n ==> Placed(p, base, i) && SameEntry(p, q, base, i);
    }
    forall i, j | 0 <= i < j < n + 1
      ensures Apart(q, base, i, j)
    {
      assert Placed(p, base, i) && SameEntry(p, q, base, i);
      assert j < n ==> Apart(p, base, i, j) && SameEntry(p, q, base, j);
    }
    forall i | 0 <= i < n
      ensures RecordBytes(q, base, i) == RecordBytes(p, base, i)
    {
      assert Placed(p, base, i) && SameEntry(p, q, base, i);
    }
    assert RecordBytes(q, base, n) == d;
    assert View(q, base).slots == View(p, base).slots + [d];
  }

  /** A page image in which record `k` alone was rewritten, shortened, moved or dropped. */
  lemma Replaced(p: Data, q: Data, base: nat, k: nat, d: Data)
    requires WellFormed(p, base) && Sized(q, base) && k < NumSlots(p, base)
    requires NumSlots(q, base) == NumSlots(p, base)
    requires DirectoryEnd(p, base) <= RecordStart(q, base) <= RecordStart(p, base)
    requires forall i :: 0 <= i < NumSlots(p, base) && i != k ==> SameEntry(p, q, base, i)
    requires Length(q, base, k) == |d|
    requires RecordStart(q, base) <= Offset(q, base, k) && Offset(q, base, k) + |d| <= PAGE_SIZE
    requires q[Offset(q, base, k)..Offset(q, base, k) + |d|] == d
    requires || (Offset(q, base, k) == Offset(p, base, k) && |d| <= Length(p, base, k))
             || Offset(q, base, k) + |d| <= RecordStart(p, base)
    requires Agree(p, q, RecordStart(p, base), Offset(q, base, k))
    requires Agree(p, q, Offset(q, base, k) + |d|, PAGE_SIZE)
    ensures WellFormed(q, base) && Kept(p, q, base, k)
    ensures View(q, base) == PageView(View(p, base).slots[k := d], RecordStart(q, base) - DirectoryEnd(p, base))
  {
    hide U16At;
    var n := NumSlots(p, base);
    forall i | 0 <= i < n
      ensures Placed(q, base, i)
    {
      assert i != k ==> Placed(p, base, i) && SameEntry(p, q, base, i);
    }
    forall i, j | 0 <= i < j < n
      ensures Apart(q, base, i, j)
    {
      assert Placed(p, base, i) && Placed(p, base, j) && Apart(p, base, i, j);
      assert (i != k ==> SameEntry(p, q, base, i)) && (j != k ==> SameEntry(p, q, base, j));
    }
    forall i | 0 <= i < n && i != k
      ensures RecordBytes(q, base, i) == RecordBytes(p, base, i)
    {
      assert Placed(p, base, i) && Placed(p, base, k) && SameEntry(p, q, base, i);
      assert if i < k then Apart(p, base, i, k) else Apart(p, base, k, i);
    }
    assert RecordBytes(q, base, k) == d;
    assert View(q, base).slots == View(p, base).slots[k := d];
  }

  // ----- the page object: a non-owning view of a buffer -----

  datatype SlottedPage = SlottedPage(data: array<byte>, base: nat) {

    ghost predicate Valid()
      reads data
    {
      WellFormed(data[..], base)
    }

    ghost function Contents(): PageView
      reads data
      requires Valid()
    {
      View(data[..], base)
    }

    method Init()
      requires data.Length == PAGE_SIZE && base + HEADER_SIZE <= PAGE_SIZE
      modifies data
      ensures Valid() && Contents() == PageView([], PAGE_SIZE - base - HEADER_SIZE)
      ensures Agree(data[..], old(data[..]), 0, base)
    {
      StoreU16(data, base, 0);
      ghost var mid := data[..];
      StoreU16(data, base + 2, PAGE_SIZE);
      assert U16At(data[..], base) == U16At(mid, base);
    }

    function FreeSpace(): (n: nat)
      requires Valid()
      reads data
      ensures n == Contents().free
    {
      RecordStart(data[..], base) - DirectoryEnd(data[..], base)
    }

    function GetNumSlots(): (n: nat)
      requires Valid()
      reads data
      ensures n == |Contents().slots|
    {
      NumSlots(data[..], base)
    }

    method Insert(d: Data) returns (slot: Option<nat>)
      requires Valid()
      modifies data
      ensures Valid()
      ensures slot == if old(Contents()).Fits(d) then Some(|old(Contents()).slots|) else None
      ensures Contents() == if slot.Some? then old(Contents()).Insert(d) else old(Contents())
      ensures slot.Some? <==> |d| + SLOT_SIZE <= old(Contents()).free
      ensures slot.Some? ==> slot.value == |old(Contents()).slots| && Contents().slots == old(Contents()).slots + [d]
      ensures slot.Some? ==> Contents().free == old(Contents()).free - |d| - SLOT_SIZE
      ensures slot.Some? ==>
        && slot.value < NumSlots(data[..], base)
        && Offset(data[..], base, slot.value) == RecordStart(data[..], base) == old(RecordStart(data[..], base)) - |d|
      ensures slot.None? ==> data[..] == old(data[..])
      ensures slot.Some? ==> slot.value < U16_LIMIT
      ensures Kept(old(data[..]), data[..], base, -1)
      ensures Agree(data[..], old(data[..]), 0, base)
    {
      hide WellFormed, View, RecordBytes, U16At, Kept, Placed, SameEntry;
      Parts(data[..], base, 0);
      KeptSame(data[..], base, -1);
      if FreeSpace() < |d| + SLOT_SIZE {
        return None;
      }
      ghost var p := data[..];
      var n := NumSlots(data[..], base);
      var start := RecordStart(data[..], base) - |d|;
      var entry := EntryAt(base, n);

      StoreU16(data, base + 2, start);
      ghost var early := data[..];
      CopyInto(data, start, d);
      StoreU16(data, entry, start);
      ghost var mid := data[..];
      StoreU16(data, entry + 2, |d|);
      ghost var late := data[..];
      StoreU16(data, base, n + 1);

      ghost var q := data[..];
      FieldAgree(early, q, base + 2);
      FieldAgree(mid, q, entry);
      FieldAgree(late, q, entry + 2);
      assert q[start..start + |d|] == mid[start..start + |d|] == d;
      forall i | 0 <= i < n
        ensures SameEntry(p, q, base, i)
      {
        EntryAgree(p, q, base, i);
      }
      Appended(p, q, base, d);
      return Some(n);
    }

    /** The record's bytes as a borrowed span of the page buffer. */
    function Get(slot: nat): (r: Option<Span>)
      requires Valid()
      reads data
      ensures r.Some? <==> Contents().Live(slot)
      ensures r.Some? <==> slot < |Contents().slots| && Contents().slots[slot] != []
      ensures r.Some? ==> r.value.buf == data && r.value.InBounds() && r.value.Read() == Contents().slots[slot]
      ensures r.Some? ==> EntryAt(base, |Contents().slots|) <= r.value.at
      ensures r.Some? ==> Lies(data[..], base, slot, r.value.at, r.value.len)
    {
      if slot >= NumSlots(data[..], base) then None
      else
        assert Placed(data[..], base, slot);
        var len := Length(data[..], base, slot);
        assert Contents().slots[slot] == RecordBytes(data[..], base, slot);
        if len == 0 then None
        else Some(Span(data, Offset(data[..], base, slot), len))
    }

    method Update(slot: nat, d: Data) returns (ok: bool)
      requires Valid()
      modifies data
      ensures Valid()
      ensures ok == old(Contents()).CanUpdate(slot, d)
      ensures Contents() == if ok then old(Contents()).Update(slot, d) else old(Contents())
      ensures var v := old(Contents());
              && (ok <==> slot < |v.slots| && (|d| <= |v.slots[slot]| || |d| <= v.free))
              && (ok ==> Contents().slots == v.slots[slot := d])
              && (ok ==> Contents().free == v.free - if |d| <= |v.slots[slot]| then 0 else |d|)
      ensures !ok ==> data[..] == old(data[..])
      ensures Kept(old(data[..]), data[..], base, slot)
      ensures Agree(data[..], old(data[..]), 0, base)
    {
      KeptSame(data[..], base, slot);
      if slot >= NumSlots(data[..], base) {
        return false;
      }
      ghost var p := data[..];
      assert Placed(p, base, slot) && |Contents().slots[slot]| == Length(p, base, slot);
      if Length(data[..], base, slot) >= |d| {
        Shrink(slot, d);
      } else {
        if FreeSpace() < |d| {
          return false;
        }
        Relocate(slot, d);
      }
      return true;
    }

    /** The in-place branch of `Update`. */
    method Shrink(slot: nat, d: Data)
      requires Valid() && slot < |Contents().slots| && |d| <= |Contents().slots[slot]|
      modifies data
      ensures Valid() && Contents() == old(Contents()).Update(slot, d)
      ensures Contents().slots == old(Contents()).slots[slot := d] && Contents().free == old(Contents()).free
      ensures slot < NumSlots(data[..], base) && Offset(data[..], base, slot) == old(Offset(data[..], base, slot))
      ensures Kept(old(data[..]), data[..], base, slot)
      ensures Agree(data[..], old(data[..]), 0, base)
    {
      hide WellFormed, View, RecordBytes, U16At, Kept;
      Parts(data[..], base, slot);
      ghost var p := data[..];
      assert Placed(p, base, slot);
      var at := Offset(data[..], base, slot);
      CopyInto(data, at, d);
      ghost var mid := data[..];
      StoreU16(data, EntryAt(base, slot) + 2, |d|);

      ghost var q := data[..];
      FieldAgree(p, q, base);
      FieldAgree(p, q, base + 2);
      FieldAgree(p, q, EntryAt(base, slot));
      forall i | 0 <= i < NumSlots(p, base) && i != slot
        ensures SameEntry(p, q, base, i)
      {
        EntryAgree(p, q, base, i);
      }
      assert q[at..at + |d|] == mid[at..at + |d|];
      Replaced(p, q, base, slot, d);
    }

    /** The branch of `Update` that moves the record to fresh space. */
    method Relocate(slot: nat, d: Data)
      requires Valid() && slot < |Contents().slots|
      requires |Contents().slots[slot]| < |d| <= Contents().free
      modifies data
      ensures Valid() && Contents() == old(Contents()).Update(slot, d)
      ensures Contents().slots == old(Contents()).slots[slot := d] && Contents().free == old(Contents()).free - |d|
      ensures slot < NumSlots(data[..], base)
      ensures Offset(data[..], base, slot) == RecordStart(data[..], base) == old(RecordStart(data[..], base)) - |d|
      ensures Kept(old(data[..]), data[..], base, slot)
      ensures Agree(data[..], old(data[..]), 0, base)
    {
      hide WellFormed, View, RecordBytes, U16At, Kept;
      Parts(data[..], base, slot);
      ghost var p := data[..];
      var entry := EntryAt(base, slot);
      var start := RecordStart(data[..], base) - |d|;
      StoreU16(data, base + 2, start);
      ghost var early := data[..];
      StoreU16(data, entry, start);
      ghost var mid := data[..];
      StoreU16(data, entry + 2, |d|);
      ghost var late := data[..];
      CopyInto(data, start, d);

      ghost var q := data[..];
      FieldAgree(p, q, base);
      FieldAgree(early, q, base + 2);
      FieldAgree(mid, q, entry);
      FieldAgree(late, q, entry + 2);
      forall i | 0 <= i < NumSlots(p, base) && i != slot
        ensures SameEntry(p, q, base, i)
      {
        EntryAgree(p, q, base, i);
      }
      Replaced(p, q, base, slot, d);
    }

    method Delete(slot: nat) returns (ok: bool)
      requires Valid()
      modifies data
      ensures Valid()
      ensures ok == (slot < |old(Contents()).slots|)
      ensures Contents() == if ok then old(Contents()).Delete(slot) else old(Contents())
      ensures ok ==> Contents().slots == old(Contents()).slots[slot := []] && Contents().free == old(Contents()).free
      ensures !ok ==> data[..] == old(data[..])
      ensures Kept(old(data[..]), data[..], base, slot)
      ensures Agree(data[..], old(data[..]), 0, base)
    {
      KeptSame(data[..], base, slot);
      if slot >= NumSlots(data[..], base) {
        return false;
      }
      ghost var p := data[..];
      assert Placed(p, base, slot);
      StoreU16(data, EntryAt(base, slot) + 2, 0);

      ghost var q := data[..];
      assert U16At(q, EntryAt(base, slot)) == U16At(p, EntryAt(base, slot));
      assert U16At(q, base) == U16At(p, base) && U16At(q, base + 2) == U16At(p, base + 2);
      forall i | 0 <= i < NumSlots(p, base) && i != slot
        ensures SameEntry(p, q, base, i)
      {
        EntryAgree(p, q, base, i);
      }
      Replaced(p, q, base, slot, []);
      return true;
    }
  }
}
