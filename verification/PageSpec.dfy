/** What a slotted page means: its records in slot order, and the bytes still free.
    An empty entry is a deleted (or zero-length) record, which reads as absent. */
module PageSpec {
  import opened Bytes

  /** Bytes of one directory entry: a 16-bit offset and a 16-bit length. */
  const SLOT_SIZE: nat := 4
  const HEADER_SIZE: nat := 4

  datatype PageView = PageView(slots: seq<Data>, free: nat) {

    predicate Fits(d: Data) {
      |d| + SLOT_SIZE <= free
    }

    function Insert(d: Data): PageView
      requires Fits(d)
    {
      PageView(slots + [d], free - |d| - SLOT_SIZE)
    }

    function Get(i: nat): Option<Data> {
      if i < |slots| && slots[i] != [] then Some(slots[i]) else None
    }

    /** In place when the new bytes are no longer than the old ones, otherwise in fresh space. */
    predicate CanUpdate(i: nat, d: Data) {
      i < |slots| && (|d| <= |slots[i]| || |d| <= free)
    }

    function Update(i: nat, d: Data): PageView
      requires CanUpdate(i, d)
    {
      PageView(slots[i := d], if |d| <= |slots[i]| then free else free - |d|)
    }

    function Delete(i: nat): PageView
      requires i < |slots|
    {
      PageView(slots[i := []], free)
    }

    predicate Live(i: nat) {
      i < |slots| && slots[i] != []
    }
  }
}
