/** A heap file in the page store: slotted pages linked through their heap headers. */
module HeapChain {
  import opened Bytes
  import opened PageSpec
  import opened StoreSpec
  import opened HeapSpec
  import SlottedPage

  const END := -1

  ghost predicate IsHeapPage(page: Data) {
    SlottedPage.WellFormed(page, HEAP_HEADER)
  }

  ghost function Meaning(page: Data): (v: PageView)
    requires IsHeapPage(page)
    ensures v.free <= EMPTY_PAGE.free && |v.slots| < U16_LIMIT
  {
    SlottedPage.View(page, HEAP_HEADER)
  }

  /** The heap header: the id of the next page, or -1. */
  function NextOf(page: Data): int
    requires |page| == PAGE_SIZE
  {
    I32At(page, 0)
  }

  /** `chain` lists heap pages from `first`, each linked to the next and the last to `end`. */
  ghost predicate LinksTo(store: Pages, first: int, chain: seq<int>, end: int) {
    && first == (if chain == [] then end else chain[0])
    && Distinct(chain)
    && (forall i :: 0 <= i < |chain| ==>
          0 <= chain[i] < I32_LIMIT && chain[i] in store && IsHeapPage(store[chain[i]]))
    && (forall i {:trigger NextOf(store[chain[i]])} :: 0 <= i < |chain| ==>
          NextOf(store[chain[i]]) == if i + 1 < |chain| then chain[i + 1] else end)
  }

  /** `chain` lists all the heap's pages: the last is linked to -1. */
  ghost predicate IsChain(store: Pages, first: int, chain: seq<int>) {
    LinksTo(store, first, chain, END)
  }

  ghost function Contents(store: Pages, chain: seq<int>): (h: Heap)
    requires forall i :: 0 <= i < |chain| ==> chain[i] in store && IsHeapPage(store[chain[i]])
    ensures |h| == |chain| && Sized(h)
  {
    seq(|chain|, i requires 0 <= i < |chain| => Meaning(store[chain[i]]))
  }

  lemma PageInChain(store: Pages, first: int, chain: seq<int>, i: nat)
    requires IsChain(store, first, chain) && i < |chain|
    ensures chain[i] in store && IsHeapPage(store[chain[i]])
  {
  }

  /** The store and the first page id determine the chain. */
  lemma {:induction false} ChainUnique(store: Pages, first: int, c: seq<int>, d: seq<int>, k: nat)
    requires IsChain(store, first, c) && IsChain(store, first, d)
    requires k <= |c| && k <= |d| && c[..k] == d[..k]
    ensures c == d
    decreases |c| - k
  {
    if k > 0 {
      assert c[k - 1] == c[..k][k - 1] == d[..k][k - 1] == d[k - 1];
      assert NextOf(store[c[k - 1]]) == NextOf(store[d[k - 1]]);
    }
    assert k < |c| ==> 0 <= c[k];
    assert k < |d| ==> 0 <= d[k];
    if k == |c| {
      assert k == |d|;
      assert c[..k] == c && d[..k] == d;
    } else {
      assert k < |d| && c[k] == d[k];
      assert c[..k + 1] == c[..k] + [c[k]] && d[..k + 1] == d[..k] + [d[k]];
      ChainUnique(store, first, c, d, k + 1);
    }
  }

  /** The chain that starts at a page, if there is one. */
  ghost function ChainFrom(store: Pages, first: int): (chain: seq<int>)
    ensures (exists c :: IsChain(store, first, c)) ==> IsChain(store, first, chain)
  {
    if exists c :: IsChain(store, first, c) then
      var c :| IsChain(store, first, c); c
    else []
  }

  /** A chain reads the same in any store that agrees on its pages. */
  lemma ChainFramed(s: Pages, t: Pages, first: int, chain: seq<int>)
    requires IsChain(s, first, chain)
    requires forall i :: 0 <= i < |chain| ==> chain[i] in t && t[chain[i]] == s[chain[i]]
    ensures IsChain(t, first, chain) && Contents(t, chain) == Contents(s, chain)
  {
  }

  /** From `s` to `t`, page `p` alone was written: it now means `v` and links to `next`. */
  ghost predicate Rewritten(s: Pages, t: Pages, p: int, v: PageView, next: int) {
    && t.Keys == s.Keys + {p}
    && IsHeapPage(t[p]) && Meaning(t[p]) == v && NextOf(t[p]) == next
    && forall q :: q in s && q != p ==> t[q] == s[q]
  }

  /** From `s` to `t`, no page outside `touched` got, lost or changed its meaning. */
  ghost predicate SameOutside(s: Pages, t: Pages, touched: seq<int>) {
    && (forall q :: q in s && q !in touched ==> q in t && t[q] == s[q])
    && (forall q :: q in t && q !in touched ==> q in s)
  }

  /** On page `p`, every record but that of slot `k` kept its place and its bytes. */
  ghost predicate SlotsKept(s: Pages, t: Pages, p: int, k: int) {
    p in s && p in t && SlottedPage.Kept(s[p], t[p], HEAP_HEADER, k)
  }

  lemma PageKept(s: Pages, p: int, k: int)
    requires p in s && IsHeapPage(s[p])
    ensures SlotsKept(s, s, p, k)
  {
    SlottedPage.KeptSame(s[p], HEAP_HEADER, k);
  }

  /** On these pages, every record kept its place and its bytes. */
  ghost predicate EveryKept(s: Pages, t: Pages, chain: seq<int>) {
    forall q :: q in chain ==> SlotsKept(s, t, q, -1)
  }

  lemma NoneToKeep(s: Pages, t: Pages)
    ensures EveryKept(s, t, [])
  {
  }

  lemma KeptAlone(s: Pages, t: Pages, first: int, chain: seq<int>, p: int)
    requires IsChain(s, first, chain) && SameOutside(s, t, [p]) && (p in chain ==> SlotsKept(s, t, p, -1))
    ensures EveryKept(s, t, chain)
  {
    forall q | q in chain
      ensures SlotsKept(s, t, q, -1)
    {
      if q != p {
        SlottedPage.KeptSame(s[q], HEAP_HEADER, -1);
      }
    }
  }

  lemma KeptUntouched(s: Pages, first: int, chain: seq<int>)
    requires IsChain(s, first, chain)
    ensures EveryKept(s, s, chain)
  {
    KeptAlone(s, s, first, chain, END);
  }

  lemma RewriteInChain(s: Pages, t: Pages, first: int, chain: seq<int>, i: nat, v: PageView)
    requires IsChain(s, first, chain) && i < |chain|
    requires Rewritten(s, t, chain[i], v, NextOf(s[chain[i]]))
    ensures IsChain(t, first, chain) && Contents(t, chain) == Contents(s, chain)[i := v]
  {
    assert forall j :: 0 <= j < |chain| && j != i ==> chain[j] != chain[i];
  }

  /** A page, of this chain or not, rewritten with its link kept. */
  lemma PageEdited(s: Pages, t: Pages, first: int, chain: seq<int>, p: int, v: PageView)
    requires IsChain(s, first, chain) && p in s && IsHeapPage(s[p])
    requires Rewritten(s, t, p, v, NextOf(s[p]))
    ensures IsChain(t, first, chain) && SameOutside(s, t, [p]) && Meaning(t[p]) == v
    ensures p !in chain ==> Contents(t, chain) == Contents(s, chain)
    ensures forall i :: 0 <= i < |chain| && chain[i] == p ==> Contents(t, chain) == Contents(s, chain)[i := v]
  {
    if p in chain {
      var i :| 0 <= i < |chain| && chain[i] == p;
      RewriteInChain(s, t, first, chain, i, v);
    } else {
      ChainFramed(s, t, first, chain);
    }
  }

  /** The last page relinked and the new page written, seen from one page of the old chain. */
  lemma OldPageKept(s: Pages, t: Pages, u: Pages, first: int, chain: seq<int>, p: int, v: PageView, i: nat)
    requires IsChain(s, first, chain) && p !in chain && i < |chain|
    requires Rewritten(s, t, chain[|chain| - 1], Meaning(s[chain[|chain| - 1]]), p)
    requires Rewritten(t, u, p, v, END)
    ensures chain[i] in u && IsHeapPage(u[chain[i]]) && Meaning(u[chain[i]]) == Meaning(s[chain[i]])
    ensures NextOf(u[chain[i]]) == (chain + [p])[i + 1]
  {
    assert chain[i] in chain;
    assert i != |chain| - 1 ==> chain[i] != chain[|chain| - 1];
  }

  lemma KeptFurther(s: Pages, t: Pages, u: Pages, chain: seq<int>, p: int, v: PageView, next: int)
    requires EveryKept(s, t, chain) && p !in chain && Rewritten(t, u, p, v, next)
    ensures EveryKept(s, u, chain)
  {
    hide SlottedPage.Kept;
    forall q | q in chain
      ensures SlotsKept(s, u, q, -1)
    {
      assert SlotsKept(s, t, q, -1);
    }
  }

  /** Linking a new page behind the last one. */
  lemma ExtendChain(s: Pages, t: Pages, u: Pages, first: int, chain: seq<int>, p: int, v: PageView)
    requires IsChain(s, first, chain) && chain != [] && p !in chain && 0 <= p < I32_LIMIT
    requires Rewritten(s, t, chain[|chain| - 1], Meaning(s[chain[|chain| - 1]]), p)
    requires Rewritten(t, u, p, v, END) && SlotsKept(s, t, chain[|chain| - 1], -1)
    ensures IsChain(u, first, chain + [p]) && EveryKept(s, u, chain)
    ensures Contents(u, chain + [p]) == Contents(s, chain) + [v] && SameOutside(s, u, chain + [p])
  {
    hide SlotsKept, EveryKept, SlottedPage.View;
    KeptAlone(s, t, first, chain, chain[|chain| - 1]);
    KeptFurther(s, t, u, chain, p, v, END);
    var longer := chain + [p];
    assert longer[|chain| - 1] in longer && longer[|chain|] in longer;
    forall i | 0 <= i < |chain|
      ensures longer[i] in u && IsHeapPage(u[longer[i]]) && Meaning(u[longer[i]]) == Contents(s, chain)[i]
      ensures NextOf(u[longer[i]]) == longer[i + 1] && 0 <= longer[i] < I32_LIMIT
    {
      OldPageKept(s, t, u, first, chain, p, v, i);
    }
    assert longer[|chain|] == p;
  }

  /** Only the last page's link changed. */
  lemma RelinkLast(s: Pages, t: Pages, first: int, chain: seq<int>, p: int)
    requires IsChain(s, first, chain) && chain != []
    requires Rewritten(s, t, chain[|chain| - 1], Meaning(s[chain[|chain| - 1]]), p)
    requires SlotsKept(s, t, chain[|chain| - 1], -1)
    ensures LinksTo(t, first, chain, p) && Contents(t, chain) == Contents(s, chain)
    ensures SameOutside(s, t, chain) && t.Keys == s.Keys && EveryKept(s, t, chain)
  {
    KeptAlone(s, t, first, chain, chain[|chain| - 1]);
    assert forall j :: 0 <= j < |chain| - 1 ==> chain[j] != chain[|chain| - 1];
    assert chain[|chain| - 1] in chain;
  }

  /** A chain from `first` passes the pages that link to `end`, and goes on from there. */
  lemma {:induction false} PassesAll(store: Pages, first: int, chain: seq<int>, end: int, c: seq<int>, k: nat)
    requires LinksTo(store, first, chain, end) && IsChain(store, first, c) && end != END && k <= |chain|
    ensures k <= |c| && c[..k] == chain[..k]
    ensures if k < |c| then c[k] == (if k < |chain| then chain[k] else end) else false
  {
    if k > 0 {
      PassesAll(store, first, chain, end, c, k - 1);
      assert NextOf(store[c[k - 1]]) == NextOf(store[chain[k - 1]]);
    }
  }

  /** Pages that lead to `end` belong to a whole chain exactly when one starts at `end` that does
      not come back to them. */
  lemma ChainGoesOn(store: Pages, first: int, chain: seq<int>, end: int)
    requires LinksTo(store, first, chain, end) && end != END
    ensures (exists c :: IsChain(store, first, c))
       <==> exists rest :: IsChain(store, end, rest) && rest != [] && Distinct(chain + rest)
  {
    if c :| IsChain(store, first, c) {
      PassesAll(store, first, chain, end, c, |chain|);
      var rest := c[|chain|..];
      assert chain + rest == c;
      forall i | 0 <= i < |rest|
        ensures rest[i] == c[i + |chain|]
      {
      }
      assert IsChain(store, end, rest);
    }
    if rest :| IsChain(store, end, rest) && rest != [] && Distinct(chain + rest) {
      assert IsChain(store, first, chain + rest);
    }
  }

  /** So a link to a page without contents breaks the heap. */
  lemma LinkToNothing(store: Pages, first: int, chain: seq<int>, end: int)
    requires LinksTo(store, first, chain, end) && end != END && end !in store
    ensures forall c :: !IsChain(store, first, c)
  {
    ChainGoesOn(store, first, chain, end);
  }

  lemma StartChain(s: Pages, t: Pages, p: int)
    requires Rewritten(s, t, p, EMPTY_PAGE, END) && 0 <= p < I32_LIMIT
    ensures IsChain(t, p, [p]) && Contents(t, [p]) == [EMPTY_PAGE]
  {
  }
}
