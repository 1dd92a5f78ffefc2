/** When a run of inserts is scanned back in insertion order: exactly if the pages that first fit
    chooses never decrease. */
module RowOrder {
  import opened Bytes
  import opened PageSpec
  import opened HeapSpec
  import opened RowSpec

  /** The page that takes the `i`-th record of a run. */
  function PageOf(h: Heap, ds: seq<Data>, i: nat): nat
    requires i < |ds|
  {
    FirstFit(InsertAll(h, ds[..i]), ds[i])
  }

  /** No storable record lands on an earlier page than one before it. This depends on the free space
      of the pages and the lengths of the records only. */
  ghost predicate PagesRise(h: Heap, ds: seq<Data>) {
    forall i, j :: 0 <= i < j < |ds| && Storable(ds[i]) && Storable(ds[j]) ==> PageOf(h, ds, i) <= PageOf(h, ds, j)
  }

  predicate SameLengths(ds: seq<Data>, es: seq<Data>) {
    |ds| == |es| && forall i :: 0 <= i < |ds| ==> |ds[i]| == |es[i]|
  }

  lemma InsertSame(h: Heap, g: Heap, d: Data, e: Data)
    requires SameSpace(h, g) && |d| == |e|
    ensures SameSpace(InsertRecord(h, d).heap, InsertRecord(g, e).heap)
  {
    hide FirstFit;
    FitsSame(h, g, d, e);
    FitsSame([EMPTY_PAGE], [EMPTY_PAGE], d, e);
  }

  lemma {:induction false} InsertAllSame(h: Heap, g: Heap, ds: seq<Data>, es: seq<Data>)
    requires SameSpace(h, g) && SameLengths(ds, es)
    ensures SameSpace(InsertAll(h, ds), InsertAll(g, es))
  {
    hide InsertRecord;
    if ds != [] {
      var n := |ds| - 1;
      InsertAllSame(h, g, ds[..n], es[..n]);
      InsertSame(InsertAll(h, ds[..n]), InsertAll(g, es[..n]), ds[n], es[n]);
    }
  }

  /** Indeed it depends on nothing else. */
  lemma SpaceAndLengthsDecide(h: Heap, g: Heap, ds: seq<Data>, es: seq<Data>)
    requires SameSpace(h, g) && SameLengths(ds, es)
    ensures forall i :: 0 <= i < |ds| ==> PageOf(h, ds, i) == PageOf(g, es, i)
    ensures PagesRise(h, ds) <==> PagesRise(g, es)
  {
    hide FirstFit, InsertAll;
    forall i | 0 <= i < |ds|
      ensures PageOf(h, ds, i) == PageOf(g, es, i) && (Storable(ds[i]) <==> Storable(es[i]))
    {
      InsertAllSame(h, g, ds[..i], es[..i]);
      FitsSame(InsertAll(h, ds[..i]), InsertAll(g, es[..i]), ds[i], es[i]);
      assert (ds[i] == [] <==> |ds[i]| == 0) && (es[i] == [] <==> |es[i]| == 0);
    }
  }

  // ----- what an insert does to the scan from any page on -----

  lemma {:induction false} Suffix(h: Heap, i: nat, s: nat, j: nat) returns (x: seq<Data>)
    requires i < j || (i == j && s == 0)
    ensures RecordsFrom(h, i, s) == x + RecordsFrom(h, j, 0)
    decreases if i < j then j - i else 0, if i < |h| then |h[i].slots| - s else 0
  {
    hide RecordsFrom;
    if i == j {
      x := [];
    } else if i >= |h| {
      RecordsDone(h, i, s);
      RecordsDone(h, j, 0);
      x := [];
    } else {
      RecordsStep(h, i, s);
      if s >= |h[i].slots| {
        x := Suffix(h, i + 1, 0, j);
      } else {
        var y := Suffix(h, i, s + 1, j);
        x := Shown(h[i].slots[s]) + y;
        assert Shown(h[i].slots[s]) + (y + RecordsFrom(h, j, 0)) == x + RecordsFrom(h, j, 0);
      }
    }
  }

  /** A storable record lands on the page of its first fit. */
  lemma LandsAt(h: Heap, d: Data)
    requires Sized(h) && Storable(d)
    ensures InsertRecord(h, d).pos.Some? && InsertRecord(h, d).pos.value.page == FirstFit(h, d)
  {
    if h == [] {
      assert FirstFit([EMPTY_PAGE], d) == 0;
    }
  }

  /** From pages behind its own on, the scan does not notice the insert. */
  lemma BehindSame(h: Heap, d: Data, j: nat)
    requires Sized(h) && (Storable(d) ==> FirstFit(h, d) < j)
    ensures RecordsFrom(InsertRecord(h, d).heap, j, 0) == RecordsFrom(h, j, 0)
  {
    hide RecordsFrom;
    var g := InsertRecord(h, d).heap;
    if Storable(d) {
      LandsAt(h, d);
      if |g| == |h| {
        SameLaterPages(h, g, j, 0);
      } else {
        RecordsDone(g, j, 0);
        RecordsDone(h, j, 0);
      }
    } else {
      NothingStored(h, d, j);
    }
  }

  /** A record that is not storable leaves the scan as it is. */
  lemma NothingStored(h: Heap, d: Data, j: nat)
    requires Sized(h) && !Storable(d)
    ensures RecordsFrom(InsertRecord(h, d).heap, j, 0) == RecordsFrom(h, j, 0)
  {
    hide RecordsFrom;
    var e := if h == [] then [EMPTY_PAGE] else h;
    var g := InsertRecord(h, d).heap;
    SameScan(h, e, j);
    if |g| == |e| {
      if d == [] {
        EmptyChange(e, g, j, 0);
      }
    } else {
      SameScan(e, g, j);
    }
  }

  /** An empty record in a new slot shows nowhere. */
  lemma {:induction false} EmptyChange(h: Heap, g: Heap, i: nat, s: nat)
    requires |g| == |h| && forall k :: 0 <= k < |h| ==> g[k].slots == h[k].slots || g[k].slots == h[k].slots + [[]]
    ensures RecordsFrom(g, i, s) == RecordsFrom(h, i, s)
    decreases |h| - i, if i < |h| then |g[i].slots| - s else 0
  {
    hide RecordsFrom;
    if i >= |h| {
      RecordsDone(h, i, s);
      RecordsDone(g, i, s);
    } else {
      RecordsStep(h, i, s);
      RecordsStep(g, i, s);
      if s < |h[i].slots| {
        EmptyChange(h, g, i, s + 1);
      } else if s < |g[i].slots| {
        RecordsStep(g, i, s + 1);
        EmptyChange(h, g, i + 1, 0);
      } else {
        EmptyChange(h, g, i + 1, 0);
      }
    }
  }

  /** Neither do pages without records at the end. */
  lemma SameScan(h: Heap, g: Heap, j: nat)
    requires || h == g
             || (|g| == |h| + 1 && g[..|h|] == h && forall s :: 0 <= s < |g[|h|].slots| ==> g[|h|].slots[s] == [])
    requires h != g ==> |g[|h|].slots| <= 1
    ensures RecordsFrom(g, j, 0) == RecordsFrom(h, j, 0)
  {
    hide RecordsFrom;
    if h != g {
      var e := h + [PageView([], g[|h|].free)];
      if j <= |h| {
        EmptyTail(h, PageView([], g[|h|].free), j, 0);
        EmptyChange(e, g, j, 0);
      } else {
        RecordsDone(h, j, 0);
        RecordsDone(g, j, 0);
      }
    }
  }

  /** The scan from its own page on shows the record. */
  lemma ShownOnPage(h: Heap, d: Data) returns (x: seq<Data>, y: seq<Data>)
    requires Sized(h) && Storable(d)
    ensures RecordsFrom(InsertRecord(h, d).heap, FirstFit(h, d), 0) == x + [d] + y
  {
    hide RecordsFrom;
    var e := if h == [] then [EMPTY_PAGE] else h;
    var k := FirstFit(h, d);
    LandsAt(h, d);
    if k < |e| {
      x := AppendedInScan(e, k, d, k, 0);
      y := RecordsFrom(e, k + 1, 0);
    } else {
      var longer := e + [EMPTY_PAGE];
      x := AppendedInScan(longer, k, d, k, 0);
      y := RecordsFrom(longer, k + 1, 0);
      assert longer[k := EMPTY_PAGE.Insert(d)] == e + [EMPTY_PAGE.Insert(d)];
    }
  }

  // ----- what a reader makes of the records -----

  /** What a scan gives a reader who makes `f(d)` of the record `d`. */
  function Image<T>(ds: seq<Data>, f: Data -> seq<T>): seq<T> {
    if ds == [] then [] else f(ds[0]) + Image(ds[1..], f)
  }

  lemma {:induction false} ImageSplit<T>(a: seq<Data>, b: seq<Data>, f: Data -> seq<T>)
    ensures Image(a + b, f) == Image(a, f) + Image(b, f)
  {
    if a == [] {
      assert a + b == b;
    } else {
      assert (a + b)[1..] == a[1..] + b;
      ImageSplit(a[1..], b, f);
    }
  }

  lemma ImageOne<T>(d: Data, f: Data -> seq<T>)
    ensures Image([d], f) == f(d) && Image([], f) == []
  {
    assert Image([d][1..], f) == [];
  }

  /** The page of the last storable record so far. */
  function LastPage(h: Heap, ds: seq<Data>): Option<nat> {
    if ds == [] then None
    else if Storable(ds[|ds| - 1]) then Some(PageOf(h, ds, |ds| - 1))
    else LastPage(h, ds[..|ds| - 1])
  }

  lemma {:induction false} LastPageOf(h: Heap, ds: seq<Data>)
    ensures LastPage(h, ds).None? <==> forall i :: 0 <= i < |ds| ==> !Storable(ds[i])
    ensures LastPage(h, ds).Some? ==>
      exists i :: 0 <= i < |ds| && Storable(ds[i]) && PageOf(h, ds, i) == LastPage(h, ds).value
    ensures PagesRise(h, ds) ==>
      forall i :: 0 <= i < |ds| && Storable(ds[i]) ==> PageOf(h, ds, i) <= LastPage(h, ds).value
  {
    hide FirstFit, InsertAll;
    if ds != [] && !Storable(ds[|ds| - 1]) {
      var front := ds[..|ds| - 1];
      LastPageOf(h, front);
      SamePages(h, ds);
    }
  }

  lemma SamePages(h: Heap, ds: seq<Data>)
    requires ds != []
    ensures forall i :: 0 <= i < |ds| - 1 ==> PageOf(h, ds[..|ds| - 1], i) == PageOf(h, ds, i)
    ensures PagesRise(h, ds) ==> PagesRise(h, ds[..|ds| - 1])
  {
    hide FirstFit, InsertAll;
    var front := ds[..|ds| - 1];
    forall i | 0 <= i < |ds| - 1
      ensures PageOf(h, front, i) == PageOf(h, ds, i)
    {
      assert front[..i] == ds[..i];
    }
  }

  /** Whether the pages rise is decided record by record. */
  lemma RiseStep(h: Heap, ds: seq<Data>)
    requires ds != []
    ensures var front := ds[..|ds| - 1];
            PagesRise(h, ds) <==>
              && PagesRise(h, front)
              && (Storable(ds[|ds| - 1]) && LastPage(h, front).Some? ==>
                    LastPage(h, front).value <= PageOf(h, ds, |ds| - 1))
  {
    hide FirstFit, InsertAll, LastPage, PageOf;
    SamePages(h, ds);
    LastPageOf(h, ds[..|ds| - 1]);
  }

  /** The image of what a run stored. */
  ghost predicate SingleNew<T(!new)>(h: Heap, ds: seq<Data>, f: Data -> seq<T>) {
    && Sized(h) && Image(Records(h), f) == []
    && forall i :: 0 <= i < |ds| && Storable(ds[i]) ==> |f(ds[i])| == 1
  }

  lemma ImageInserted<T(!new)>(b: Heap, d: Data, f: Data -> seq<T>) returns (x: seq<T>, y: seq<T>)
    requires Sized(b) && Storable(d)
    ensures Image(Records(b), f) == x + y && y == Image(RecordsFrom(b, FirstFit(b, d) + 1, 0), f)
    ensures Image(Records(InsertRecord(b, d).heap), f) == x + f(d) + y
  {
    hide RecordsFrom, Image;
    var before, after := InsertedRecord(b, d);
    LandsAt(b, d);
    ImageSplit(before, after, f);
    ImageSplit(before + [d], after, f);
    ImageSplit(before, [d], f);
    ImageOne(d, f);
    x, y := Image(before, f), Image(after, f);
  }

  /** Nothing of the run lies behind the last page used, if the pages rose. */
  lemma TailEmpty<T(!new)>(b: Heap, j: nat, k: nat, f: Data -> seq<T>)
    requires j <= k && Image(RecordsFrom(b, j, 0), f) == []
    ensures Image(RecordsFrom(b, k, 0), f) == []
  {
    var x := Suffix(b, j, 0, k);
    ImageSplit(x, RecordsFrom(b, k, 0), f);
  }

  // ----- the theorem -----

  /** The heap and its scan after a run, seen through `f`. */
  ghost predicate RunSeen<T(!new)>(h: Heap, ds: seq<Data>, f: Data -> seq<T>) {
    var g, last := InsertAll(h, ds), LastPage(h, ds);
    && Sized(g)
    && multiset(Image(Records(g), f)) == multiset(Image(AllKept(ds), f))
    && (last.None? ==> Image(Records(g), f) == [])
    && (last.Some? ==> Image(RecordsFrom(g, last.value, 0), f) != [])
    && (PagesRise(h, ds) ==> Image(Records(g), f) == Image(AllKept(ds), f))
    && (PagesRise(h, ds) && last.Some? ==> Image(RecordsFrom(g, last.value + 1, 0), f) == [])
  }

  lemma {:induction false} RunImage<T(!new)>(h: Heap, ds: seq<Data>, f: Data -> seq<T>)
    requires SingleNew(h, ds, f)
    ensures RunSeen(h, ds, f)
  {
    hide RecordsFrom, Image, FirstFit, InsertRecord;
    if ds == [] {
      ImageOne([], f);
    } else {
      var front, d := ds[..|ds| - 1], ds[|ds| - 1];
      RunImage(h, front, f);
      RiseStep(h, ds);
      InsertAllSized(h, ds);
      ImageSplit(AllKept(front), Kept(d), f);
      ImageOne(d, f);
      if Storable(d) {
        OneMore(h, ds, f);
      } else {
        var b := InsertAll(h, front);
        NothingStored(b, d, 0);
        var last := LastPage(h, front);
        if last.Some? {
          NothingStored(b, d, last.value);
          NothingStored(b, d, last.value + 1);
        }
        assert AllKept(ds) == AllKept(front);
      }
    }
  }

  lemma RunStep(h: Heap, ds: seq<Data>)
    requires ds != [] && Storable(ds[|ds| - 1])
    ensures var front, d := ds[..|ds| - 1], ds[|ds| - 1];
            && InsertAll(h, ds) == InsertRecord(InsertAll(h, front), d).heap && AllKept(ds) == AllKept(front) + [d]
            && LastPage(h, ds) == Some(FirstFit(InsertAll(h, front), d))
            && PageOf(h, ds, |ds| - 1) == FirstFit(InsertAll(h, front), d)
  {
  }

  lemma OneMore<T(!new)>(h: Heap, ds: seq<Data>, f: Data -> seq<T>)
    requires ds != [] && SingleNew(h, ds, f) && Storable(ds[|ds| - 1])
    requires RunSeen(h, ds[..|ds| - 1], f)
    ensures RunSeen(h, ds, f)
  {
    hide RecordsFrom, Image, FirstFit, InsertRecord, InsertAll, AllKept, LastPage, PagesRise, PageOf;
    var front, d := ds[..|ds| - 1], ds[|ds| - 1];
    var b := InsertAll(h, front);
    RunStep(h, ds);
    RiseStep(h, ds);
    InsertAllSized(h, ds);
    var x, y := ImageInserted(b, d, f);
    ImageSplit(AllKept(front), [d], f);
    ImageOne(d, f);
    var u, v := ShownOnPage(b, d);
    ImageSplit(u + [d], v, f);
    ImageSplit(u, [d], f);
    assert multiset(x + f(d) + y) == multiset(x + y) + multiset(f(d));
    NewTail(h, ds, f, x, y);
  }

  /** Nothing lies behind the new record if the pages rose. */
  lemma NewTail<T(!new)>(h: Heap, ds: seq<Data>, f: Data -> seq<T>, x: seq<T>, y: seq<T>)
    requires ds != [] && SingleNew(h, ds, f) && Storable(ds[|ds| - 1]) && RunSeen(h, ds[..|ds| - 1], f)
    requires var b, k := InsertAll(h, ds[..|ds| - 1]), PageOf(h, ds, |ds| - 1);
             Image(Records(b), f) == x + y && y == Image(RecordsFrom(b, k + 1, 0), f)
    ensures PagesRise(h, ds) ==>
      y == [] && Image(RecordsFrom(InsertAll(h, ds), PageOf(h, ds, |ds| - 1) + 1, 0), f) == []
  {
    hide RecordsFrom, Image, FirstFit, InsertRecord, LastPage;
    var front, d := ds[..|ds| - 1], ds[|ds| - 1];
    var b, k := InsertAll(h, front), PageOf(h, ds, |ds| - 1);
    RiseStep(h, ds);
    if PagesRise(h, ds) {
      BehindSame(b, d, k + 1);
      if LastPage(h, front).Some? {
        TailEmpty(b, LastPage(h, front).value + 1, k + 1, f);
      }
    }
  }

  lemma LastIn<T>(a: seq<T>, c: T, b: seq<T>, s: seq<T>)
    requires a + [c] + b == s + [c]
    ensures b == [] || c in b
    ensures b == [] ==> a == s
  {
    var all := a + [c] + b;
    assert all[|all| - 1] == c;
    if b == [] {
      assert a == all[..|a|] && s == (s + [c])[..|s|];
    } else {
      assert b[|b| - 1] == c;
    }
  }

  /** In order after the last insert means in order before it, and that it went behind the rest. */
  lemma OrderBefore<T(!new)>(h: Heap, ds: seq<Data>, f: Data -> seq<T>)
    requires ds != [] && SingleNew(h, ds, f) && Storable(ds[|ds| - 1]) && RunSeen(h, ds[..|ds| - 1], f)
    requires Distinct(Image(AllKept(ds), f)) && Image(Records(InsertAll(h, ds)), f) == Image(AllKept(ds), f)
    ensures var front := ds[..|ds| - 1];
            && Distinct(Image(AllKept(front), f))
            && Image(Records(InsertAll(h, front)), f) == Image(AllKept(front), f)
            && (LastPage(h, front).Some? ==> LastPage(h, front).value <= PageOf(h, ds, |ds| - 1))
  {
    hide RecordsFrom, Image, FirstFit, InsertRecord, LastPage, PagesRise;
    var front, d := ds[..|ds| - 1], ds[|ds| - 1];
    var b := InsertAll(h, front);
    ImageSplit(AllKept(front), Kept(d), f);
    ImageOne(d, f);
    var x, y := ImageInserted(b, d, f);
    var c, kept := f(d)[0], Image(AllKept(front), f);
    assert f(d) == [c];
    FrontDistinct(kept, [c]);
    LastIsNew(kept, c);
    assert multiset(y)[c] <= multiset(x + y)[c];
    LastIn(x, c, y, kept);
    var last := LastPage(h, front);
    if last.Some? && FirstFit(b, d) < last.value {
      TailEmpty(b, FirstFit(b, d) + 1, last.value, f);
    }
  }

  /** A scan gives back what a run of inserts stored, in insertion order, if the pages chosen by first
      fit never decrease; and only then, if no two of the stored things are the same. */
  lemma {:induction false} OrderExactly<T(!new)>(h: Heap, ds: seq<Data>, f: Data -> seq<T>)
    requires SingleNew(h, ds, f)
    ensures PagesRise(h, ds) ==> Image(Records(InsertAll(h, ds)), f) == Image(AllKept(ds), f)
    ensures Distinct(Image(AllKept(ds), f)) && Image(Records(InsertAll(h, ds)), f) == Image(AllKept(ds), f)
        ==> PagesRise(h, ds)
  {
    hide RecordsFrom, Image, FirstFit, InsertRecord;
    RunImage(h, ds, f);
    if Distinct(Image(AllKept(ds), f)) && Image(Records(InsertAll(h, ds)), f) == Image(AllKept(ds), f) && ds != [] {
      var front, d := ds[..|ds| - 1], ds[|ds| - 1];
      RunImage(h, front, f);
      RiseStep(h, ds);
      if Storable(d) {
        OrderBefore(h, ds, f);
      } else {
        NothingStored(InsertAll(h, front), d, 0);
        assert AllKept(ds) == AllKept(front);
      }
      OrderExactly(h, front, f);
    }
  }

  lemma FrontDistinct<T>(a: seq<T>, b: seq<T>)
    requires Distinct(a + b)
    ensures Distinct(a)
  {
    assert forall i :: 0 <= i < |a| ==> a[i] == (a + b)[i];
  }

  lemma LastIsNew<T>(a: seq<T>, c: T)
    requires Distinct(a + [c])
    ensures c !in multiset(a)
  {
    assert (a + [c])[|a|] == c;
    assert forall i :: 0 <= i < |a| ==> a[i] == (a + [c])[i];
  }

  // ----- the records themselves, and their places -----

  function Itself(): Data -> seq<Data> {
    d => [d]
  }

  lemma {:induction false} ImageItself(ds: seq<Data>)
    ensures Image(ds, Itself()) == ds
  {
    if ds != [] {
      ImageItself(ds[1..]);
    }
  }

  /** Different records come back in insertion order exactly if the pages never decrease. */
  lemma ScansInOrderExactly(ds: seq<Data>)
    requires Distinct(AllKept(ds))
    ensures Records(InsertAll([EMPTY_PAGE], ds)) == AllKept(ds) <==> PagesRise([EMPTY_PAGE], ds)
  {
    hide RecordsFrom, Image;
    NothingYet();
    ImageItself([]);
    OrderExactly([EMPTY_PAGE], ds, Itself());
    ImageItself(Records(InsertAll([EMPTY_PAGE], ds)));
    ImageItself(AllKept(ds));
  }

  /** The place that the `i`-th record of a run is given. */
  function PlaceOf(h: Heap, ds: seq<Data>, i: nat): Option<Pos>
    requires i < |ds|
  {
    InsertRecord(InsertAll(h, ds[..i]), ds[i]).pos
  }

  lemma {:induction false} InsertAllGrows(h: Heap, ds: seq<Data>, i: nat, j: nat)
    requires i <= j <= |ds|
    ensures Grown(InsertAll(h, ds[..i]), InsertAll(h, ds[..j]))
    decreases j
  {
    hide InsertRecord;
    if i < j {
      assert ds[..j][..j - 1] == ds[..j - 1];
      InsertAllGrows(h, ds, i, j - 1);
      ApplyGrows(InsertAll(h, ds[..j - 1]), Insert(ds[j - 1]));
    }
  }

  /** The ids of storable records increase in scan order exactly if the pages never decrease. */
  lemma PlacesRiseExactly(h: Heap, ds: seq<Data>)
    requires Sized(h)
    ensures (forall i, j :: 0 <= i < j < |ds| && Storable(ds[i]) && Storable(ds[j]) ==>
               PlaceOf(h, ds, i).Some? && PlaceOf(h, ds, j).Some?
               && PlaceOf(h, ds, i).value.Before(PlaceOf(h, ds, j).value))
       <==> PagesRise(h, ds)
  {
    hide FirstFit, InsertAll, InsertRecord, PlaceOf;
    forall i, j | 0 <= i < j < |ds| && Storable(ds[i]) && Storable(ds[j])
      ensures PlaceOf(h, ds, i).Some? && PlaceOf(h, ds, j).Some?
      ensures PlaceOf(h, ds, i).value.Before(PlaceOf(h, ds, j).value) <==> PageOf(h, ds, i) <= PageOf(h, ds, j)
    {
      PlacePair(h, ds, i, j);
    }
  }

  lemma PlacePair(h: Heap, ds: seq<Data>, i: nat, j: nat)
    requires Sized(h) && i < j < |ds| && Storable(ds[i]) && Storable(ds[j])
    ensures PlaceOf(h, ds, i).Some? && PlaceOf(h, ds, j).Some?
    ensures PlaceOf(h, ds, i).value.Before(PlaceOf(h, ds, j).value) <==> PageOf(h, ds, i) <= PageOf(h, ds, j)
  {
    hide FirstFit, InsertRecord, InsertAll;
    var b, c := InsertAll(h, ds[..i]), InsertAll(h, ds[..j]);
    InsertAllSized(h, ds[..i]);
    InsertAllSized(h, ds[..j]);
    LandsAt(b, ds[i]);
    LandsAt(c, ds[j]);
    OneInserted(h, ds, i);
    InsertAllGrows(h, ds, i + 1, j);
    InsertChangesOne(b, ds[i]);
    InsertChangesOne(c, ds[j]);
    assert HasSlot(c, PlaceOf(h, ds, i).value);
  }

  lemma OneInserted(h: Heap, ds: seq<Data>, i: nat)
    requires i < |ds|
    ensures InsertAll(h, ds[..i + 1]) == InsertRecord(InsertAll(h, ds[..i]), ds[i]).heap
  {
    hide InsertRecord;
    assert ds[..i + 1][..i] == ds[..i];
  }
}
