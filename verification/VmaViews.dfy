/** VMA lists as values (src/mm/vma/vma.h): the packed, address-ordered sequence of regions, the
    page -> (prot, flags, physical page) map it stands for, and what each list edit does to it. */
module VmaViews {
  import opened Descriptors
  import opened Values

  const VMA_MAX_PER_TASK: nat := 32

  /** [start, end), with the physical page behind each page (NULL: not faulted in). After a
      split the page array may be longer than the region. */
  datatype Vma = Vma(start: nat, end: nat, prot: bv32, flags: bv32, pages: seq<Frame>)

  datatype PageRec = PageRec(prot: bv32, flags: bv32, phys: Frame)

  function FirstPage(v: Vma): nat { v.start / PAGE_SIZE }
  function EndPage(v: Vma): nat { v.end / PAGE_SIZE }

  function NPages(v: Vma): nat
    requires v.start <= v.end
  {
    (v.end - v.start) / PAGE_SIZE
  }

  ghost predicate VmaOk(v: Vma) {
    && v.start < v.end && v.start % PAGE_SIZE == 0 && v.end % PAGE_SIZE == 0
    && |v.pages| >= EndPage(v) - FirstPage(v)
  }

  ghost predicate Sorted(es: seq<Vma>) {
    forall i, j | 0 <= i < j < |es| :: es[i].end <= es[j].start
  }

  /** The invariant of a VMA list: well-formed page-aligned regions, ascending and disjoint. */
  ghost predicate ListOk(es: seq<Vma>) {
    && AllOk(es)
    && Sorted(es)
  }

  ghost predicate Covers(v: Vma, pg: nat) {
    FirstPage(v) <= pg < EndPage(v)
  }

  ghost function RecAt(v: Vma, pg: nat): PageRec
    requires VmaOk(v) && Covers(v, pg)
  {
    PageRec(v.prot, v.flags, v.pages[pg - FirstPage(v)])
  }

  ghost predicate Mapped(es: seq<Vma>, pg: nat) {
    exists i :: 0 <= i < |es| && Covers(es[i], pg)
  }

  /** What the list says about a page. */
  ghost function View(es: seq<Vma>, pg: nat): Option<PageRec>
    requires ListOk(es)
  {
    if Mapped(es, pg) then
      var i :| 0 <= i < |es| && Covers(es[i], pg);
      Some(RecAt(es[i], pg))
    else None
  }

  lemma PagesInOrder(v: Vma, w: Vma)
    requires v.end <= w.start
    ensures EndPage(v) <= FirstPage(w)
  {
  }

  lemma SizeInPages(v: Vma)
    requires VmaOk(v)
    ensures NPages(v) == EndPage(v) - FirstPage(v) && FirstPage(v) < EndPage(v)
  {
  }

  /** No page is in two regions, so the view is the record of whichever region covers it. */
  lemma ViewAt(es: seq<Vma>, i: nat, pg: nat)
    requires ListOk(es) && i < |es| && Covers(es[i], pg)
    ensures View(es, pg) == Some(RecAt(es[i], pg))
  {
    var k :| 0 <= k < |es| && Covers(es[k], pg) && View(es, pg) == Some(RecAt(es[k], pg));
    if k < i {
      PagesInOrder(es[k], es[i]);
    } else if i < k {
      PagesInOrder(es[i], es[k]);
    }
  }

  ghost predicate SameView(es: seq<Vma>, es': seq<Vma>)
    requires ListOk(es) && ListOk(es')
  {
    forall pg: nat :: View(es', pg) == View(es, pg)
  }

  // ---- inserting a region ----

  ghost function InsertAt(es: seq<Vma>, i: nat, v: Vma): seq<Vma>
    requires i <= |es|
  {
    es[..i] + [v] + es[i..]
  }

  lemma InsertPointwise(es: seq<Vma>, es': seq<Vma>, i: nat, v: Vma)
    requires i <= |es| && |es'| == |es| + 1 && es'[i] == v
    requires forall k | 0 <= k < i :: es'[k] == es[k]
    requires forall k {:trigger es[k]} | i <= k < |es| :: es'[k + 1] == es[k]
    ensures es' == InsertAt(es, i, v)
  {
    forall k | 0 <= k < |es'|
      ensures es'[k] == InsertAt(es, i, v)[k]
    {
      assert k > i ==> es'[(k - 1) + 1] == es[k - 1];
    }
  }

  ghost predicate FitsAt(es: seq<Vma>, i: nat, v: Vma)
    requires i <= |es|
  {
    && VmaOk(v)
    && (forall k | 0 <= k < i :: es[k].end <= v.start)
    && (forall k | i <= k < |es| :: v.end <= es[k].start)
  }

  lemma InsertKeepsOrder(es: seq<Vma>, i: nat, v: Vma)
    requires ListOk(es) && i <= |es| && FitsAt(es, i, v)
    ensures ListOk(InsertAt(es, i, v))
  {
    var es' := InsertAt(es, i, v);
    forall k | 0 <= k < |es'|
      ensures es'[k] == if k < i then es[k] else if k == i then v else es[k - 1]
    {
    }
  }

  lemma InsertedPageWasFree(es: seq<Vma>, i: nat, v: Vma, pg: nat)
    requires ListOk(es) && i <= |es| && FitsAt(es, i, v) && Covers(v, pg)
    ensures !Mapped(es, pg)
  {
    forall k | 0 <= k < |es|
      ensures !Covers(es[k], pg)
    {
      if k < i { PagesInOrder(es[k], v); } else { PagesInOrder(v, es[k]); }
    }
  }

  lemma InsertKeepsOthers(es: seq<Vma>, i: nat, v: Vma, k: nat, pg: nat)
    requires ListOk(es) && i <= |es| && FitsAt(es, i, v) && k < |es| && Covers(es[k], pg)
    ensures ListOk(InsertAt(es, i, v)) && View(InsertAt(es, i, v), pg) == View(es, pg)
  {
    InsertKeepsOrder(es, i, v);
    var k' := if k < i then k else k + 1;
    assert InsertAt(es, i, v)[k'] == es[k];
    ViewAt(es, k, pg);
    ViewAt(InsertAt(es, i, v), k', pg);
  }

  /** The new region's pages take its records; every other page is as before. */
  lemma InsertView(es: seq<Vma>, i: nat, v: Vma, pg: nat)
    requires ListOk(es) && i <= |es| && FitsAt(es, i, v)
    ensures ListOk(InsertAt(es, i, v))
    ensures View(InsertAt(es, i, v), pg) == if Covers(v, pg) then Some(RecAt(v, pg)) else View(es, pg)
    ensures Covers(v, pg) ==> View(es, pg) == None
  {
    InsertKeepsOrder(es, i, v);
    var es' := InsertAt(es, i, v);
    if Covers(v, pg) {
      assert es'[i] == v;
      ViewAt(es', i, pg);
      InsertedPageWasFree(es, i, v, pg);
    } else if Mapped(es, pg) {
      var k :| 0 <= k < |es| && Covers(es[k], pg);
      InsertKeepsOthers(es, i, v, k, pg);
    } else {
      forall k | 0 <= k < |es'|
        ensures !Covers(es'[k], pg)
      {
        assert es'[k] == if k < i then es[k] else if k == i then v else es[k - 1];
      }
    }
  }

  predicate Meets(v: Vma, start: nat, end: nat) {
    start < v.end && v.start < end
  }

  ghost predicate Overlapped(es: seq<Vma>, start: nat, end: nat) {
    exists k :: 0 <= k < |es| && Meets(es[k], start, end)
  }

  /** A range of whole pages meets a region if and only if one of its pages is mapped. */
  lemma OverlappedExactly(es: seq<Vma>, start: nat, end: nat)
    requires ListOk(es) && start < end && start % PAGE_SIZE == 0 && end % PAGE_SIZE == 0
    ensures Overlapped(es, start, end) <==>
            exists p: nat :: start / PAGE_SIZE <= p < end / PAGE_SIZE && View(es, p).Some?
  {
    if Overlapped(es, start, end) {
      var k :| 0 <= k < |es| && Meets(es[k], start, end);
      SizeInPages(es[k]);
      var p := if start <= es[k].start then FirstPage(es[k]) else start / PAGE_SIZE;
      ViewAt(es, k, p);
      assert start / PAGE_SIZE <= p < end / PAGE_SIZE && View(es, p).Some?;
    }
    if p: nat :| start / PAGE_SIZE <= p < end / PAGE_SIZE && View(es, p).Some? {
      var k :| 0 <= k < |es| && Covers(es[k], p);
      assert Meets(es[k], start, end);
    }
  }

  /** Where vma_insert_sorted puts a region that overlaps nothing. */
  lemma SortedPositionFits(es: seq<Vma>, idx: nat, v: Vma)
    requires ListOk(es) && VmaOk(v) && idx <= |es|
    requires !Overlapped(es, v.start, v.end)
    requires idx > 0 ==> es[idx - 1].start <= v.start
    requires forall k | idx <= k < |es| :: es[k].start > v.start
    ensures FitsAt(es, idx, v)
  {
    forall k | idx <= k < |es|
      ensures v.end <= es[k].start
    {
      assert !Meets(es[k], v.start, v.end);
    }
    forall k | 0 <= k < idx
      ensures es[k].end <= v.start
    {
      assert !Meets(es[k], v.start, v.end);
      assert k < idx - 1 ==> es[k].end <= es[idx - 1].start;
    }
  }

  lemma SameViewTrans(es: seq<Vma>, fs: seq<Vma>, gs: seq<Vma>)
    requires ListOk(es) && ListOk(fs) && ListOk(gs) && SameView(es, fs) && SameView(fs, gs)
    ensures SameView(es, gs)
  {
  }

  // ---- removing a region ----

  ghost function RemoveAt(es: seq<Vma>, i: nat): seq<Vma>
    requires i < |es|
  {
    es[..i] + es[i + 1..]
  }

  lemma RemovePointwise(es: seq<Vma>, es': seq<Vma>, i: nat)
    requires i < |es| && |es'| == |es| - 1
    requires forall k | 0 <= k < i :: es'[k] == es[k]
    requires forall k {:trigger es'[k]} | i <= k < |es'| :: es'[k] == es[k + 1]
    ensures es' == RemoveAt(es, i)
  {
  }

  lemma RemoveKeepsOrder(es: seq<Vma>, i: nat)
    requires ListOk(es) && i < |es|
    ensures ListOk(RemoveAt(es, i))
    ensures FitsAt(RemoveAt(es, i), i, es[i])
    ensures InsertAt(RemoveAt(es, i), i, es[i]) == es
  {
  }

  /** Exactly the removed region's pages disappear. */
  lemma RemoveView(es: seq<Vma>, i: nat, pg: nat)
    requires ListOk(es) && i < |es|
    ensures ListOk(RemoveAt(es, i))
    ensures View(RemoveAt(es, i), pg) == if Covers(es[i], pg) then None else View(es, pg)
  {
    RemoveKeepsOrder(es, i);
    InsertView(RemoveAt(es, i), i, es[i], pg);
  }

  // ---- replacing a region in place ----

  lemma ReplaceKeepsOrder(es: seq<Vma>, i: nat, v: Vma)
    requires ListOk(es) && i < |es| && VmaOk(v) && es[i].start <= v.start && v.end <= es[i].end
    ensures ListOk(es[i := v])
  {
  }

  /** Rewriting one region inside its own bounds touches no page outside those bounds. */
  lemma ReplaceView(es: seq<Vma>, i: nat, v: Vma, pg: nat)
    requires ListOk(es) && i < |es| && VmaOk(v) && es[i].start <= v.start && v.end <= es[i].end
    ensures ListOk(es[i := v])
    ensures View(es[i := v], pg) == if Covers(v, pg) then Some(RecAt(v, pg))
                                    else if Covers(es[i], pg) then None else View(es, pg)
  {
    ReplaceKeepsOrder(es, i, v);
    var rest := RemoveAt(es, i);
    RemoveView(es, i, pg);
    RemoveKeepsOrder(es, i);
    assert es[i := v] == InsertAt(rest, i, v);
    InsertView(rest, i, v, pg);
  }

  // ---- vma_split_at ----

  /** va is strictly inside region i. */
  ghost predicate StraddledBy(v: Vma, va: nat) {
    v.start < va < v.end
  }

  ghost predicate Straddled(es: seq<Vma>, va: nat) {
    exists i :: 0 <= i < |es| && StraddledBy(es[i], va)
  }

  function Head(v: Vma, va: nat): Vma {
    v.(end := va)
  }

  /** The upper half, with its own copy of the upper page entries. */
  function Tail(v: Vma, va: nat): Vma
    requires v.start <= va <= v.end && (v.end - v.start) / PAGE_SIZE <= |v.pages|
  {
    var headPages := (va - v.start) / PAGE_SIZE;
    var tailPages := (v.end - va) / PAGE_SIZE;
    v.(start := va, pages := v.pages[headPages..headPages + tailPages])
  }

  lemma HalvesOk(v: Vma, va: nat)
    requires VmaOk(v) && StraddledBy(v, va) && va % PAGE_SIZE == 0
    ensures VmaOk(Head(v, va)) && VmaOk(Tail(v, va))
  {
  }

  /** Each page of a split region is in exactly one half, with the record it had. */
  lemma HalvesRecords(v: Vma, va: nat, pg: nat)
    requires VmaOk(v) && StraddledBy(v, va) && va % PAGE_SIZE == 0
    ensures VmaOk(Head(v, va)) && VmaOk(Tail(v, va))
    ensures Covers(v, pg) <==> Covers(Head(v, va), pg) || Covers(Tail(v, va), pg)
    ensures Covers(Head(v, va), pg) ==> RecAt(Head(v, va), pg) == RecAt(v, pg)
    ensures Covers(Tail(v, va), pg) ==> RecAt(Tail(v, va), pg) == RecAt(v, pg)
  {
    HalvesOk(v, va);
  }

  /** Where vma_insert_sorted puts the upper half: right after the lower one. */
  lemma TailPosition(es: seq<Vma>, cut: seq<Vma>, i: nat, va: nat, idx: nat)
    requires ListOk(es) && i < |es| && StraddledBy(es[i], va) && idx <= |es| && cut == es[i := Head(es[i], va)]
    requires idx > 0 ==> cut[idx - 1].start <= va
    requires forall k | idx <= k < |es| :: cut[k].start > va
    ensures idx == i + 1
  {
    assert cut[i].start < va;
    assert forall k | i < k < |es| :: cut[k].start > va;
  }

  ghost function SplitAt(es: seq<Vma>, i: nat, va: nat): seq<Vma>
    requires i < |es| && VmaOk(es[i]) && StraddledBy(es[i], va)
  {
    InsertAt(es[i := Head(es[i], va)], i + 1, Tail(es[i], va))
  }

  lemma SplitFits(es: seq<Vma>, i: nat, va: nat)
    requires ListOk(es) && i < |es| && StraddledBy(es[i], va) && va % PAGE_SIZE == 0
    ensures ListOk(es[i := Head(es[i], va)])
    ensures FitsAt(es[i := Head(es[i], va)], i + 1, Tail(es[i], va))
  {
    HalvesOk(es[i], va);
    ReplaceKeepsOrder(es, i, Head(es[i], va));
  }

  /** Splitting leaves every page's record as it was. */
  lemma SplitKeepsView(es: seq<Vma>, i: nat, va: nat)
    requires ListOk(es) && i < |es| && StraddledBy(es[i], va) && va % PAGE_SIZE == 0
    ensures ListOk(SplitAt(es, i, va)) && SameView(es, SplitAt(es, i, va))
  {
    var v, mid := es[i], es[i := Head(es[i], va)];
    SplitFits(es, i, va);
    InsertKeepsOrder(mid, i + 1, Tail(v, va));
    forall pg: nat
      ensures View(SplitAt(es, i, va), pg) == View(es, pg)
    {
      HalvesRecords(v, va, pg);
      ReplaceView(es, i, Head(v, va), pg);
      InsertView(mid, i + 1, Tail(v, va), pg);
      if Covers(v, pg) {
        ViewAt(es, i, pg);
      }
    }
  }

  lemma SplitEntries(es: seq<Vma>, i: nat, va: nat, k: nat)
    requires i < |es| && VmaOk(es[i]) && StraddledBy(es[i], va) && k <= |es|
    ensures |SplitAt(es, i, va)| == |es| + 1
    ensures SplitAt(es, i, va)[k] == if k < i then es[k] else if k == i then Head(es[i], va)
                                     else if k == i + 1 then Tail(es[i], va) else es[k - 1]
  {
  }

  lemma OnlyOneStraddles(es: seq<Vma>, i: nat, k: nat, va: nat)
    requires ListOk(es) && i < |es| && k < |es|
    ensures StraddledBy(es[i], va) && StraddledBy(es[k], va) ==> i == k
  {
  }

  lemma SplitKeepsOtherBoundaries(es: seq<Vma>, i: nat, va: nat, at: nat, k: nat)
    requires ListOk(es) && i < |es| && StraddledBy(es[i], va) && va % PAGE_SIZE == 0
    requires at != va && k < |es| && StraddledBy(es[k], at)
    ensures Straddled(SplitAt(es, i, va), at)
  {
    var k' := if k < i || (k == i && at < va) then k else k + 1;
    SplitEntries(es, i, va, k');
    assert StraddledBy(SplitAt(es, i, va)[k'], at);
  }

  lemma SplitMakesBoundary(es: seq<Vma>, i: nat, va: nat, at: nat, k: nat)
    requires ListOk(es) && i < |es| && StraddledBy(es[i], va) && va % PAGE_SIZE == 0
    requires k <= |es| && |SplitAt(es, i, va)| == |es| + 1 && StraddledBy(SplitAt(es, i, va)[k], at)
    ensures at != va && Straddled(es, at)
  {
    SplitEntries(es, i, va, k);
    var k' := if k <= i then k else k - 1;
    assert StraddledBy(es[k'], at);
    OnlyOneStraddles(es, i, k', va);
  }

  /** Afterwards va is a boundary, and no other boundary moved. */
  lemma SplitClears(es: seq<Vma>, i: nat, va: nat, at: nat)
    requires ListOk(es) && i < |es| && StraddledBy(es[i], va) && va % PAGE_SIZE == 0
    ensures Straddled(SplitAt(es, i, va), at) <==> at != va && Straddled(es, at)
  {
    SplitEntries(es, i, va, 0);
    if at != va && Straddled(es, at) {
      var k :| 0 <= k < |es| && StraddledBy(es[k], at);
      SplitKeepsOtherBoundaries(es, i, va, at, k);
    }
    if Straddled(SplitAt(es, i, va), at) {
      var k :| 0 <= k < |es| + 1 && StraddledBy(SplitAt(es, i, va)[k], at);
      SplitMakesBoundary(es, i, va, at, k);
    }
  }

  // ---- vma_merge_adjacent ----

  predicate Mergeable(a: Vma, b: Vma) {
    a.end == b.start && a.prot == b.prot && a.flags == b.flags
  }

  /** The welded region, over a fresh array holding both regions' entries. */
  function Weld(a: Vma, b: Vma): Vma
    requires a.start <= a.end && b.start <= b.end && NPages(a) <= |a.pages| && NPages(b) <= |b.pages|
  {
    a.(end := b.end, pages := a.pages[..NPages(a)] + b.pages[..NPages(b)])
  }

  lemma WeldRecords(a: Vma, b: Vma, pg: nat)
    requires VmaOk(a) && VmaOk(b) && Mergeable(a, b)
    ensures VmaOk(Weld(a, b))
    ensures Covers(Weld(a, b), pg) <==> Covers(a, pg) || Covers(b, pg)
    ensures Covers(a, pg) ==> RecAt(Weld(a, b), pg) == RecAt(a, pg)
    ensures Covers(b, pg) ==> RecAt(Weld(a, b), pg) == RecAt(b, pg)
  {
    SizeInPages(a);
    SizeInPages(b);
  }

  ghost function MergeAt(es: seq<Vma>, i: nat): seq<Vma>
    requires i + 1 < |es| && VmaOk(es[i]) && VmaOk(es[i + 1])
  {
    RemoveAt(es, i + 1)[i := Weld(es[i], es[i + 1])]
  }

  lemma MergeKeepsOrder(es: seq<Vma>, i: nat)
    requires ListOk(es) && i + 1 < |es| && Mergeable(es[i], es[i + 1])
    ensures ListOk(MergeAt(es, i)) && |MergeAt(es, i)| == |es| - 1
    ensures forall k | 0 <= k < |es| - 1 ::
              MergeAt(es, i)[k] == if k < i then es[k] else if k == i then Weld(es[i], es[i + 1]) else es[k + 1]
  {
    WeldRecords(es[i], es[i + 1], 0);
  }

  /** Welding neighbours leaves every page's record as it was. */
  lemma MergeKeepsView(es: seq<Vma>, i: nat)
    requires ListOk(es) && i + 1 < |es| && Mergeable(es[i], es[i + 1])
    ensures ListOk(MergeAt(es, i)) && SameView(es, MergeAt(es, i))
  {
    MergeKeepsOrder(es, i);
    forall pg: nat
      ensures View(MergeAt(es, i), pg) == View(es, pg)
    {
      MergeKeepsPage(es, i, pg);
    }
  }

  // A weld is: take both regions out, put the welded one in.
  lemma MergeIsReinsert(es: seq<Vma>, i: nat)
    requires ListOk(es) && i + 1 < |es| && Mergeable(es[i], es[i + 1])
    ensures ListOk(RemoveAt(es, i + 1)) && RemoveAt(es, i + 1)[i] == es[i]
    ensures ListOk(RemoveAt(RemoveAt(es, i + 1), i))
    ensures FitsAt(RemoveAt(RemoveAt(es, i + 1), i), i, Weld(es[i], es[i + 1]))
    ensures MergeAt(es, i) == InsertAt(RemoveAt(RemoveAt(es, i + 1), i), i, Weld(es[i], es[i + 1]))
  {
    RemoveKeepsOrder(es, i + 1);
    RemoveKeepsOrder(RemoveAt(es, i + 1), i);
    WeldRecords(es[i], es[i + 1], 0);
  }

  lemma MergeKeepsPage(es: seq<Vma>, i: nat, pg: nat)
    requires ListOk(es) && i + 1 < |es| && Mergeable(es[i], es[i + 1])
    ensures ListOk(MergeAt(es, i)) && View(MergeAt(es, i), pg) == View(es, pg)
  {
    MergeIsReinsert(es, i);
    WeldRecords(es[i], es[i + 1], pg);
    RemoveView(es, i + 1, pg);
    RemoveView(RemoveAt(es, i + 1), i, pg);
    InsertView(RemoveAt(RemoveAt(es, i + 1), i), i, Weld(es[i], es[i + 1]), pg);
    if Covers(es[i], pg) {
      ViewAt(es, i, pg);
    } else if Covers(es[i + 1], pg) {
      ViewAt(es, i + 1, pg);
    }
  }

  // ---- the pages behind a list ----

  function NonNull(ps: seq<Frame>): nat {
    if ps == [] then 0 else NonNull(ps[..|ps| - 1]) + if ps[|ps| - 1] != NULL then 1 else 0
  }

  lemma {:induction false} NonNullConcat(ps: seq<Frame>, qs: seq<Frame>)
    ensures NonNull(ps + qs) == NonNull(ps) + NonNull(qs)
  {
    if qs == [] {
      assert ps + qs == ps;
    } else {
      assert (ps + qs)[..|ps + qs| - 1] == ps + qs[..|qs| - 1];
      NonNullConcat(ps, qs[..|qs| - 1]);
    }
  }

  ghost function Backing(v: Vma): seq<Frame>
    requires VmaOk(v)
  {
    v.pages[..EndPage(v) - FirstPage(v)]
  }

  ghost predicate AllOk(es: seq<Vma>) {
    forall i | 0 <= i < |es| :: VmaOk(es[i])
  }

  /** vma_resident_pages: the number of faulted-in pages. */
  ghost function Resident(es: seq<Vma>): nat
    requires AllOk(es)
  {
    if es == [] then 0 else Resident(es[..|es| - 1]) + NonNull(Backing(es[|es| - 1]))
  }

  lemma {:induction false} ResidentConcat(es: seq<Vma>, fs: seq<Vma>)
    requires AllOk(es) && AllOk(fs)
    ensures AllOk(es + fs) && Resident(es + fs) == Resident(es) + Resident(fs)
  {
    if fs == [] {
      assert es + fs == es;
    } else {
      assert (es + fs)[..|es + fs| - 1] == es + fs[..|fs| - 1];
      ResidentConcat(es, fs[..|fs| - 1]);
    }
  }

  lemma ResidentOne(v: Vma)
    requires VmaOk(v)
    ensures AllOk([v]) && Resident([v]) == NonNull(Backing(v))
  {
    assert [v][..0] == [];
  }

  lemma ResidentInsert(es: seq<Vma>, i: nat, v: Vma)
    requires AllOk(es) && i <= |es| && VmaOk(v)
    ensures AllOk(InsertAt(es, i, v)) && Resident(InsertAt(es, i, v)) == Resident(es) + NonNull(Backing(v))
  {
    var front, back := es[..i], es[i..];
    assert es == front + back;
    ResidentOne(v);
    ResidentConcat(front, back);
    ResidentConcat(front, [v]);
    ResidentConcat(front + [v], back);
  }

  lemma RemoveThenInsert(es: seq<Vma>, i: nat)
    requires i < |es|
    ensures InsertAt(RemoveAt(es, i), i, es[i]) == es
  {
  }

  lemma RemoveOk(es: seq<Vma>, i: nat)
    requires AllOk(es) && i < |es|
    ensures AllOk(RemoveAt(es, i)) && VmaOk(es[i])
  {
  }

  lemma ResidentRemove(es: seq<Vma>, i: nat)
    requires AllOk(es) && i < |es|
    ensures AllOk(RemoveAt(es, i)) && Resident(es) == Resident(RemoveAt(es, i)) + NonNull(Backing(es[i]))
  {
    var r := RemoveAt(es, i);
    RemoveOk(es, i);
    RemoveThenInsert(es, i);
    ResidentInsert(r, i, es[i]);
  }

  lemma ResidentReplace(es: seq<Vma>, i: nat, v: Vma)
    requires AllOk(es) && i < |es| && VmaOk(v)
    ensures AllOk(es[i := v])
    ensures Resident(es[i := v]) + NonNull(Backing(es[i])) == Resident(es) + NonNull(Backing(v))
  {
    ResidentRemove(es, i);
    ResidentRemove(es[i := v], i);
    assert RemoveAt(es[i := v], i) == RemoveAt(es, i);
  }

  lemma SplitBacking(v: Vma, va: nat)
    requires VmaOk(v) && StraddledBy(v, va) && va % PAGE_SIZE == 0
    ensures VmaOk(Head(v, va)) && VmaOk(Tail(v, va))
    ensures NonNull(Backing(v)) == NonNull(Backing(Head(v, va))) + NonNull(Backing(Tail(v, va)))
  {
    HalvesOk(v, va);
    assert Backing(v) == Backing(Head(v, va)) + Backing(Tail(v, va));
    NonNullConcat(Backing(Head(v, va)), Backing(Tail(v, va)));
  }

  lemma SplitKeepsResident(es: seq<Vma>, i: nat, va: nat)
    requires ListOk(es) && i < |es| && StraddledBy(es[i], va) && va % PAGE_SIZE == 0
    ensures AllOk(SplitAt(es, i, va)) && Resident(SplitAt(es, i, va)) == Resident(es)
  {
    SplitBacking(es[i], va);
    ResidentReplace(es, i, Head(es[i], va));
    ResidentInsert(es[i := Head(es[i], va)], i + 1, Tail(es[i], va));
  }

  lemma WeldBacking(a: Vma, b: Vma)
    requires VmaOk(a) && VmaOk(b) && Mergeable(a, b)
    ensures VmaOk(Weld(a, b)) && NonNull(Backing(Weld(a, b))) == NonNull(Backing(a)) + NonNull(Backing(b))
  {
    WeldRecords(a, b, 0);
    SizeInPages(a);
    SizeInPages(b);
    assert Backing(Weld(a, b)) == Backing(a) + Backing(b);
    NonNullConcat(Backing(a), Backing(b));
  }

  lemma MergeKeepsResident(es: seq<Vma>, i: nat)
    requires ListOk(es) && i + 1 < |es| && Mergeable(es[i], es[i + 1])
    ensures AllOk(MergeAt(es, i)) && Resident(MergeAt(es, i)) == Resident(es)
  {
    WeldBacking(es[i], es[i + 1]);
    ResidentRemove(es, i + 1);
    assert RemoveAt(es, i + 1)[i] == es[i];
    ResidentReplace(RemoveAt(es, i + 1), i, Weld(es[i], es[i + 1]));
  }

  /** es' is es cut at va: same pages, same records, va now a boundary, no other boundary moved. */
  ghost predicate SplitDone(es: seq<Vma>, es': seq<Vma>, va: nat) {
    && ListOk(es) && ListOk(es') && SameView(es, es')
    && Resident(es') == Resident(es) && |es'| == |es| + 1
    && forall at {:trigger Straddled(es', at)} :: Straddled(es', at) <==> at != va && Straddled(es, at)
  }

  lemma SplitIsDone(es: seq<Vma>, i: nat, va: nat)
    requires ListOk(es) && i < |es| && StraddledBy(es[i], va) && va % PAGE_SIZE == 0
    ensures SplitDone(es, SplitAt(es, i, va), va)
  {
    SplitKeepsView(es, i, va);
    SplitKeepsResident(es, i, va);
    forall at
      ensures Straddled(SplitAt(es, i, va), at) <==> at != va && Straddled(es, at)
    {
      SplitClears(es, i, va, at);
    }
  }

  /** Some page of [from, to) is backed by f. */
  ghost predicate Backs(es: seq<Vma>, f: Frame, from: nat, to: nat)
    requires ListOk(es)
  {
    exists pg: nat :: from <= pg < to && View(es, pg).Some? && View(es, pg).value.phys == f
  }

  // ---- whole-range edits ----

  predicate Inside(v: Vma, start: nat, end: nat) {
    start <= v.start && v.end <= end
  }

  /** With no region straddling either bound, a region meeting the range is inside it. */
  lemma CutRegionsAreInside(es: seq<Vma>, i: nat, start: nat, end: nat, pg: nat)
    requires ListOk(es) && i < |es| && Covers(es[i], pg)
    requires start % PAGE_SIZE == 0 && end % PAGE_SIZE == 0 && !Straddled(es, start) && !Straddled(es, end)
    ensures Inside(es[i], start, end) <==> start / PAGE_SIZE <= pg < end / PAGE_SIZE
  {
    assert !StraddledBy(es[i], start) && !StraddledBy(es[i], end);
  }

  function ProtectOne(v: Vma, start: nat, end: nat, prot: bv32): Vma {
    if Inside(v, start, end) then v.(prot := prot) else v
  }

  ghost function Protected(es: seq<Vma>, start: nat, end: nat, prot: bv32): seq<Vma> {
    seq(|es|, i requires 0 <= i < |es| => ProtectOne(es[i], start, end, prot))
  }

  lemma ProtectedOk(es: seq<Vma>, start: nat, end: nat, prot: bv32)
    requires ListOk(es)
    ensures ListOk(Protected(es, start, end, prot))
  {
  }

  lemma ProtectedRecord(v: Vma, prot: bv32, pg: nat)
    requires VmaOk(v) && Covers(v, pg)
    ensures VmaOk(v.(prot := prot)) && Covers(v.(prot := prot), pg)
    ensures RecAt(v.(prot := prot), pg) == RecAt(v, pg).(prot := prot)
  {
  }

  /** vma_protect_range's rewrite changes prot on exactly the mapped pages of the range. */
  lemma ProtectedView(es: seq<Vma>, start: nat, end: nat, prot: bv32, pg: nat)
    requires ListOk(es) && start % PAGE_SIZE == 0 && end % PAGE_SIZE == 0
    requires !Straddled(es, start) && !Straddled(es, end)
    ensures ListOk(Protected(es, start, end, prot))
    ensures View(Protected(es, start, end, prot), pg)
         == if View(es, pg).Some? && start / PAGE_SIZE <= pg < end / PAGE_SIZE
            then Some(View(es, pg).value.(prot := prot)) else View(es, pg)
  {
    var es' := Protected(es, start, end, prot);
    ProtectedOk(es, start, end, prot);
    if Mapped(es, pg) {
      var k :| 0 <= k < |es| && Covers(es[k], pg);
      ProtectedRecord(es[k], prot, pg);
      CutRegionsAreInside(es, k, start, end, pg);
      ViewAt(es, k, pg);
      ViewAt(es', k, pg);
    } else {
      forall k | 0 <= k < |es'|
        ensures !Covers(es'[k], pg)
      {
        assert !Covers(es[k], pg);
      }
    }
  }

  lemma {:induction false} ProtectedResident(es: seq<Vma>, start: nat, end: nat, prot: bv32)
    requires AllOk(es)
    ensures AllOk(Protected(es, start, end, prot))
    ensures Resident(Protected(es, start, end, prot)) == Resident(es)
  {
    if es != [] {
      ProtectedResident(es[..|es| - 1], start, end, prot);
      assert Protected(es, start, end, prot)[..|es| - 1] == Protected(es[..|es| - 1], start, end, prot);
    }
  }
}
