/** What vma_unmap_range's removal loop keeps (src/mm/vma/vma.c), on lists as values. */
module VmaRanges {
  import opened Descriptors
  import opened VmaViews
  import opened Values

  /** Same pages with the same records, cut into regions differently. */
  ghost predicate Equivalent(es: seq<Vma>, es': seq<Vma>) {
    ListOk(es) && ListOk(es') && SameView(es, es') && Resident(es') == Resident(es)
  }

  lemma EquivalentTrans(es: seq<Vma>, fs: seq<Vma>, gs: seq<Vma>)
    requires Equivalent(es, fs) && Equivalent(fs, gs)
    ensures Equivalent(es, gs)
  {
    SameViewTrans(es, fs, gs);
  }

  /** es is es0 with some pages of [from, to), and no others, gone. */
  ghost predicate Thinned(es0: seq<Vma>, es: seq<Vma>, from: nat, to: nat) {
    && ListOk(es0) && ListOk(es)
    && forall pg: nat {:trigger View(es, pg)} ::
         View(es, pg) == View(es0, pg) || (from <= pg < to && View(es, pg) == None)
  }

  /** f backed a page that es no longer maps. */
  ghost predicate Gone(es0: seq<Vma>, es: seq<Vma>, f: Frame)
    requires ListOk(es0) && ListOk(es)
  {
    exists pg: nat :: View(es0, pg).Some? && View(es0, pg).value.phys == f && View(es, pg) == None
  }

  lemma BackingOfPage(es: seq<Vma>, i: nat, pg: nat)
    requires ListOk(es) && i < |es| && Covers(es[i], pg)
    ensures View(es, pg).Some? && View(es, pg).value.phys == Backing(es[i])[pg - FirstPage(es[i])]
  {
    ViewAt(es, i, pg);
  }

  lemma PageOfBacking(es: seq<Vma>, i: nat, f: Frame) returns (pg: nat)
    requires ListOk(es) && i < |es| && f in Backing(es[i])
    ensures Covers(es[i], pg) && View(es, pg).Some? && View(es, pg).value.phys == f
  {
    var k :| 0 <= k < |Backing(es[i])| && Backing(es[i])[k] == f;
    pg := FirstPage(es[i]) + k;
    BackingOfPage(es, i, pg);
  }

  lemma PagesOfInside(v: Vma, start: nat, end: nat, pg: nat)
    requires VmaOk(v) && Inside(v, start, end) && Covers(v, pg)
    ensures start / PAGE_SIZE <= pg < end / PAGE_SIZE
  {
  }

  lemma RemoveThins(es0: seq<Vma>, es: seq<Vma>, i: nat, start: nat, end: nat)
    requires Thinned(es0, es, start / PAGE_SIZE, end / PAGE_SIZE) && i < |es| && Inside(es[i], start, end)
    ensures Thinned(es0, RemoveAt(es, i), start / PAGE_SIZE, end / PAGE_SIZE)
  {
    RemoveKeepsOrder(es, i);
    forall pg: nat
      ensures var v := View(RemoveAt(es, i), pg);
              v == View(es0, pg) || (start / PAGE_SIZE <= pg < end / PAGE_SIZE && v == None)
    {
      RemoveView(es, i, pg);
      if Covers(es[i], pg) {
        PagesOfInside(es[i], start, end, pg);
      }
    }
  }

  /** Removing region i frees exactly the frames behind it. */
  lemma RemoveFrees(es0: seq<Vma>, es: seq<Vma>, i: nat, from: nat, to: nat, f: Frame)
    requires Thinned(es0, es, from, to) && i < |es|
    ensures ListOk(RemoveAt(es, i))
    ensures Gone(es0, RemoveAt(es, i), f) <==> Gone(es0, es, f) || f in Backing(es[i])
  {
    RemoveKeepsOrder(es, i);
    if f in Backing(es[i]) {
      var pg := PageOfBacking(es, i, f);
      RemoveView(es, i, pg);
      assert View(RemoveAt(es, i), pg) == None && View(es0, pg) == View(es, pg);
    }
    if Gone(es0, es, f) {
      var pg: nat :| View(es0, pg).Some? && View(es0, pg).value.phys == f && View(es, pg) == None;
      RemoveView(es, i, pg);
      assert View(RemoveAt(es, i), pg) == None;
    }
    if Gone(es0, RemoveAt(es, i), f) {
      var pg: nat :| View(es0, pg).Some? && View(es0, pg).value.phys == f && View(RemoveAt(es, i), pg) == None;
      RemoveView(es, i, pg);
      if Covers(es[i], pg) {
        BackingOfPage(es, i, pg);
      }
    }
  }

  lemma RemoveKeepsCuts(es: seq<Vma>, i: nat, at: nat)
    requires i < |es| && !Straddled(es, at)
    ensures !Straddled(RemoveAt(es, i), at)
  {
    forall k | 0 <= k < |es| - 1
      ensures !StraddledBy(RemoveAt(es, i)[k], at)
    {
      assert !StraddledBy(es[if k < i then k else k + 1], at);
    }
  }

  /** Once no region is inside the range, no page of the range is mapped and no other changed. */
  lemma ThinnedOut(es0: seq<Vma>, es: seq<Vma>, start: nat, end: nat, pg: nat)
    requires Thinned(es0, es, start / PAGE_SIZE, end / PAGE_SIZE)
    requires start % PAGE_SIZE == 0 && end % PAGE_SIZE == 0 && !Straddled(es, start) && !Straddled(es, end)
    requires forall k | 0 <= k < |es| :: !Inside(es[k], start, end)
    ensures View(es, pg) == if start / PAGE_SIZE <= pg < end / PAGE_SIZE then None else View(es0, pg)
  {
    if Mapped(es, pg) {
      var k :| 0 <= k < |es| && Covers(es[k], pg);
      CutRegionsAreInside(es, k, start, end, pg);
    }
  }

  lemma GoneIsBacked(es0: seq<Vma>, es: seq<Vma>, from: nat, to: nat, f: Frame)
    requires ListOk(es0) && ListOk(es)
    requires forall pg: nat :: View(es, pg) == if from <= pg < to then None else View(es0, pg)
    ensures Gone(es0, es, f) <==> Backs(es0, f, from, to)
  {
    if Gone(es0, es, f) {
      var pg: nat :| View(es0, pg).Some? && View(es0, pg).value.phys == f && View(es, pg) == None;
      assert from <= pg < to;
    }
    if Backs(es0, f, from, to) {
      var pg: nat :| from <= pg < to && View(es0, pg).Some? && View(es0, pg).value.phys == f;
      assert View(es, pg) == None;
    }
  }

  // ---- the removal loop's state ----

  ghost predicate Removing(cut: seq<Vma>, es: seq<Vma>, start: nat, end: nat) {
    && Thinned(cut, es, start / PAGE_SIZE, end / PAGE_SIZE)
    && !Straddled(es, start) && !Straddled(es, end)
  }

  /** Freed since the loop began: exactly the managed frames behind pages that are gone. */
  ghost predicate FreedGone(free0: set<Frame>, free: set<Frame>, managed: set<Frame>, cut: seq<Vma>, es: seq<Vma>) {
    && ListOk(cut) && ListOk(es)
    && forall f {:trigger f in free} :: f in free <==> f in free0 || (f in managed && Gone(cut, es, f))
  }

  ghost predicate FreedBacking(free0: set<Frame>, free: set<Frame>, managed: set<Frame>, v: Vma) {
    && VmaOk(v)
    && forall f {:trigger f in free} :: f in free <==> f in free0 || (f in managed && f in Backing(v))
  }

  lemma NothingRemoved(es: seq<Vma>, start: nat, end: nat, free: set<Frame>, managed: set<Frame>)
    requires ListOk(es) && !Straddled(es, start) && !Straddled(es, end)
    ensures Removing(es, es, start, end) && FreedGone(free, free, managed, es, es)
  {
  }

  ghost predicate NoneInside(es: seq<Vma>, n: nat, start: nat, end: nat) {
    forall k | 0 <= k < n && k < |es| :: !Inside(es[k], start, end)
  }

  lemma OneMoreOutside(es: seq<Vma>, i: nat, start: nat, end: nat)
    requires i < |es| && NoneInside(es, i, start, end) && !Inside(es[i], start, end)
    ensures NoneInside(es, i + 1, start, end)
  {
  }

  lemma RemoveKeepsNoneInside(es: seq<Vma>, i: nat, start: nat, end: nat)
    requires i < |es| && NoneInside(es, i, start, end)
    ensures NoneInside(RemoveAt(es, i), i, start, end)
  {
  }

  lemma RemoveStep(cut: seq<Vma>, es: seq<Vma>, i: nat, start: nat, end: nat)
    requires Removing(cut, es, start, end) && i < |es| && Inside(es[i], start, end) && NoneInside(es, i, start, end)
    ensures Removing(cut, RemoveAt(es, i), start, end) && NoneInside(RemoveAt(es, i), i, start, end)
    ensures Resident(es) == Resident(RemoveAt(es, i)) + NonNull(Backing(es[i]))
  {
    RemoveThins(cut, es, i, start, end);
    RemoveKeepsNoneInside(es, i, start, end);
    ResidentRemove(es, i);
    RemoveKeepsCuts(es, i, start);
    RemoveKeepsCuts(es, i, end);
  }

  lemma FreeStep(free0: set<Frame>, free: set<Frame>, free': set<Frame>, managed: set<Frame>,
                 cut: seq<Vma>, es: seq<Vma>, i: nat, start: nat, end: nat)
    requires Removing(cut, es, start, end) && i < |es|
    requires FreedGone(free0, free, managed, cut, es) && FreedBacking(free, free', managed, es[i])
    ensures FreedGone(free0, free', managed, cut, RemoveAt(es, i))
  {
    RemoveKeepsOrder(es, i);
    forall f
      ensures f in free' <==> f in free0 || (f in managed && Gone(cut, RemoveAt(es, i), f))
    {
      RemoveFrees(cut, es, i, start / PAGE_SIZE, end / PAGE_SIZE, f);
      assert f in free <==> f in free0 || (f in managed && Gone(cut, es, f));
    }
  }

  /** What the finished loop has done to the list, page by page. */
  ghost predicate RangeGone(es0: seq<Vma>, es: seq<Vma>, from: nat, to: nat) {
    && ListOk(es0) && ListOk(es)
    && forall pg: nat {:trigger View(es, pg)} :: View(es, pg) == if from <= pg < to then None else View(es0, pg)
  }

  ghost predicate RangeFreed(free0: set<Frame>, free: set<Frame>, managed: set<Frame>, es0: seq<Vma>, from: nat,
                             to: nat) {
    && ListOk(es0)
    && forall f {:trigger f in free} :: f in free <==> f in free0 || (f in managed && Backs(es0, f, from, to))
  }

  lemma RemovalComplete(cut: seq<Vma>, es: seq<Vma>, start: nat, end: nat, free0: set<Frame>, free: set<Frame>,
                        managed: set<Frame>)
    requires Removing(cut, es, start, end) && start % PAGE_SIZE == 0 && end % PAGE_SIZE == 0
    requires NoneInside(es, |es|, start, end)
    requires FreedGone(free0, free, managed, cut, es)
    ensures RangeGone(cut, es, start / PAGE_SIZE, end / PAGE_SIZE)
    ensures RangeFreed(free0, free, managed, cut, start / PAGE_SIZE, end / PAGE_SIZE)
  {
    forall pg: nat
      ensures View(es, pg) == if start / PAGE_SIZE <= pg < end / PAGE_SIZE then None else View(cut, pg)
    {
      ThinnedOut(cut, es, start, end, pg);
    }
    forall f
      ensures f in free <==> f in free0 || (f in managed && Backs(cut, f, start / PAGE_SIZE, end / PAGE_SIZE))
    {
      GoneIsBacked(cut, es, start / PAGE_SIZE, end / PAGE_SIZE, f);
    }
  }

  /** Cutting before and welding after do not show. */
  lemma RangeGoneThrough(es0: seq<Vma>, cut: seq<Vma>, es: seq<Vma>, es': seq<Vma>, from: nat, to: nat,
                         free0: set<Frame>, free: set<Frame>, managed: set<Frame>)
    requires Equivalent(es0, cut) && RangeGone(cut, es, from, to) && Equivalent(es, es')
    requires RangeFreed(free0, free, managed, cut, from, to)
    ensures RangeGone(es0, es', from, to) && RangeFreed(free0, free, managed, es0, from, to)
  {
    forall f
      ensures Backs(es0, f, from, to) == Backs(cut, f, from, to)
    {
      SameBacks(es0, cut, f, from, to);
    }
  }

  lemma SameBacks(es: seq<Vma>, es': seq<Vma>, f: Frame, from: nat, to: nat)
    requires ListOk(es) && ListOk(es') && SameView(es, es')
    ensures Backs(es, f, from, to) == Backs(es', f, from, to)
  {
    if Backs(es, f, from, to) {
      var pg: nat :| from <= pg < to && View(es, pg).Some? && View(es, pg).value.phys == f;
      assert View(es', pg) == View(es, pg);
    }
    if Backs(es', f, from, to) {
      var pg: nat :| from <= pg < to && View(es', pg).Some? && View(es', pg).value.phys == f;
      assert View(es', pg) == View(es, pg);
    }
  }

  // ---- re-protection and whole lists ----

  /** Exactly the mapped pages of the range have the new protection; nothing else changed. */
  ghost predicate RangeProtected(es0: seq<Vma>, es: seq<Vma>, from: nat, to: nat, prot: bv32) {
    && ListOk(es0) && ListOk(es)
    && forall pg: nat {:trigger View(es, pg)} ::
         View(es, pg) == if View(es0, pg).Some? && from <= pg < to
                         then Some(View(es0, pg).value.(prot := prot)) else View(es0, pg)
  }

  lemma ProtectThrough(es0: seq<Vma>, cut: seq<Vma>, es': seq<Vma>, start: nat, end: nat, prot: bv32)
    requires Equivalent(es0, cut) && start % PAGE_SIZE == 0 && end % PAGE_SIZE == 0
    requires !Straddled(cut, start) && !Straddled(cut, end)
    requires Equivalent(Protected(cut, start, end, prot), es')
    ensures RangeProtected(es0, es', start / PAGE_SIZE, end / PAGE_SIZE, prot)
    ensures Resident(es') == Resident(es0)
  {
    forall pg: nat
      ensures View(Protected(cut, start, end, prot), pg)
           == if View(cut, pg).Some? && start / PAGE_SIZE <= pg < end / PAGE_SIZE
              then Some(View(cut, pg).value.(prot := prot)) else View(cut, pg)
    {
      ProtectedView(cut, start, end, prot, pg);
    }
    ProtectedResident(cut, start, end, prot);
  }

  /** Some page of [from, to) is mapped. */
  ghost predicate AnyMapped(es: seq<Vma>, from: nat, to: nat) {
    exists pg: nat :: from <= pg < to && Mapped(es, pg)
  }

  lemma InsideMeansMapped(es: seq<Vma>, i: nat, start: nat, end: nat)
    requires ListOk(es) && i < |es| && Inside(es[i], start, end)
    ensures AnyMapped(es, start / PAGE_SIZE, end / PAGE_SIZE)
  {
    SizeInPages(es[i]);
    var pg := FirstPage(es[i]);
    assert Covers(es[i], pg) && Mapped(es, pg);
    PagesOfInside(es[i], start, end, pg);
  }

  lemma NoneInsideMeansUnmapped(es: seq<Vma>, start: nat, end: nat)
    requires ListOk(es) && start % PAGE_SIZE == 0 && end % PAGE_SIZE == 0
    requires !Straddled(es, start) && !Straddled(es, end)
    requires forall k | 0 <= k < |es| :: !Inside(es[k], start, end)
    ensures !AnyMapped(es, start / PAGE_SIZE, end / PAGE_SIZE)
  {
    forall pg: nat | start / PAGE_SIZE <= pg < end / PAGE_SIZE
      ensures !Mapped(es, pg)
    {
      forall k | 0 <= k < |es|
        ensures !Covers(es[k], pg)
      {
        if Covers(es[k], pg) {
          CutRegionsAreInside(es, k, start, end, pg);
        }
      }
    }
  }

  lemma SameMapped(es: seq<Vma>, es': seq<Vma>, from: nat, to: nat)
    requires ListOk(es) && ListOk(es') && SameView(es, es')
    ensures AnyMapped(es, from, to) == AnyMapped(es', from, to)
  {
    forall pg: nat
      ensures Mapped(es, pg) == Mapped(es', pg)
    {
      assert View(es', pg) == View(es, pg);
    }
  }

  /** f backs a page of one of the first n regions. */
  ghost predicate BackedBefore(es: seq<Vma>, n: nat, f: Frame)
    requires AllOk(es)
  {
    exists k :: 0 <= k < n && k < |es| && f in Backing(es[k])
  }

  ghost predicate FreedBefore(free0: set<Frame>, free: set<Frame>, managed: set<Frame>, es: seq<Vma>, n: nat) {
    && AllOk(es)
    && forall f {:trigger f in free} :: f in free <==> f in free0 || (f in managed && BackedBefore(es, n, f))
  }

  lemma FreeOneMore(free0: set<Frame>, free: set<Frame>, free': set<Frame>, managed: set<Frame>, es: seq<Vma>, n: nat)
    requires n < |es| && FreedBefore(free0, free, managed, es, n) && FreedBacking(free, free', managed, es[n])
    ensures FreedBefore(free0, free', managed, es, n + 1)
  {
    forall f
      ensures f in free' <==> f in free0 || (f in managed && BackedBefore(es, n + 1, f))
    {
      assert f in free <==> f in free0 || (f in managed && BackedBefore(es, n, f));
      assert BackedBefore(es, n + 1, f) <==> BackedBefore(es, n, f) || f in Backing(es[n]) by {
        if BackedBefore(es, n + 1, f) {
          var k :| 0 <= k < n + 1 && k < |es| && f in Backing(es[k]);
        }
      }
    }
  }

  // ---- vma_clone ----

  function Trim(v: Vma): (w: Vma)
    requires v.start <= v.end && NPages(v) <= |v.pages|
    ensures w.start == v.start && w.end == v.end && |w.pages| == NPages(w)
  {
    v.(pages := v.pages[..NPages(v)])
  }

  ghost function Trimmed(es: seq<Vma>): (r: seq<Vma>)
    requires AllOk(es)
    ensures |r| == |es|
  {
    seq(|es|, i requires 0 <= i < |es| => assert VmaOk(es[i]); SizeInPages(es[i]); Trim(es[i]))
  }

  lemma TrimKeeps(v: Vma, pg: nat)
    requires VmaOk(v)
    ensures NPages(v) <= |v.pages| && VmaOk(Trim(v)) && Backing(Trim(v)) == Backing(v)
    ensures Covers(Trim(v), pg) == Covers(v, pg) && (Covers(v, pg) ==> RecAt(Trim(v), pg) == RecAt(v, pg))
  {
    SizeInPages(v);
  }

  lemma TrimmedOk(es: seq<Vma>)
    requires ListOk(es)
    ensures ListOk(Trimmed(es))
  {
    forall i | 0 <= i < |es|
      ensures VmaOk(Trimmed(es)[i])
    {
      TrimKeeps(es[i], 0);
    }
  }

  lemma {:induction false} TrimmedResident(es: seq<Vma>)
    requires AllOk(es)
    ensures AllOk(Trimmed(es)) && Resident(Trimmed(es)) == Resident(es)
  {
    forall i | 0 <= i < |es|
      ensures VmaOk(Trimmed(es)[i])
    {
      TrimKeeps(es[i], 0);
    }
    if es != [] {
      TrimmedResident(es[..|es| - 1]);
      assert Trimmed(es)[..|es| - 1] == Trimmed(es[..|es| - 1]);
      TrimKeeps(es[|es| - 1], 0);
    }
  }

  /** A clone describes the same pages with the same records. */
  lemma TrimmedEquivalent(es: seq<Vma>)
    requires ListOk(es)
    ensures Equivalent(es, Trimmed(es))
  {
    TrimmedOk(es);
    TrimmedResident(es);
    forall pg: nat
      ensures View(Trimmed(es), pg) == View(es, pg)
    {
      if Mapped(es, pg) {
        var k :| 0 <= k < |es| && Covers(es[k], pg);
        TrimKeeps(es[k], pg);
        ViewAt(es, k, pg);
        ViewAt(Trimmed(es), k, pg);
      } else {
        forall k | 0 <= k < |es|
          ensures !Covers(Trimmed(es)[k], pg)
        {
          TrimKeeps(es[k], pg);
        }
      }
    }
  }

  lemma TrimmedPrefix(es: seq<Vma>, n: nat)
    requires ListOk(es) && n < |es|
    ensures ListOk(Trimmed(es)) && ListOk(Trimmed(es)[..n])
    ensures FitsAt(Trimmed(es)[..n], n, Trimmed(es)[n])
    ensures InsertAt(Trimmed(es)[..n], n, Trimmed(es)[n]) == Trimmed(es)[..n + 1]
  {
    TrimmedOk(es);
  }

  lemma TrimmedBacking(es: seq<Vma>, n: nat, f: Frame)
    requires ListOk(es) && n <= |es|
    ensures ListOk(Trimmed(es))
    ensures BackedBefore(Trimmed(es)[..n], n, f) == BackedBefore(es, n, f)
  {
    TrimmedOk(es);
    forall k | 0 <= k < n
      ensures Backing(Trimmed(es)[..n][k]) == Backing(es[k])
    {
      TrimKeeps(es[k], 0);
    }
  }
}
