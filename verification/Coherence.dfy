/** The invariant that ties a task's VMA list to its page table, on values, and why every
    address-space step keeps it. */
module Coherence {
  import opened Descriptors
  import opened PageTables
  import V = VmaViews
  import opened VmaRanges
  import opened Values

  const USER_MMAP_BASE: nat := 0x0100_0000
  const USER_VA_TOP: nat := 0x4000_0000
  const MMAP_PAGE: nat := 0x1000      // USER_MMAP_BASE / PAGE_SIZE
  const TOP_PAGE: nat := 0x4_0000     // USER_VA_TOP / PAGE_SIZE

  /** A valid leaf at or above the mmap base lies in a region, points at the page the region
      records there, and is the descriptor a fresh map with the region's protection would give. */
  ghost predicate LeafAgrees(leaf: Descriptor, r: Option<V.PageRec>) {
    PteValid(leaf) ==> r.Some? && r.value.phys != NULL
                       && leaf == LeafDescriptor(r.value.phys, ProtToFlags(r.value.prot))
  }

  ghost predicate Coherent(view: View, es: seq<V.Vma>) {
    && Total(view) && V.ListOk(es)
    && forall p: nat {:trigger view[p]} | MMAP_PAGE <= p < VPN_LIMIT :: LeafAgrees(view[p], V.View(es, p))
  }

  /** Regions stay below the user ceiling. */
  ghost predicate BelowTop(es: seq<V.Vma>)
    requires V.ListOk(es)
  {
    forall p: nat {:trigger V.View(es, p)} | V.View(es, p).Some? :: p < TOP_PAGE
  }

  ghost predicate HasFrame(es: seq<V.Vma>, p: nat)
    requires V.ListOk(es)
  {
    V.View(es, p).Some? && V.View(es, p).value.phys != NULL
  }

  ghost function FrameAt(es: seq<V.Vma>, p: nat): Frame
    requires V.ListOk(es) && HasFrame(es, p)
  {
    V.View(es, p).value.phys
  }

  /** Every recorded frame is allocated, is no page table, and backs one page only. */
  ghost predicate FramesOwned(es: seq<V.Vma>, tables: set<Frame>, free: set<Frame>, managed: set<Frame>) {
    && V.ListOk(es)
    && (forall p: nat {:trigger HasFrame(es, p)} | HasFrame(es, p) ::
          FrameAt(es, p) in managed && FrameAt(es, p) !in free && FrameAt(es, p) !in tables)
    && (forall p: nat, q: nat {:trigger HasFrame(es, p), HasFrame(es, q)} |
          HasFrame(es, p) && HasFrame(es, q) && FrameAt(es, p) == FrameAt(es, q) :: p == q)
  }

  // ---- consequences ----

  /** What EL0 can reach above the mmap base: a frame that is allocated, is not a page table, and
      no two pages reach the same frame. */
  lemma ReachableFrames(view: View, es: seq<V.Vma>, tables: set<Frame>, free: set<Frame>, managed: set<Frame>, p: nat,
                        q: nat)
    requires Coherent(view, es) && FramesOwned(es, tables, free, managed) && (forall f <- managed :: FrameOk(f))
    requires MMAP_PAGE <= p < VPN_LIMIT && PteValid(view[p])
    requires MMAP_PAGE <= q < VPN_LIMIT && PteValid(view[q])
    ensures NextTable(view[p]) in managed && NextTable(view[p]) !in free && NextTable(view[p]) !in tables
    ensures NextTable(view[p]) == NextTable(view[q]) ==> p == q
  {
    assert LeafAgrees(view[p], V.View(es, p)) && LeafAgrees(view[q], V.View(es, q));
    assert HasFrame(es, p) && HasFrame(es, q);
    FreshMappingMeansProt(FrameAt(es, p), V.View(es, p).value.prot);
    FreshMappingMeansProt(FrameAt(es, q), V.View(es, q).value.prot);
  }

  /** EL0 can never do to a page what its region's protection forbids. */
  lemma AccessNeedsProt(view: View, es: seq<V.Vma>, tables: set<Frame>, free: set<Frame>, managed: set<Frame>, p: nat)
    requires Coherent(view, es) && FramesOwned(es, tables, free, managed) && (forall f <- managed :: FrameOk(f))
    requires MMAP_PAGE <= p < VPN_LIMIT && PteValid(view[p])
    ensures V.View(es, p).Some?
    ensures UserMayWrite(view[p]) <==> V.View(es, p).value.prot & PROT_WRITE != 0
    ensures UserMayExec(view[p]) <==> V.View(es, p).value.prot & PROT_EXEC != 0
    ensures UserMayRead(view[p]) <==> V.View(es, p).value.prot & (PROT_READ | PROT_WRITE) != 0
    ensures !KernelMayExec(view[p])
  {
    assert LeafAgrees(view[p], V.View(es, p)) && HasFrame(es, p);
    FreshMappingMeansProt(FrameAt(es, p), V.View(es, p).value.prot);
  }

  // ---- steps ----

  lemma EquivalentKeeps(view: View, es: seq<V.Vma>, es': seq<V.Vma>, tables: set<Frame>, free: set<Frame>,
                        managed: set<Frame>)
    requires Coherent(view, es) && Equivalent(es, es') && BelowTop(es) && FramesOwned(es, tables, free, managed)
    ensures Coherent(view, es') && BelowTop(es') && FramesOwned(es', tables, free, managed)
  {
    forall p: nat
      ensures V.View(es', p) == V.View(es, p) && HasFrame(es', p) == HasFrame(es, p)
    {
    }
  }

  /** A fresh region has no page behind it, and its pages had no leaf. */
  lemma AddKeeps(view: View, es: seq<V.Vma>, i: nat, v: V.Vma, tables: set<Frame>, free: set<Frame>,
                 managed: set<Frame>)
    requires Coherent(view, es) && BelowTop(es) && FramesOwned(es, tables, free, managed)
    requires i <= |es| && V.FitsAt(es, i, v) && v.end <= USER_VA_TOP && (forall f <- v.pages :: f == NULL)
    ensures var es' := V.InsertAt(es, i, v);
            Coherent(view, es') && BelowTop(es') && FramesOwned(es', tables, free, managed)
  {
    var es' := V.InsertAt(es, i, v);
    V.InsertKeepsOrder(es, i, v);
    forall p: nat
      ensures V.View(es', p) == (if V.Covers(v, p) then Some(V.RecAt(v, p)) else V.View(es, p))
      ensures HasFrame(es', p) == HasFrame(es, p)
      ensures V.View(es', p) == V.View(es, p) || (V.View(es, p) == None && p < TOP_PAGE)
    {
      V.InsertView(es, i, v, p);
      if V.Covers(v, p) {
        assert v.pages[p - V.FirstPage(v)] in v.pages;
      }
    }
  }

  /** Allocating page tables cannot take a frame a region records. */
  lemma TablesKeep(es: seq<V.Vma>, tables: set<Frame>, free: set<Frame>, tables': set<Frame>, free': set<Frame>,
                   managed: set<Frame>)
    requires FramesOwned(es, tables, free, managed) && free' + tables' == free + tables
    ensures FramesOwned(es, tables', free', managed)
  {
    forall p: nat | HasFrame(es, p)
      ensures FrameAt(es, p) !in free' && FrameAt(es, p) !in tables'
    {
      assert FrameAt(es, p) !in free' + tables';
    }
  }

  lemma UnmapKeepsFrames(es: seq<V.Vma>, es': seq<V.Vma>, from: nat, to: nat,
                         tables: set<Frame>, free: set<Frame>, free': set<Frame>, managed: set<Frame>)
    requires FramesOwned(es, tables, free, managed)
    requires RangeGone(es, es', from, to) && RangeFreed(free, free', managed, es, from, to)
    ensures FramesOwned(es', tables, free', managed)
  {
    forall p: nat | HasFrame(es', p)
      ensures HasFrame(es, p) && FrameAt(es', p) == FrameAt(es, p) && FrameAt(es, p) !in free'
    {
      assert V.View(es', p) == V.View(es, p) && !(from <= p < to);
      var f := FrameAt(es, p);
      forall q: nat | from <= q < to
        ensures !(V.View(es, q).Some? && V.View(es, q).value.phys == f)
      {
        assert HasFrame(es, q) && FrameAt(es, q) == f ==> q == p;
      }
    }
  }

  /** munmap: the pages whose records went are the pages whose leaves went. */
  lemma UnmapKeeps(view: View, view': View, es: seq<V.Vma>, es': seq<V.Vma>, from: nat, pages: nat)
    requires Coherent(view, es) && BelowTop(es)
    requires RangeGone(es, es', from, from + pages) && RangeUpdated(view, view', from, pages, UnmapRule())
    ensures Coherent(view', es') && BelowTop(es')
  {
    InvalidIsInvalid();
    forall p: nat | MMAP_PAGE <= p < VPN_LIMIT
      ensures LeafAgrees(view'[p], V.View(es', p))
    {
      assert LeafAgrees(view[p], V.View(es, p));
    }
  }

  lemma ReprotectedLeaf(leaf: Descriptor, r: Option<V.PageRec>, prot: bv32)
    requires LeafAgrees(leaf, r)
    ensures LeafAgrees(ProtectRule(ProtToFlags(prot))(0, leaf),
                       if r.Some? then Some(r.value.(prot := prot)) else r)
  {
    if PteValid(leaf) {
      ReprotectIsFreshMap(r.value.phys, r.value.prot, prot);
    }
  }

  /** mprotect: rewriting leaves in place gives what the new records ask for. */
  lemma ProtectKeeps(view: View, view': View, es: seq<V.Vma>, es': seq<V.Vma>, from: nat, pages: nat, prot: bv32)
    requires Coherent(view, es) && BelowTop(es)
    requires RangeProtected(es, es', from, from + pages, prot)
    requires RangeUpdated(view, view', from, pages, ProtectRule(ProtToFlags(prot)))
    ensures Coherent(view', es') && BelowTop(es')
  {
    forall p: nat | MMAP_PAGE <= p < VPN_LIMIT
      ensures LeafAgrees(view'[p], V.View(es', p))
    {
      assert LeafAgrees(view[p], V.View(es, p));
      ReprotectedLeaf(view[p], V.View(es, p), prot);
    }
  }

  lemma ProtectKeepsFrames(es: seq<V.Vma>, es': seq<V.Vma>, from: nat, to: nat, prot: bv32,
                           tables: set<Frame>, free: set<Frame>, managed: set<Frame>)
    requires FramesOwned(es, tables, free, managed) && RangeProtected(es, es', from, to, prot)
    ensures FramesOwned(es', tables, free, managed)
  {
    forall p: nat
      ensures HasFrame(es', p) == HasFrame(es, p) && (HasFrame(es, p) ==> FrameAt(es', p) == FrameAt(es, p))
    {
      assert V.View(es', p) == V.View(es', p);
    }
  }

  // ---- a demand fault ----

  /** Page p0, mapped but empty, now has frame f; no other page changed. */
  ghost predicate PageFilled(es: seq<V.Vma>, es': seq<V.Vma>, p0: nat, f: Frame) {
    && V.ListOk(es) && V.ListOk(es')
    && V.View(es, p0).Some? && V.View(es, p0).value.phys == NULL
    && forall p: nat {:trigger V.View(es', p)} ::
         V.View(es', p) == if p == p0 then Some(V.View(es, p0).value.(phys := f)) else V.View(es, p)
  }

  lemma FillPage(es: seq<V.Vma>, i: nat, p0: nat, f: Frame)
    requires V.ListOk(es) && i < |es| && V.Covers(es[i], p0) && es[i].pages[p0 - V.FirstPage(es[i])] == NULL
    ensures PageFilled(es, es[i := es[i].(pages := es[i].pages[p0 - V.FirstPage(es[i]) := f])], p0, f)
  {
    var w := es[i].(pages := es[i].pages[p0 - V.FirstPage(es[i]) := f]);
    V.ViewAt(es, i, p0);
    V.ReplaceKeepsOrder(es, i, w);
    forall p: nat
      ensures V.View(es[i := w], p) == if p == p0 then Some(V.View(es, p0).value.(phys := f)) else V.View(es, p)
    {
      V.ReplaceView(es, i, w, p);
      if V.Covers(es[i], p) {
        V.ViewAt(es, i, p);
      }
    }
  }

  ghost predicate Unrecorded(es: seq<V.Vma>, f: Frame)
    requires V.ListOk(es)
  {
    forall q: nat {:trigger HasFrame(es, q)} | HasFrame(es, q) :: FrameAt(es, q) != f
  }

  lemma FillKeepsFrames(es: seq<V.Vma>, es': seq<V.Vma>, p0: nat, f: Frame,
                        tables: set<Frame>, free: set<Frame>, tables': set<Frame>, free': set<Frame>,
                          managed: set<Frame>)
    requires FramesOwned(es, tables, free, managed) && PageFilled(es, es', p0, f) && Unrecorded(es, f)
    requires f in managed && f !in free + tables && free' + tables' == free + tables
    ensures FramesOwned(es', tables', free', managed)
  {
    forall p: nat | HasFrame(es', p)
      ensures FrameAt(es', p) in managed && FrameAt(es', p) !in free' + tables'
      ensures p != p0 ==> HasFrame(es, p) && FrameAt(es', p) == FrameAt(es, p) && FrameAt(es, p) != f
      ensures p == p0 ==> FrameAt(es', p) == f
    {
      assert V.View(es', p) == V.View(es', p);
      if p != p0 {
        assert HasFrame(es, p);
        assert FrameAt(es, p) !in free + tables;
      }
    }
  }

  /** A demand fault: the leaf installed, if the tables could be grown, is the one the region's
      protection asks for. */
  lemma FillKeeps(view: View, view': View, es: seq<V.Vma>, es': seq<V.Vma>, p0: nat, f: Frame)
    requires Coherent(view, es) && BelowTop(es) && PageFilled(es, es', p0, f) && f != NULL
    requires || view' == view
             || (p0 < VPN_LIMIT && view' == view[p0 := LeafDescriptor(f, ProtToFlags(V.View(es, p0).value.prot))])
    ensures Coherent(view', es') && BelowTop(es')
  {
    forall p: nat | MMAP_PAGE <= p < VPN_LIMIT
      ensures LeafAgrees(view'[p], V.View(es', p))
    {
      assert LeafAgrees(view[p], V.View(es, p));
    }
  }

  /** mmu_map_user_range of a single page. */
  lemma InstallKeeps(view: View, view': View, es: seq<V.Vma>, i: nat, p: nat, f: Frame)
    requires Coherent(view, es) && BelowTop(es) && p < VPN_LIMIT && f != NULL
    requires V.ListOk(es) && i < |es| && V.Covers(es[i], p) && es[i].pages[p - V.FirstPage(es[i])] == NULL
    requires view' == view || view' == view[p := LeafDescriptor(f, ProtToFlags(es[i].prot))]
    ensures var es' := es[i := es[i].(pages := es[i].pages[p - V.FirstPage(es[i]) := f])];
            PageFilled(es, es', p, f) && Coherent(view', es') && BelowTop(es')
  {
    V.ViewAt(es, i, p);
    FillPage(es, i, p, f);
    FillKeeps(view, view', es, es[i := es[i].(pages := es[i].pages[p - V.FirstPage(es[i]) := f])], p, f);
  }

  lemma MapOnePage(view: View, view': View, p: nat, f: Frame, flags: bv64, done: nat)
    requires p < VPN_LIMIT && done <= 1 && RangeUpdated(view, view', p, done, MapRule(p, f, flags))
    ensures view' == if done == 1 then view[p := LeafDescriptor(f, flags)] else view
  {
    assert PageAfter(f, 0) == f;
    forall q: nat | q < VPN_LIMIT
      ensures view'[q] == if done == 1 && q == p then LeafDescriptor(f, flags) else view[q]
    {
    }
  }

  /** Mapping below the mmap base is outside the invariant's reach. */
  lemma LowMapKeeps(view: View, view': View, es: seq<V.Vma>, vpn: nat, pages: nat,
                    rule: (nat, Descriptor) -> Descriptor)
    requires Coherent(view, es) && RangeUpdated(view, view', vpn, pages, rule) && vpn + pages <= MMAP_PAGE
    ensures Coherent(view', es)
  {
    forall p: nat | MMAP_PAGE <= p < VPN_LIMIT
      ensures LeafAgrees(view'[p], V.View(es, p))
    {
      assert LeafAgrees(view[p], V.View(es, p));
    }
  }

  // ---- byte addresses and pages ----

  /** A byte is inside a region exactly when its page is covered. */
  lemma ByteInRegion(v: V.Vma, va: nat)
    requires V.VmaOk(v)
    ensures v.start <= va < v.end <==> V.Covers(v, va / PAGE_SIZE)
  {
  }

  lemma NoRegionNoPage(es: seq<V.Vma>, va: nat)
    requires V.ListOk(es) && forall k | 0 <= k < |es| :: !(es[k].start <= va < es[k].end)
    ensures V.View(es, va / PAGE_SIZE) == None
  {
    forall k | 0 <= k < |es|
      ensures !V.Covers(es[k], va / PAGE_SIZE)
    {
      ByteInRegion(es[k], va);
    }
  }

  /** A frame just taken from the pool is recorded nowhere. */
  lemma AllocationKeeps(es: seq<V.Vma>, tables: set<Frame>, free: set<Frame>, free': set<Frame>, managed: set<Frame>,
                        f: Frame)
    requires FramesOwned(es, tables, free, managed) && f in free && free' == free - {f}
    ensures FramesOwned(es, tables, free', managed) && Unrecorded(es, f)
  {
  }

  lemma RegionBelowTop(es: seq<V.Vma>, i: nat)
    requires V.ListOk(es) && BelowTop(es) && i < |es|
    ensures es[i].end <= USER_VA_TOP
  {
    V.SizeInPages(es[i]);
    V.ViewAt(es, i, V.EndPage(es[i]) - 1);
  }

  /** Pages [from, to) were unmapped and are now mapped with no frame; no other page changed. */
  ghost predicate RangeAdded(es: seq<V.Vma>, es': seq<V.Vma>, from: nat, to: nat, prot: bv32, flags: bv32) {
    && V.ListOk(es) && V.ListOk(es')
    && (forall p: nat {:trigger V.View(es', p)} ::
          V.View(es', p) == if from <= p < to then Some(V.PageRec(prot, flags, NULL)) else V.View(es, p))
    && forall p: nat {:trigger V.View(es, p)} | from <= p < to :: V.View(es, p) == None
  }

  lemma AddIsRangeAdded(es: seq<V.Vma>, i: nat, v: V.Vma)
    requires V.ListOk(es) && i <= |es| && V.FitsAt(es, i, v) && forall f <- v.pages :: f == NULL
    ensures RangeAdded(es, V.InsertAt(es, i, v), v.start / PAGE_SIZE, v.end / PAGE_SIZE, v.prot, v.flags)
  {
    V.InsertKeepsOrder(es, i, v);
    forall p: nat
      ensures V.View(V.InsertAt(es, i, v), p)
           == if v.start / PAGE_SIZE <= p < v.end / PAGE_SIZE then Some(V.PageRec(v.prot, v.flags, NULL))
             else V.View(es, p)
      ensures v.start / PAGE_SIZE <= p < v.end / PAGE_SIZE ==> V.View(es, p) == None
    {
      V.InsertView(es, i, v, p);
      if V.Covers(v, p) {
        assert v.pages[p - V.FirstPage(v)] in v.pages;
      }
    }
  }

  /** No page table is among the frames an unmap gives back. */
  lemma UnmapSparesTables(es: seq<V.Vma>, from: nat, to: nat, tables: set<Frame>, free: set<Frame>, free': set<Frame>,
                          managed: set<Frame>)
    requires FramesOwned(es, tables, free, managed) && RangeFreed(free, free', managed, es, from, to)
    requires tables !! free && NULL !in managed
    ensures tables !! free'
  {
    forall f | f in free' && f !in free
      ensures f !in tables
    {
      var q: nat :| from <= q < to && V.View(es, q).Some? && V.View(es, q).value.phys == f;
      assert HasFrame(es, q);
    }
  }
}
