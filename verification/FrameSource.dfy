/** The page allocator (src/mm/pmm/pmm.c) serves the frame pool its clients are written against: seen
    as the set of frames whose flag is clear, pmm_allocate_page and pmm_free_page do what
    FramePools.FramePool promises. names[p] is the frame of page p. */
module FrameSource {
  import opened Descriptors
  import PageBitmap
  import P = PageAllocator

  ghost predicate Naming(names: seq<Frame>, pages: nat) {
    && |names| == pages && (forall p | 0 <= p < pages :: FrameOk(names[p]))
    && forall p, q | 0 <= p < q < pages :: names[p] != names[q]
  }

  ghost function FreeFrames(names: seq<Frame>, v: seq<bool>): set<Frame>
    requires |names| == |v|
  {
    set p | 0 <= p < |v| && !v[p] :: names[p]
  }

  lemma TakeFree(names: seq<Frame>, v: seq<bool>, p: nat)
    requires Naming(names, |v|) && p < |v| && !v[p]
    ensures names[p] in FreeFrames(names, v) && FreeFrames(names, v[p := true]) == FreeFrames(names, v) - {names[p]}
  {
  }

  lemma GiveBack(names: seq<Frame>, v: seq<bool>, p: nat)
    requires Naming(names, |v|) && p < |v|
    ensures FreeFrames(names, v[p := false]) == FreeFrames(names, v) + {names[p]}
  {
    var w := v[p := false];
    forall f
      ensures f in FreeFrames(names, w) <==> f in FreeFrames(names, v) + {names[p]}
    {
      if f in FreeFrames(names, v) {
        var q :| 0 <= q < |v| && !v[q] && names[q] == f;
        assert !w[q];
      }
      assert !w[p];
    }
  }

  /** Page p's address. */
  ghost function AddressOf(a: P.PageAllocator, p: nat): nat {
    a.memStart + p * PageBitmap.PAGE_SIZE
  }

  /** As FramePool.Allocate: null exactly when no frame is free, otherwise a frame that was free and,
      beyond what the pool promises, the one with the lowest address. */
  method Allocate(a: P.PageAllocator, ghost names: seq<Frame>) returns (addr: nat, ghost f: Frame)
    requires a.Valid() && Naming(names, a.totalPages)
    modifies a, a.bitmap
    ensures a.Valid() && (addr == 0 <==> f == NULL)
    ensures f == NULL <==> FreeFrames(names, old(a.used)) == {}
    ensures f == NULL ==> a.used == old(a.used)
    ensures f != NULL ==> f in FreeFrames(names, old(a.used))
                          && FreeFrames(names, a.used) == FreeFrames(names, old(a.used)) - {f}
    ensures f != NULL ==> exists p: nat :: p < a.totalPages && names[p] == f && addr == AddressOf(a, p)
  {
    ghost var v := a.used;
    addr := a.AllocatePage();
    ghost var p := PageBitmap.LowestFree(v, 0);
    if p < a.totalPages {
      f := names[p];
      TakeFree(names, v, p);
    } else {
      f := NULL;
    }
  }

  /** As FramePool.Release: the frame is free afterwards if the allocator manages it, and nothing
      happens to one that it does not manage. */
  method Release(a: P.PageAllocator, ghost names: seq<Frame>, p: nat)
    requires a.Valid() && Naming(names, a.totalPages) && p < a.totalPages
    modifies a, a.bitmap
    ensures a.Valid()
    ensures FreeFrames(names, a.used) ==
            if names[p] in names[a.reservedPages..] then FreeFrames(names, old(a.used)) + {names[p]}
            else FreeFrames(names, old(a.used))
  {
    ghost var v := a.used;
    a.FreePage(a.memStart + p * PageBitmap.PAGE_SIZE);
    assert names[p] in names[a.reservedPages..] <==> a.reservedPages <= p by {
      if a.reservedPages <= p {
        assert names[a.reservedPages..][p - a.reservedPages] == names[p];
      }
    }
    if a.reservedPages <= p {
      GiveBack(names, v, p);
    }
  }
}
