/** The mutable VMA list of src/mm/vma/vma.c: a fixed 32-slot array edited in place. */
module VmaSets {
  import opened Descriptors
  import opened FramePools
  import opened VmaViews
  import opened VmaRanges

  /** kmalloc as these functions see it: the n-th request fails exactly when refuses(n). Every
      pattern of failures is some `refuses`. */
  class KernelHeap {
    const refuses: nat -> bool
    var calls: nat

    constructor (refuses: nat -> bool)
      ensures this.refuses == refuses && calls == 0
    {
      this.refuses := refuses;
      calls := 0;
    }

    method Request() returns (ok: bool)
      modifies this
      ensures ok == !refuses(old(calls)) && calls == old(calls) + 1
    {
      ok := !refuses(calls);
      calls := calls + 1;
    }
  }

  const MAX_VMA_PAGES: nat := 0x10_0000

  const NO_VMA := Vma(0, 0, 0, 0, [])

  class VmaSet {
    const entries: array<Vma>
    var count: nat
    const heap: KernelHeap

    ghost predicate Valid()
      reads this, entries
    {
      && entries.Length == VMA_MAX_PER_TASK
      && count <= VMA_MAX_PER_TASK
      && ListOk(entries[..count])
    }

    ghost function Contents(): seq<Vma>
      reads this, entries
      requires count <= entries.Length
    {
      entries[..count]
    }

    /** vma_init. */
    constructor (heap: KernelHeap)
      ensures Valid() && Contents() == [] && this.heap == heap && fresh(entries)
    {
      entries := new Vma[VMA_MAX_PER_TASK](_ => NO_VMA);
      count := 0;
      this.heap := heap;
    }

    /** vma_find: the region containing byte address va, if any. */
    method Find(va: nat) returns (i: int)
      requires Valid()
      ensures -1 <= i < count
      ensures i >= 0 ==> entries[i].start <= va < entries[i].end
      ensures i == -1 ==> forall k | 0 <= k < count :: !(entries[k].start <= va < entries[k].end)
    {
      i := 0;
      while i < count
        invariant 0 <= i <= count
        invariant forall k | 0 <= k < i :: !(entries[k].start <= va < entries[k].end)
      {
        if entries[i].start <= va < entries[i].end {
          return;
        }
        i := i + 1;
      }
      i := -1;
    }

    /** vma_find_overlap: the first region meeting [start, end), if any. */
    method FindOverlap(start: nat, end: nat) returns (i: int)
      requires Valid()
      ensures -1 <= i < count
      ensures i >= 0 ==> Meets(entries[i], start, end) && forall k | 0 <= k < i :: !Meets(entries[k], start, end)
      ensures i == -1 <==> !Overlapped(Contents(), start, end)
    {
      i := 0;
      while i < count
        invariant 0 <= i <= count
        invariant forall k | 0 <= k < i :: !Meets(entries[k], start, end)
      {
        if Meets(entries[i], start, end) {
          assert Meets(Contents()[i], start, end);
          return;
        }
        i := i + 1;
      }
      i := -1;
    }

    /** vma_insert_sorted: shift the later regions up one slot and store v. */
    method InsertSorted(v: Vma) returns (idx: nat)
      requires entries.Length == VMA_MAX_PER_TASK && count < VMA_MAX_PER_TASK
      modifies `count, entries
      ensures count == old(count) + 1 && idx <= old(count)
      ensures Contents() == InsertAt(old(Contents()), idx, v)
      ensures idx > 0 ==> old(entries[idx - 1]).start <= v.start
      ensures Behind(old(Contents()), idx, v)
    {
      ghost var was := entries[..count];
      idx := count;
      while idx > 0 && entries[idx - 1].start > v.start
        invariant idx <= count == |was| && Shifted(entries[..], was, idx, v)
      {
        ShiftOne(entries[..], was, idx, v);
        entries[idx] := entries[idx - 1];
        idx := idx - 1;
      }
      Placed(entries[..], was, idx, v);
      ghost var now := entries[..];
      entries[idx] := v;
      count := count + 1;
      assert entries[..] == now[idx := v];
    }

    /** Drop slot i by shifting the tail down and clearing the vacated slot. */
    method DropSlot(i: nat)
      requires entries.Length == VMA_MAX_PER_TASK && i < count <= VMA_MAX_PER_TASK
      modifies `count, entries
      ensures count == old(count) - 1 && Contents() == RemoveAt(old(Contents()), i)
      ensures entries[count] == NO_VMA
    {
      ghost var was := entries[..count];
      var j := i;
      while j + 1 < count
        invariant i <= j < count == |was|
        invariant forall k | 0 <= k < i :: entries[k] == was[k]
        invariant forall k {:trigger entries[k]} | i <= k < j :: entries[k] == was[k + 1]
        invariant forall k | j < k < count :: entries[k] == was[k]
      {
        entries[j] := entries[j + 1];
        j := j + 1;
      }
      count := count - 1;
      entries[count] := NO_VMA;
      RemovePointwise(was, entries[..count], i);
    }

    /** vma_add: a new region with no page faulted in, or -1 with the list untouched. */
    method Add(start: nat, end: nat, prot: bv32, flags: bv32) returns (i: int)
      requires Valid()
      modifies `count, entries, heap
      ensures Valid() && -1 <= i <= old(count) && i < count
      ensures i >= 0 <==> start < end && start % PAGE_SIZE == 0 && end % PAGE_SIZE == 0
                          && old(count) < VMA_MAX_PER_TASK && !Overlapped(old(Contents()), start, end)
                          && (end - start) / PAGE_SIZE <= MAX_VMA_PAGES && !heap.refuses(old(heap.calls))
      ensures i == -1 ==> Contents() == old(Contents())
      ensures i >= 0 ==> FitsAt(old(Contents()), i, NewVma(start, end, prot, flags))
                         && Contents() == InsertAt(old(Contents()), i, NewVma(start, end, prot, flags))
    {
      if start >= end || start % PAGE_SIZE != 0 || end % PAGE_SIZE != 0 || count >= VMA_MAX_PER_TASK {
        return -1;
      }
      var hit := FindOverlap(start, end);
      if hit >= 0 || (end - start) / PAGE_SIZE > MAX_VMA_PAGES {
        return -1;
      }
      var ok := heap.Request();
      if !ok {
        return -1;
      }
      i := Place(NewVma(start, end, prot, flags));
    }

    method Place(v: Vma) returns (i: int)
      requires Valid() && count < VMA_MAX_PER_TASK && VmaOk(v) && !Overlapped(Contents(), v.start, v.end)
      modifies `count, entries
      ensures Valid() && 0 <= i <= old(count) && count == old(count) + 1
      ensures FitsAt(old(Contents()), i, v) && Contents() == InsertAt(old(Contents()), i, v)
    {
      ghost var was := Contents();
      var idx := InsertSorted(v);
      SortedPositionFits(was, idx, v);
      InsertKeepsOrder(was, idx, v);
      // the source resolves the slot again through vma_find
      i := Find(v.start);
      FoundIs(Contents(), i, idx, v.start);
    }

    /** vma_split_at: make va a region boundary. Succeeds without change when it already is one;
        on failure the list is untouched. */
    method Split(va: nat) returns (ok: bool)
      requires Valid()
      modifies `count, entries, heap
      ensures Valid()
      ensures ok <==> va % PAGE_SIZE == 0
                      && (Straddled(old(Contents()), va) ==> old(count) < VMA_MAX_PER_TASK
                                                             && !heap.refuses(old(heap.calls)))
      ensures !ok ==> Contents() == old(Contents())
      ensures ok && !Straddled(old(Contents()), va) ==> Contents() == old(Contents())
      ensures ok && Straddled(old(Contents()), va) ==> SplitDone(old(Contents()), Contents(), va)
      ensures heap.calls >= old(heap.calls)
    {
      if va % PAGE_SIZE != 0 {
        return false;
      }
      var i := Find(va);
      if i < 0 || entries[i].start == va || entries[i].end == va {
        NotInside(Contents(), i, va);
        return true;
      }
      assert StraddledBy(Contents()[i], va);
      if count >= VMA_MAX_PER_TASK {
        return false;
      }
      var got := heap.Request();
      if !got {
        return false;
      }
      SplitIsDone(Contents(), i, va);
      CutAt(i, va);
      ok := true;
    }

    method Truncate(i: nat, va: nat)
      requires i < count <= entries.Length
      modifies entries
      ensures Contents() == old(Contents())[i := Head(old(Contents())[i], va)]
    {
      entries[i] := Head(entries[i], va);
    }

    method CutAt(i: nat, va: nat)
      requires Valid() && i < count < VMA_MAX_PER_TASK && va % PAGE_SIZE == 0 && StraddledBy(entries[i], va)
      modifies `count, entries
      ensures count == old(count) + 1 && Contents() == SplitAt(old(Contents()), i, va)
    {
      ghost var was := Contents();
      SizeInPages(entries[i]);
      var tail := Tail(entries[i], va);
      Truncate(i, va);
      ghost var cut := Contents();
      var idx := InsertSorted(tail);
      TailPosition(was, cut, i, va, idx);
    }

    /** The two cuts vma_unmap_range and vma_protect_range start with. When the second fails the
        first may already have happened; the pages and their records are the same either way. */
    method CutBoth(start: nat, end: nat) returns (ok: bool)
      requires Valid() && start < end
      modifies `count, entries, heap
      ensures Valid() && Equivalent(old(Contents()), Contents())
      ensures ok ==> start % PAGE_SIZE == 0 && end % PAGE_SIZE == 0
      ensures ok ==> !Straddled(Contents(), start) && !Straddled(Contents(), end)
      ensures heap.calls >= old(heap.calls)
      ensures NeverRefuses(heap.refuses, old(heap.calls)) ==>
                (ok <==> start % PAGE_SIZE == 0 && end % PAGE_SIZE == 0
                         && old(count) + CutsNeeded(old(Contents()), start, end) <= VMA_MAX_PER_TASK)
    {
      ok := Split(start);
      ghost var mid := Contents();
      if ok {
        ok := Split(end);
      }
    }

    /** vma_merge_adjacent: weld contiguous regions of equal prot and flags. A refused allocation
        skips a pair; when none is refused no weldable pair is left. */
    method MergeAdjacent() returns (merges: nat)
      requires Valid()
      modifies `count, entries, heap
      ensures Valid() && Equivalent(old(Contents()), Contents())
      ensures count + merges == old(count) && heap.calls >= old(heap.calls)
      ensures NeverRefuses(heap.refuses, old(heap.calls)) ==> NoWeldBefore(Contents(), |Contents()|)
    {
      merges := 0;
      var i := 0;
      ghost var was := Contents();
      while i + 1 < count
        invariant Valid() && Equivalent(was, Contents()) && i <= count
        invariant count + merges == |was| && heap.calls >= old(heap.calls)
        invariant NeverRefuses(heap.refuses, old(heap.calls)) ==> NoWeldBefore(Contents(), i)
        decreases count - i
      {
        if !Mergeable(entries[i], entries[i + 1]) {
          i := i + 1;
          continue;
        }
        var got := heap.Request();
        if !got {
          i := i + 1;
          continue;
        }
        ghost var es := Contents();
        WeldStep(was, es, i);
        WeldPair(i);
        merges := merges + 1;
      }
    }

    method WeldPair(i: nat)
      requires Valid() && i + 1 < count && Mergeable(entries[i], entries[i + 1])
      modifies `count, entries
      ensures count == old(count) - 1 && Contents() == MergeAt(old(Contents()), i)
    {
      ghost var es := Contents();
      SizeInPages(entries[i]);
      SizeInPages(entries[i + 1]);
      var w := Weld(entries[i], entries[i + 1]);
      DropSlot(i + 1);
      entries[i] := w;
      assert Contents() == RemoveAt(es, i + 1)[i := w];
    }

    /** Give back every faulted-in page of one region. */
    method ReleasePages(v: Vma, pool: FramePool) returns (released: nat)
      requires pool.Valid() && VmaOk(v)
      modifies pool
      ensures pool.Valid()
      ensures released == NonNull(Backing(v)) && FreedBacking(old(pool.free), pool.free, pool.managed, v)
    {
      released := 0;
      SizeInPages(v);
      var n, p := NPages(v), 0;
      ghost var ps := Backing(v);
      assert ps[..0] == [];
      while p < n
        invariant p <= n == |ps| && pool.Valid()
        invariant released == NonNull(ps[..p])
        invariant forall f :: f in pool.free <==> f in old(pool.free) || (f in pool.managed && f in ps[..p])
      {
        if v.pages[p] != NULL {
          pool.Release(v.pages[p]);
          released := released + 1;
        }
        assert ps[..p + 1] == ps[..p] + [v.pages[p]];
        assert ps[..p + 1][..p] == ps[..p];
        p := p + 1;
      }
      assert ps[..n] == ps;
    }

    /** vma_unmap_range. On -1 no page and no record changed, although the list may already have
        been cut at `start`. Otherwise exactly the pages of the range are gone, exactly their
        frames are back in the pool, and the result counts them. */
    method UnmapRange(start: nat, end: nat, pool: FramePool) returns (released: int)
      requires Valid() && pool.Valid()
      modifies `count, entries, heap, pool
      ensures Valid() && pool.Valid() && released >= -1
      ensures released == -1 ==> Equivalent(old(Contents()), Contents()) && unchanged(pool)
      ensures released >= 0 ==> start < end && start % PAGE_SIZE == 0 && end % PAGE_SIZE == 0
      ensures released >= 0 ==> RangeGone(old(Contents()), Contents(), start / PAGE_SIZE, end / PAGE_SIZE)
      ensures released >= 0 ==> RangeFreed(old(pool.free), pool.free, pool.managed, old(Contents()), start / PAGE_SIZE,
              end / PAGE_SIZE)
      ensures released >= 0 ==> released + Resident(Contents()) == Resident(old(Contents()))
      ensures NeverRefuses(heap.refuses, old(heap.calls)) ==>
                (released >= 0 <==> start < end && start % PAGE_SIZE == 0 && end % PAGE_SIZE == 0
                                    && old(count) + CutsNeeded(old(Contents()), start, end) <= VMA_MAX_PER_TASK)
    {
      if start >= end {
        return -1;
      }
      var ok := CutBoth(start, end);
      if !ok {
        return -1;
      }
      ghost var cut := Contents();
      released := RemoveInside(start, end, pool);
      ghost var thin := Contents();
      var _ := MergeAdjacent();
      RangeGoneThrough(old(Contents()), cut, thin, Contents(), start / PAGE_SIZE, end / PAGE_SIZE,
                       old(pool.free), pool.free, pool.managed);
    }

    /** The removal loop: every region inside the range goes, its pages first. */
    method RemoveInside(start: nat, end: nat, pool: FramePool) returns (released: nat)
      requires Valid() && pool.Valid() && start % PAGE_SIZE == 0 && end % PAGE_SIZE == 0
      requires !Straddled(Contents(), start) && !Straddled(Contents(), end)
      modifies `count, entries, pool
      ensures Valid() && pool.Valid()
      ensures RangeGone(old(Contents()), Contents(), start / PAGE_SIZE, end / PAGE_SIZE)
      ensures RangeFreed(old(pool.free), pool.free, pool.managed, old(Contents()), start / PAGE_SIZE, end / PAGE_SIZE)
      ensures released + Resident(Contents()) == Resident(old(Contents()))
    {
      released := 0;
      var i := 0;
      ghost var cut := Contents();
      NothingRemoved(cut, start, end, pool.free, pool.managed);
      while i < count
        invariant Valid() && pool.Valid() && i <= count
        invariant Removing(cut, Contents(), start, end)
        invariant FreedGone(old(pool.free), pool.free, pool.managed, cut, Contents())
        invariant NoneInside(Contents(), i, start, end)
        invariant released + Resident(Contents()) == Resident(cut)
        decreases count - i
      {
        if Inside(entries[i], start, end) {
          var n := RemoveNext(i, pool, cut, start, end, old(pool.free));
          released := released + n;
        } else {
          OneMoreOutside(Contents(), i, start, end);
          i := i + 1;
        }
      }
      RemovalComplete(cut, Contents(), start, end, old(pool.free), pool.free, pool.managed);
    }

    method RemoveNext(i: nat, pool: FramePool, ghost cut: seq<Vma>, ghost start: nat, ghost end: nat,
                      ghost free0: set<Frame>)
      returns (released: nat)
      requires Valid() && pool.Valid() && i < count && Inside(entries[i], start, end)
      requires Removing(cut, Contents(), start, end) && NoneInside(Contents(), i, start, end)
      requires FreedGone(free0, pool.free, pool.managed, cut, Contents())
      modifies `count, entries, pool
      ensures Valid() && pool.Valid() && count == old(count) - 1
      ensures Removing(cut, Contents(), start, end) && NoneInside(Contents(), i, start, end)
      ensures FreedGone(free0, pool.free, pool.managed, cut, Contents())
      ensures released + Resident(Contents()) == Resident(old(Contents()))
    {
      ghost var es, free := Contents(), pool.free;
      released := RemoveRegion(i, pool);
      RemoveStep(cut, es, i, start, end);
      FreeStep(free0, free, pool.free, pool.managed, cut, es, i, start, end);
    }

    method RemoveRegion(i: nat, pool: FramePool) returns (released: nat)
      requires Valid() && pool.Valid() && i < count
      modifies `count, entries, pool
      ensures Valid() && pool.Valid() && count == old(count) - 1
      ensures Contents() == RemoveAt(old(Contents()), i)
      ensures released == NonNull(Backing(old(entries[i])))
      ensures FreedBacking(old(pool.free), pool.free, pool.managed, old(entries[i]))
    {
      ghost var es := Contents();
      released := ReleasePages(entries[i], pool);
      RemoveKeepsOrder(es, i);
      DropSlot(i);
    }

    /** vma_protect_range. On -1 nothing changed page by page. Otherwise exactly the mapped pages
        of the range have the new protection, and the result is 0 just when there were none. */
    method ProtectRange(start: nat, end: nat, prot: bv32) returns (touched: int)
      requires Valid()
      modifies `count, entries, heap
      ensures Valid() && touched >= -1
      ensures touched == -1 ==> Equivalent(old(Contents()), Contents())
      ensures touched >= 0 ==> start < end && start % PAGE_SIZE == 0 && end % PAGE_SIZE == 0
      ensures touched >= 0 ==> RangeProtected(old(Contents()), Contents(), start / PAGE_SIZE, end / PAGE_SIZE, prot)
                               && Resident(Contents()) == Resident(old(Contents()))
      ensures touched >= 0 ==> (touched > 0 <==> AnyMapped(old(Contents()), start / PAGE_SIZE, end / PAGE_SIZE))
      ensures NeverRefuses(heap.refuses, old(heap.calls)) ==>
                (touched >= 0 <==> start < end && start % PAGE_SIZE == 0 && end % PAGE_SIZE == 0
                                   && old(count) + CutsNeeded(old(Contents()), start, end) <= VMA_MAX_PER_TASK)
    {
      if start >= end {
        return -1;
      }
      var ok := CutBoth(start, end);
      if !ok {
        return -1;
      }
      ghost var cut := Contents();
      touched := ProtectInside(start, end, prot);
      ProtectedOk(cut, start, end, prot);
      var _ := MergeAdjacent();
      ProtectThrough(old(Contents()), cut, Contents(), start, end, prot);
      SameMapped(old(Contents()), cut, start / PAGE_SIZE, end / PAGE_SIZE);
    }

    method ProtectInside(start: nat, end: nat, prot: bv32) returns (touched: nat)
      requires Valid() && start % PAGE_SIZE == 0 && end % PAGE_SIZE == 0
      requires !Straddled(Contents(), start) && !Straddled(Contents(), end)
      modifies entries
      ensures Valid() && Contents() == Protected(old(Contents()), start, end, prot)
      ensures touched > 0 <==> AnyMapped(old(Contents()), start / PAGE_SIZE, end / PAGE_SIZE)
    {
      touched := 0;
      ghost var cut := Contents();
      for i := 0 to count
        invariant ProtectedUpTo(entries[..count], cut, i, start, end, prot)
        invariant touched > 0 ==> AnyMapped(cut, start / PAGE_SIZE, end / PAGE_SIZE)
        invariant touched == 0 ==> forall k | 0 <= k < i :: !Inside(cut[k], start, end)
      {
        ProtectNext(entries[..count], cut, i, start, end, prot);
        if Inside(entries[i], start, end) {
          InsideMeansMapped(cut, i, start, end);
          ghost var now := entries[..count];
          entries[i] := entries[i].(prot := prot);
          assert entries[..count] == now[i := ProtectOne(cut[i], start, end, prot)];
          touched := touched + 1;
        }
      }
      assert Contents() == Protected(cut, start, end, prot);
      ProtectedOk(cut, start, end, prot);
      if touched == 0 {
        NoneInsideMeansUnmapped(cut, start, end);
      }
    }

    /** vma_destroy: every faulted-in page goes back to the pool and the list is empty. */
    method Destroy(pool: FramePool)
      requires Valid() && pool.Valid()
      modifies `count, entries, pool
      ensures Valid() && pool.Valid() && Contents() == []
      ensures FreedBefore(old(pool.free), pool.free, pool.managed, old(Contents()), old(count))
    {
      ghost var es := Contents();
      for i := 0 to count
        invariant count == old(count) && Contents() == es && pool.Valid()
        invariant FreedBefore(old(pool.free), pool.free, pool.managed, es, i)
      {
        ghost var free := pool.free;
        var _ := ReleasePages(entries[i], pool);
        FreeOneMore(old(pool.free), free, pool.free, pool.managed, es, i);
      }
      count := 0;
    }

    /** vma_clone into this set. Success gives an equivalent list over its own page arrays. A
        refused array allocation runs vma_destroy on the half-built clone, whose entries still
        name the source's pages: those pages go back to the pool under the source's feet. */
    method CloneFrom(src: VmaSet, pool: FramePool) returns (ok: bool, ghost made: nat)
      requires Valid() && src.Valid() && pool.Valid() && src != this && src.entries != entries
      modifies `count, entries, heap, pool
      ensures Valid() && pool.Valid()
      ensures ok <==> Granted(heap.refuses, old(heap.calls), src.count)
      ensures ok ==> Equivalent(src.Contents(), Contents()) && unchanged(pool)
      ensures !ok ==> Contents() == [] && made < src.count && heap.refuses(old(heap.calls) + made)
                      && FreedBefore(old(pool.free), pool.free, pool.managed, src.Contents(), made)
    {
      var n := CopyRecords(src);
      ghost var es := src.Contents();
      made := n;
      ok := n == src.count;
      if ok {
        CloneComplete(es, Contents());
      } else {
        Destroy(pool);
        FreedThroughClone(old(pool.free), pool.free, pool.managed, es, n);
      }
    }

    /** The copying loop: stops at the first refused array allocation. */
    method CopyRecords(src: VmaSet) returns (n: nat)
      requires Valid() && src.Valid() && src != this && src.entries != entries
      modifies `count, entries, heap
      ensures Valid() && n <= src.count && count == n && Contents() == Trimmed(src.Contents())[..n]
      ensures Granted(heap.refuses, old(heap.calls), n)
      ensures n < src.count ==> heap.refuses(old(heap.calls) + n)
    {
      count, n := 0, 0;
      ghost var es := src.Contents();
      while n < src.count
        invariant n <= src.count == |es| && src.Contents() == es
        invariant Valid() && count == n && Contents() == Trimmed(es)[..n]
        invariant heap.calls == old(heap.calls) + n && Granted(heap.refuses, old(heap.calls), n)
      {
        var got := CopyOne(src, n, es);
        if !got {
          return;
        }
        n := n + 1;
      }
    }

    /** One record, with an array of its own. */
    method CopyOne(src: VmaSet, n: nat, ghost es: seq<Vma>) returns (got: bool)
      requires Valid() && src.Valid() && src != this && src.entries != entries
      requires src.Contents() == es && n < src.count && count == n && Contents() == Trimmed(es)[..n]
      modifies `count, entries, heap
      ensures heap.calls == old(heap.calls) + 1 && got == !heap.refuses(old(heap.calls))
      ensures Valid() && count == (if got then n + 1 else n) && Contents() == Trimmed(es)[..count]
              && src.Contents() == es
    {
      got := heap.Request();
      if got {
        SizeInPages(src.entries[n]);
        TrimmedPrefix(es, n);
        Append(Trim(src.entries[n]));
      }
    }

    method Append(v: Vma)
      requires Valid() && count < VMA_MAX_PER_TASK && FitsAt(Contents(), count, v)
      modifies `count, entries
      ensures Valid() && count == old(count) + 1 && Contents() == InsertAt(old(Contents()), old(count), v)
    {
      ghost var es := Contents();
      InsertKeepsOrder(es, count, v);
      var idx := InsertSorted(v);
      AtTheEnd(es, idx, v);
    }
  }

  /** The regions from idx on have moved up one slot; they all start behind v. */
  ghost predicate Shifted(now: seq<Vma>, was: seq<Vma>, idx: nat, v: Vma) {
    && idx <= |was| < |now| && (forall k | 0 <= k < idx :: now[k] == was[k])
    && (forall k {:trigger was[k]} | idx <= k < |was| :: now[k + 1] == was[k] && was[k].start > v.start)
  }

  lemma ShiftOne(now: seq<Vma>, was: seq<Vma>, idx: nat, v: Vma)
    requires Shifted(now, was, idx, v) && idx > 0 && now[idx - 1].start > v.start
    ensures Shifted(now[idx := now[idx - 1]], was, idx - 1, v)
  {
  }

  lemma Placed(now: seq<Vma>, was: seq<Vma>, idx: nat, v: Vma)
    requires Shifted(now, was, idx, v)
    ensures now[idx := v][..|was| + 1] == InsertAt(was, idx, v)
  {
    var r := now[idx := v];
    InsertPointwise(was, r[..|was| + 1], idx, v);
  }

  /** Everything from idx on starts behind v. */
  ghost predicate Behind(es: seq<Vma>, idx: nat, v: Vma) {
    forall k | idx <= k < |es| :: es[k].start > v.start
  }

  lemma AtTheEnd(es: seq<Vma>, idx: nat, v: Vma)
    requires ListOk(es) && FitsAt(es, |es|, v) && idx <= |es| && Behind(es, idx, v)
    ensures idx == |es|
  {
    if |es| > 0 {
      assert es[|es| - 1].start <= v.start;
    }
  }

  /** The loop of vma_protect_range after i regions. */
  ghost predicate ProtectedUpTo(now: seq<Vma>, cut: seq<Vma>, i: nat, start: nat, end: nat, prot: bv32) {
    && i <= |cut| == |now|
    && (forall k | 0 <= k < i :: now[k] == ProtectOne(cut[k], start, end, prot))
       && (forall k | i <= k < |cut| :: now[k] == cut[k])
  }

  lemma ProtectNext(now: seq<Vma>, cut: seq<Vma>, i: nat, start: nat, end: nat, prot: bv32)
    requires ProtectedUpTo(now, cut, i, start, end, prot) && i < |cut|
    ensures ProtectedUpTo(now[i := ProtectOne(cut[i], start, end, prot)], cut, i + 1, start, end, prot)
    ensures !Inside(cut[i], start, end) ==> ProtectedUpTo(now, cut, i + 1, start, end, prot)
  {
  }

  lemma FreedThroughClone(free0: set<Frame>, free: set<Frame>, managed: set<Frame>, es: seq<Vma>, n: nat)
    requires ListOk(es) && n <= |es| && FreedBefore(free0, free, managed, Trimmed(es)[..n], n)
    ensures FreedBefore(free0, free, managed, es, n)
  {
    forall f
      ensures BackedBefore(Trimmed(es)[..n], n, f) == BackedBefore(es, n, f)
    {
      TrimmedBacking(es, n, f);
    }
  }

  lemma CloneComplete(es: seq<Vma>, now: seq<Vma>)
    requires ListOk(es) && now == Trimmed(es)[..|es|]
    ensures Equivalent(es, now)
  {
    TrimmedEquivalent(es);
    assert now == Trimmed(es);
  }

  /** n requests in a row are granted. */
  ghost predicate Granted(refuses: nat -> bool, from: nat, n: nat) {
    forall m: nat {:trigger refuses(m)} | from <= m < from + n :: !refuses(m)
  }

  ghost predicate NeverRefuses(refuses: nat -> bool, from: nat) {
    forall n: nat | n >= from :: !refuses(n)
  }

  ghost function CutsNeeded(es: seq<Vma>, start: nat, end: nat): nat {
    (if Straddled(es, start) then 1 else 0) + (if Straddled(es, end) then 1 else 0)
  }

  ghost predicate CanWeld(es: seq<Vma>, k: nat) {
    k + 1 < |es| && Mergeable(es[k], es[k + 1])
  }

  /** None of the first n regions could be welded to its successor. */
  ghost predicate NoWeldBefore(es: seq<Vma>, n: nat) {
    forall k: nat {:trigger CanWeld(es, k)} | k < n :: !CanWeld(es, k)
  }

  /** After a full merge regions are as large as can be: two neighbouring pages with the same protection and
      flags are in the same region. */
  lemma MergedIsCoarsest(es: seq<Vma>, p: nat) returns (k: nat)
    requires ListOk(es) && NoWeldBefore(es, |es|) && p > 0 && View(es, p - 1).Some? && View(es, p).Some?
    requires View(es, p - 1).value.prot == View(es, p).value.prot
    requires View(es, p - 1).value.flags == View(es, p).value.flags
    ensures k < |es| && FirstPage(es[k]) <= p - 1 && p < EndPage(es[k])
  {
    var i :| 0 <= i < |es| && Covers(es[i], p - 1);
    var j :| 0 <= j < |es| && Covers(es[j], p);
    ViewAt(es, i, p - 1);
    ViewAt(es, j, p);
    if i != j {
      Neighbours(es, i, j, p);
      NotWeldable(es, i);
      assert false;
    }
    k := i;
  }

  lemma NotWeldable(es: seq<Vma>, i: nat)
    requires NoWeldBefore(es, |es|) && i + 1 < |es|
    ensures !(es[i].end == es[i + 1].start && es[i].prot == es[i + 1].prot && es[i].flags == es[i + 1].flags)
  {
    assert !CanWeld(es, i);
  }

  lemma Neighbours(es: seq<Vma>, i: nat, j: nat, p: nat)
    requires ListOk(es) && i < |es| && j < |es| && i != j && p > 0 && Covers(es[i], p - 1) && Covers(es[j], p)
    ensures j == i + 1 && es[i].end == es[j].start
  {
    assert VmaOk(es[i]) && VmaOk(es[j]);
    if j < i {
      assert false;
    }
    PagesInOrder(es[i], es[j]);
    if i + 1 < j {
      NothingBetween(es, i, j);
    }
  }

  lemma NothingBetween(es: seq<Vma>, i: nat, j: nat)
    requires ListOk(es) && i + 1 < j < |es|
    ensures es[i].end < es[j].start
  {
    assert VmaOk(es[i + 1]);
  }

  lemma WeldEarlier(es: seq<Vma>, i: nat, k: nat)
    requires ListOk(es) && CanWeld(es, i) && k < i
    ensures CanWeld(MergeAt(es, i), k) == CanWeld(es, k)
  {
    MergeKeepsOrder(es, i);
  }

  lemma WeldEquivalent(was: seq<Vma>, es: seq<Vma>, i: nat)
    requires Equivalent(was, es) && CanWeld(es, i)
    ensures Equivalent(was, MergeAt(es, i))
  {
    MergeKeepsView(es, i);
    MergeKeepsResident(es, i);
    EquivalentTrans(was, es, MergeAt(es, i));
  }

  lemma WeldStep(was: seq<Vma>, es: seq<Vma>, i: nat)
    requires Equivalent(was, es) && CanWeld(es, i)
    ensures Equivalent(was, MergeAt(es, i))
    ensures NoWeldBefore(es, i) ==> NoWeldBefore(MergeAt(es, i), i)
  {
    WeldEquivalent(was, es, i);
    forall k: nat | k < i
      ensures CanWeld(MergeAt(es, i), k) == CanWeld(es, k)
    {
      WeldEarlier(es, i, k);
    }
  }

  function NewVma(start: nat, end: nat, prot: bv32, flags: bv32): (v: Vma)
    requires start <= end
    ensures v.start <= v.end && |v.pages| == NPages(v)
  {
    Vma(start, end, prot, flags, seq((end - start) / PAGE_SIZE, _ => NULL))
  }

  lemma FoundIs(es: seq<Vma>, i: int, idx: nat, va: nat)
    requires ListOk(es) && idx < |es| && es[idx].start <= va < es[idx].end
    requires -1 <= i < |es| && (i >= 0 ==> es[i].start <= va < es[i].end)
    requires i == -1 ==> forall k | 0 <= k < |es| :: !(es[k].start <= va < es[k].end)
    ensures i == idx
  {
  }

  lemma NotInside(es: seq<Vma>, i: int, va: nat)
    requires ListOk(es) && -1 <= i < |es|
    requires i >= 0 ==> es[i].start == va < es[i].end
    requires i == -1 ==> forall k | 0 <= k < |es| :: !(es[k].start <= va < es[k].end)
    ensures !Straddled(es, va)
  {
    forall k | 0 <= k < |es|
      ensures !StraddledBy(es[k], va)
    {
    }
  }
}
