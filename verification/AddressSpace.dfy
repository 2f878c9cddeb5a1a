/** The address-space steps of one task: demand faults and stack growth (src/sched/sched.c),
    mmap, munmap and mprotect (src/syscall/syscall.c). Each is one atomic step. */
module AddressSpace {
  import opened Descriptors
  import opened FramePools
  import opened PageTables
  import V = VmaViews
  import opened VmaRanges
  import opened VmaSets
  import opened Coherence
  import opened Values

  const TWO64: nat := 0x1_0000_0000_0000_0000
  type u64 = x: nat | x < TWO64

  const EINVAL: nat := 22
  const ENOMEM: nat := 12
  const EOPNOTSUPP: nat := 95

  const VMA_ANONYMOUS_SHARED: bv32 := 0x3

  // stack_max_lo, stack_initial_lo and USER_STACK_GROWN_MAX, in bytes and pages
  const USER_STACK_TOP: nat := 0x0080_0000
  const STACK_MAX_LO: nat := USER_STACK_TOP - 64 * PAGE_SIZE
  const STACK_INITIAL_LO: nat := USER_STACK_TOP - 4 * PAGE_SIZE
  const STACK_GROWN_MAX: nat := 60
  const STACK_FLAGS: bv64 := 0x0060_0000_0000_0044

  datatype MmResult = Done(value: nat) | Failed(errno: nat)

  datatype MapFlags = MapFlags(shared: bool, anonymous: bool, fixed: bool)

  function PageAlignUp(x: nat): nat {
    (x + PAGE_SIZE - 1) / PAGE_SIZE * PAGE_SIZE
  }

  function PageAlignDown(x: nat): nat {
    x / PAGE_SIZE * PAGE_SIZE
  }

  /** 64-bit addition. */
  function Sum64(x: u64, y: u64): u64 {
    if x + y < TWO64 then x + y else x + y - TWO64
  }

  predicate RangeOk(start: nat, end: nat) {
    start < end <= USER_VA_TOP
  }

  datatype StackPage = StackPage(phys: Frame, vpn: nat)

  class Task {
    const pool: FramePool
    const vmas: VmaSet
    const pt: PageTable
    var grown: seq<StackPage>

    ghost predicate Valid()
      reads this, pool, vmas, vmas.entries, vmas.heap, pt
    {
      && pt.pool == pool
      && vmas.Valid() && pt.Valid()
      && Coherent(pt.view, vmas.Contents())
      && BelowTop(vmas.Contents())
      && FramesOwned(vmas.Contents(), pt.mem.Keys, pool.free, pool.managed)
      && |grown| <= STACK_GROWN_MAX
    }

    /** A task whose user space is empty. */
    constructor (pool: FramePool, heap: KernelHeap, root: Frame)
      requires pool.Valid() && root in pool.managed && root !in pool.free
      ensures Valid() && this.pool == pool && vmas.heap == heap && fresh(vmas) && fresh(vmas.entries) && fresh(pt)
      ensures vmas.Contents() == [] && grown == [] && pt.view == EmptyView()
    {
      this.pool := pool;
      vmas := new VmaSet(heap);
      pt := new PageTable(pool, root);
      grown := [];
      new;
      InvalidIsInvalid();
    }

    /** sched_try_handle_vma_fault. Handles the fault exactly when a region covers the address,
        its protection allows the access, the page has not been faulted in, and a frame is free.
        The page then has a frame of its own, and a leaf too unless table pages ran out. */
    method Fault(far: u64, isWrite: bool, isExec: bool) returns (handled: bool, ghost f: Frame)
      requires Valid()
      modifies pool, vmas.entries, pt
      ensures Valid()
      ensures handled <==> Faultable(V.View(old(vmas.Contents()), far / PAGE_SIZE), isWrite, isExec)
                           && old(pool.free) != {}
      ensures !handled ==> unchanged(pool) && unchanged(vmas.entries) && unchanged(pt)
      ensures handled ==> f in old(pool.free) && PageFilled(old(vmas.Contents()), vmas.Contents(), far / PAGE_SIZE, f)
      ensures handled ==> far / PAGE_SIZE < VPN_LIMIT
                          && (pt.view == old(pt.view)[far / PAGE_SIZE :=
                             LeafDescriptor(f, ProtToFlags(V.View(vmas.Contents(), far / PAGE_SIZE).value.prot))]
                              || (pt.view == old(pt.view) && pool.free == {}))
      ensures handled && pt.view != old(pt.view) ==> Grants(pt.view[far / PAGE_SIZE], isWrite, isExec)
      ensures var r := V.View(old(vmas.Contents()), far / PAGE_SIZE);
              r.Some? && r.value.phys == NULL && old(pool.free) != {} ==>
                (handled <==> r.value.prot & (if isExec then 4 else if isWrite then 2 else 1) != 0)
    {
      f := NULL;
      handled := false;
      var i := FaultTarget(far, isWrite, isExec);
      if i < 0 {
        return;
      }
      var pa := pool.Allocate();
      if pa == NULL {
        return;
      }
      f := pa;
      handled := true;
      ghost var es := vmas.Contents();
      AllocationKeeps(es, pt.mem.Keys, old(pool.free), pool.free, pool.managed, pa);
      V.ViewAt(es, i, far / PAGE_SIZE);
      PermittedIsGranted(vmas.entries[i].prot, isWrite, isExec, pa);
      InstallPage(i, far / PAGE_SIZE, pa, far / PAGE_SIZE - vmas.entries[i].start / PAGE_SIZE);
    }

    /** The checks that come before a frame is allocated: the region to fill, or -1. */
    method FaultTarget(far: u64, isWrite: bool, isExec: bool) returns (i: int)
      requires Valid()
      ensures -1 <= i < vmas.count
      ensures i >= 0 <==> Faultable(V.View(vmas.Contents(), far / PAGE_SIZE), isWrite, isExec)
      ensures i >= 0 ==> V.Covers(vmas.entries[i], far / PAGE_SIZE)
                         && vmas.entries[i].pages[far / PAGE_SIZE - V.FirstPage(vmas.entries[i])] == NULL
    {
      ghost var es := vmas.Contents();
      i := vmas.Find(far);
      if i < 0 {
        NoRegionNoPage(es, far);
        return -1;
      }
      var v := vmas.entries[i];
      ByteInRegion(v, far);
      V.ViewAt(es, i, far / PAGE_SIZE);
      if !Permits(v.prot, isWrite, isExec) {
        return -1;
      }
      var idx := (PageAlignDown(far) - v.start) / PAGE_SIZE;
      assert idx == far / PAGE_SIZE - V.FirstPage(v);
      V.SizeInPages(v);
      if idx >= V.NPages(v) || v.pages[idx] != NULL {
        return -1;
      }
    }

    /** Map the fresh frame and record it in the region. */
    method InstallPage(i: nat, p: nat, pa: Frame, idx: nat)
      requires Valid() && i < vmas.count && V.Covers(vmas.entries[i], p) && p < TOP_PAGE
      requires idx == p - V.FirstPage(vmas.entries[i]) && vmas.entries[i].pages[idx] == NULL
      requires pa in pool.managed && pa !in pool.free + pt.mem.Keys && Unrecorded(vmas.Contents(), pa)
      modifies pool, vmas.entries, pt
      ensures Valid() && PageFilled(old(vmas.Contents()), vmas.Contents(), p, pa)
      ensures pt.view == old(pt.view)[p := LeafDescriptor(pa, ProtToFlags(old(vmas.entries[i].prot)))]
              || (pt.view == old(pt.view) && pool.free == {})
    {
      ghost var es, view, tables, free := vmas.Contents(), pt.view, pt.mem.Keys, pool.free;
      var v := vmas.entries[i];
      ghost var es' := es[i := v.(pages := v.pages[idx := pa])];
      FillPage(es, i, p, pa);
      var done := pt.MapUserRange(p, pa, 1, ProtToFlags(v.prot));
      MapOnePage(view, pt.view, p, pa, ProtToFlags(v.prot), done);
      InstallKeeps(view, pt.view, es, i, p, pa);
      FillKeepsFrames(es, es', p, pa, tables, free, pt.mem.Keys, pool.free, pool.managed);
      vmas.entries[i] := v.(pages := v.pages[idx := pa]);
      assert vmas.Contents() == es';
    }

    /** vma_add for a new anonymous region. */
    method AddRegion(start: nat, end: nat, prot: bv32) returns (ok: bool)
      requires Valid() && RangeOk(start, end)
      modifies vmas`count, vmas.entries, vmas.heap
      ensures Valid()
      ensures !ok ==> vmas.Contents() == old(vmas.Contents())
      ensures ok ==> start % PAGE_SIZE == 0 && end % PAGE_SIZE == 0
                     && RangeAdded(old(vmas.Contents()), vmas.Contents(), start / PAGE_SIZE, end / PAGE_SIZE, prot,
                        VMA_ANONYMOUS_SHARED)
      ensures ok <==> start % PAGE_SIZE == 0 && end % PAGE_SIZE == 0 && old(vmas.count) < V.VMA_MAX_PER_TASK
                      && !V.Overlapped(old(vmas.Contents()), start, end) && !vmas.heap.refuses(old(vmas.heap.calls))
    {
      ghost var es := vmas.Contents();
      var i := vmas.Add(start, end, prot, VMA_ANONYMOUS_SHARED);
      ok := i >= 0;
      if ok {
        ghost var v := NewVma(start, end, prot, VMA_ANONYMOUS_SHARED);
        AddKeeps(pt.view, es, i, v, pt.mem.Keys, pool.free, pool.managed);
        AddIsRangeAdded(es, i, v);
      }
    }

    /** sys_mmap. A failure changes nothing. Success maps whole pages that were free, with no
        frame behind them yet: at `addr` when fixed, else at the lowest free range. */
    method Mmap(addr: u64, length: u64, prot: u64, flags: MapFlags, noFd: bool, offset: u64) returns (r: MmResult)
      requires Valid()
      modifies vmas`count, vmas.entries, vmas.heap
      ensures Valid()
      ensures r.Failed? ==> vmas.Contents() == old(vmas.Contents())
      ensures r.Done? ==> MmapArgsOk(length, prot, flags, noFd, offset)
                          && var len := if flags.fixed then length else PageAlignUp(length);
                             RangeOk(r.value, r.value + len)
                             && RangeAdded(old(vmas.Contents()), vmas.Contents(), r.value / PAGE_SIZE,
                                (r.value + len) / PAGE_SIZE,
                                           prot as bv32, VMA_ANONYMOUS_SHARED)
      ensures r.Done? && flags.fixed ==> r.value == addr
      ensures r.Done? && !flags.fixed ==> USER_MMAP_BASE <= r.value
                                          && NoneFreeBelow(old(vmas.Contents()), r.value, PageAlignUp(length))
      ensures MmapArgsOk(length, prot, flags, noFd, offset) && !flags.fixed && length <= USER_VA_TOP ==>
                (r.Done? <==> AnyFree(old(vmas.Contents()), PageAlignUp(length)) && old(vmas.count) < V.VMA_MAX_PER_TASK
                              && !vmas.heap.refuses(old(vmas.heap.calls)))
      ensures MmapArgsOk(length, prot, flags, noFd, offset) && flags.fixed ==>
                (r.Done? <==> FixedFits(old(vmas.Contents()), addr, length) && old(vmas.count) < V.VMA_MAX_PER_TASK
                              && !vmas.heap.refuses(old(vmas.heap.calls)))
      ensures r.Failed? ==> r.errno == if prot <= 7 && (flags.shared || !flags.anonymous) then EOPNOTSUPP
                                       else if MmapArgsOk(length, prot, flags, noFd, offset)
                                               && !(flags.fixed && BadRange(old(vmas.Contents()), addr, length))
                                       then ENOMEM else EINVAL
    {
      if prot > 7 {
        return Failed(EINVAL);
      }
      if flags.shared || !flags.anonymous {
        return Failed(EOPNOTSUPP);
      }
      if offset != 0 || !noFd || length == 0 {
        return Failed(EINVAL);
      }
      if flags.fixed {
        r := MmapFixed(addr, length, prot as bv32);
      } else {
        r := MmapAnywhere(length, prot as bv32);
      }
    }

    method MmapFixed(addr: u64, length: u64, prot: bv32) returns (r: MmResult)
      requires Valid() && length > 0
      modifies vmas`count, vmas.entries, vmas.heap
      ensures Valid()
      ensures r.Failed? ==> vmas.Contents() == old(vmas.Contents())
      ensures r.Done? ==> r.value == addr && RangeOk(addr, addr + length)
                          && RangeAdded(old(vmas.Contents()), vmas.Contents(), addr / PAGE_SIZE,
                             (addr + length) / PAGE_SIZE, prot, VMA_ANONYMOUS_SHARED)
      ensures r.Done? <==> FixedFits(old(vmas.Contents()), addr, length) && old(vmas.count) < V.VMA_MAX_PER_TASK
                           && !vmas.heap.refuses(old(vmas.heap.calls))
      ensures r.Failed? ==> r.errno == if BadRange(old(vmas.Contents()), addr, length) then EINVAL else ENOMEM
    {
      if addr % PAGE_SIZE != 0 {
        return Failed(EINVAL);
      }
      var end := Sum64(addr, length);
      if !RangeOk(addr, end) {
        return Failed(EINVAL);
      }
      var hit := vmas.FindOverlap(addr, end);
      if hit >= 0 {
        return Failed(EINVAL);
      }
      var ok := AddRegion(addr, end, prot);
      r := if ok then Done(addr) else Failed(ENOMEM);
    }

    method MmapAnywhere(length: u64, prot: bv32) returns (r: MmResult)
      requires Valid() && length > 0
      modifies vmas`count, vmas.entries, vmas.heap
      ensures Valid()
      ensures r.Failed? ==> vmas.Contents() == old(vmas.Contents())
      ensures r.Done? ==> USER_MMAP_BASE <= r.value && RangeOk(r.value, r.value + PageAlignUp(length))
                          && NoneFreeBelow(old(vmas.Contents()), r.value, PageAlignUp(length))
                          && RangeAdded(old(vmas.Contents()), vmas.Contents(), r.value / PAGE_SIZE,
                                        (r.value + PageAlignUp(length)) / PAGE_SIZE, prot, VMA_ANONYMOUS_SHARED)
      ensures length <= USER_VA_TOP ==>
                (r.Done? <==> AnyFree(old(vmas.Contents()), PageAlignUp(length)) && old(vmas.count) < V.VMA_MAX_PER_TASK
                              && !vmas.heap.refuses(old(vmas.heap.calls)))
      ensures r.Failed? ==> r.errno == ENOMEM
    {
      var found, start := PickRange(vmas, length);
      if !found {
        return Failed(ENOMEM);
      }
      var ok := AddRegion(start, start + PageAlignUp(length), prot);
      r := if ok then Done(start) else Failed(ENOMEM);
    }

    /** sys_munmap. A failure changes no page, no leaf and no frame. Success removes exactly the
        whole pages from addr to the last byte's page: records, leaves and frames alike. */
    method Munmap(addr: u64, length: u64) returns (r: MmResult)
      requires Valid()
      modifies vmas`count, vmas.entries, vmas.heap, pool, pt
      ensures Valid() && (r.Done? ==> r.value == 0)
      ensures r.Failed? || addr == 0 ==> Equivalent(old(vmas.Contents()), vmas.Contents()) && unchanged(pool)
                                         && unchanged(pt)
      ensures r.Done? && addr != 0 ==>
                && RangeArgsOk(addr, length)
                && RangeGone(old(vmas.Contents()), vmas.Contents(), addr / PAGE_SIZE, LastPage(addr, length))
                && RangeUpdated(old(pt.view), pt.view, addr / PAGE_SIZE, LastPage(addr, length) - addr / PAGE_SIZE,
                   UnmapRule())
                && RangeFreed(old(pool.free), pool.free, pool.managed, old(vmas.Contents()), addr / PAGE_SIZE,
                   LastPage(addr, length))
      ensures NeverRefuses(vmas.heap.refuses, old(vmas.heap.calls)) && addr != 0 ==>
                (r.Done? <==> RangeArgsOk(addr, length)
                              && old(vmas.count) + CutsNeeded(old(vmas.Contents()), addr,
                                 LastPage(addr, length) * PAGE_SIZE) <= V.VMA_MAX_PER_TASK)
      ensures r.Failed? ==> r.errno == if RangeArgsOk(addr, length) then ENOMEM else EINVAL
    {
      if addr % PAGE_SIZE != 0 || length == 0 {
        return Failed(EINVAL);
      }
      if addr == 0 {
        return Done(0);
      }
      if length > USER_VA_TOP || addr > USER_VA_TOP - length {
        return Failed(EINVAL);
      }
      var end := PageAlignDown(addr + length - 1) + PAGE_SIZE;
      PageRounding(addr, length);
      if end > USER_VA_TOP {
        return Failed(EINVAL);
      }
      var ok := DropRange(addr, end);
      r := if ok then Done(0) else Failed(ENOMEM);
    }

    /** Records and frames first, then the leaves. */
    method DropRange(start: nat, end: nat) returns (ok: bool)
      requires Valid() && RangeOk(start, end) && start % PAGE_SIZE == 0 && end % PAGE_SIZE == 0
      modifies vmas`count, vmas.entries, vmas.heap, pool, pt
      ensures Valid()
      ensures !ok ==> Equivalent(old(vmas.Contents()), vmas.Contents()) && unchanged(pool) && unchanged(pt)
      ensures ok ==>
                && RangeGone(old(vmas.Contents()), vmas.Contents(), start / PAGE_SIZE, end / PAGE_SIZE)
                && RangeUpdated(old(pt.view), pt.view, start / PAGE_SIZE, end / PAGE_SIZE - start / PAGE_SIZE,
                   UnmapRule())
                && RangeFreed(old(pool.free), pool.free, pool.managed, old(vmas.Contents()), start / PAGE_SIZE,
                   end / PAGE_SIZE)
      ensures NeverRefuses(vmas.heap.refuses, old(vmas.heap.calls)) ==>
                (ok <==> old(vmas.count) + CutsNeeded(old(vmas.Contents()), start, end) <= V.VMA_MAX_PER_TASK)
    {
      ghost var es, free, view, tables := vmas.Contents(), pool.free, pt.view, pt.mem.Keys;
      ghost var from, to := start / PAGE_SIZE, end / PAGE_SIZE;
      var released := vmas.UnmapRange(start, end, pool);
      ok := released >= 0;
      if !ok {
        EquivalentKeeps(view, es, vmas.Contents(), tables, free, pool.managed);
        return;
      }
      UnmapSparesTables(es, from, to, tables, free, pool.free, pool.managed);
      pt.UnmapUserRange(start / PAGE_SIZE, (end - start) / PAGE_SIZE);
      UnmapKeeps(view, pt.view, es, vmas.Contents(), from, to - from);
      UnmapKeepsFrames(es, vmas.Contents(), from, to, tables, free, pool.free, pool.managed);
    }

    /** sys_mprotect, the same shape: new protection in the records, then in the live leaves. */
    method Mprotect(addr: u64, length: u64, prot: u64) returns (r: MmResult)
      requires Valid()
      modifies vmas`count, vmas.entries, vmas.heap, pool, pt
      ensures Valid() && unchanged(pool) && (r.Done? ==> r.value == 0)
      ensures r.Failed? || addr == 0 ==> Equivalent(old(vmas.Contents()), vmas.Contents()) && unchanged(pt)
      ensures r.Done? && addr != 0 ==>
                && RangeArgsOk(addr, length) && prot <= 7
                && RangeProtected(old(vmas.Contents()), vmas.Contents(), addr / PAGE_SIZE, LastPage(addr, length),
                   prot as bv32)
                && RangeUpdated(old(pt.view), pt.view, addr / PAGE_SIZE, LastPage(addr, length) - addr / PAGE_SIZE,
                   ProtectRule(ProtToFlags(prot as bv32)))
      ensures NeverRefuses(vmas.heap.refuses, old(vmas.heap.calls)) && addr != 0 ==>
                (r.Done? <==> prot <= 7 && RangeArgsOk(addr, length)
                              && old(vmas.count) + CutsNeeded(old(vmas.Contents()), addr,
                                 LastPage(addr, length) * PAGE_SIZE) <= V.VMA_MAX_PER_TASK)
      ensures r.Failed? ==> r.errno == if prot <= 7 && RangeArgsOk(addr, length) then ENOMEM else EINVAL
    {
      if addr % PAGE_SIZE != 0 || length == 0 || prot > 7 {
        return Failed(EINVAL);
      }
      if addr == 0 {
        return Done(0);
      }
      if length > USER_VA_TOP || addr > USER_VA_TOP - length {
        return Failed(EINVAL);
      }
      var end := PageAlignDown(addr + length - 1) + PAGE_SIZE;
      PageRounding(addr, length);
      if end > USER_VA_TOP {
        return Failed(EINVAL);
      }
      var ok := ReprotectRange(addr, end, prot as bv32);
      r := if ok then Done(0) else Failed(ENOMEM);
    }

    method ReprotectRange(start: nat, end: nat, prot: bv32) returns (ok: bool)
      requires Valid() && RangeOk(start, end) && start % PAGE_SIZE == 0 && end % PAGE_SIZE == 0
      modifies vmas`count, vmas.entries, vmas.heap, pool, pt
      ensures Valid() && unchanged(pool)
      ensures !ok ==> Equivalent(old(vmas.Contents()), vmas.Contents()) && unchanged(pt)
      ensures ok ==>
                && RangeProtected(old(vmas.Contents()), vmas.Contents(), start / PAGE_SIZE, end / PAGE_SIZE, prot)
                && RangeUpdated(old(pt.view), pt.view, start / PAGE_SIZE, end / PAGE_SIZE - start / PAGE_SIZE,
                   ProtectRule(ProtToFlags(prot)))
      ensures NeverRefuses(vmas.heap.refuses, old(vmas.heap.calls)) ==>
                (ok <==> old(vmas.count) + CutsNeeded(old(vmas.Contents()), start, end) <= V.VMA_MAX_PER_TASK)
    {
      ghost var es, view, tables := vmas.Contents(), pt.view, pt.mem.Keys;
      ghost var from, to := start / PAGE_SIZE, end / PAGE_SIZE;
      var touched := vmas.ProtectRange(start, end, prot);
      ok := touched >= 0;
      if !ok {
        EquivalentKeeps(view, es, vmas.Contents(), tables, pool.free, pool.managed);
        return;
      }
      var _ := pt.ProtectUserRange(start / PAGE_SIZE, (end - start) / PAGE_SIZE, ProtToFlags(prot));
      ProtectKeeps(view, pt.view, es, vmas.Contents(), from, to - from, prot);
      ProtectKeepsFrames(es, vmas.Contents(), from, to, prot, tables, pool.free, pool.managed);
    }

    /** sched_try_grow_stack: one fresh page in the growth zone, which lies below the mmap base. */
    method GrowStack(far: u64) returns (ok: bool)
      requires Valid()
      modifies `grown, pool, pt
      ensures Valid()
      ensures ok <==> STACK_MAX_LO <= far < STACK_INITIAL_LO && |old(grown)| < STACK_GROWN_MAX && old(pool.free) != {}
      ensures !ok ==> grown == old(grown) && unchanged(pool) && unchanged(pt)
      ensures ok ==> exists f :: f in old(pool.free) && grown == old(grown) + [StackPage(f, far / PAGE_SIZE)]
                                 && StackMapped(old(pt.view), pt.view, far / PAGE_SIZE, f, pool.free)
      ensures ok && pt.view != old(pt.view) ==> ReadWriteOnly(pt.view[far / PAGE_SIZE])
    {
      if far < STACK_MAX_LO || far >= STACK_INITIAL_LO || |grown| >= STACK_GROWN_MAX {
        return false;
      }
      ghost var es, view := vmas.Contents(), pt.view;
      var pa := pool.Allocate();
      if pa == NULL {
        return false;
      }
      ok := true;
      AllocationKeeps(es, pt.mem.Keys, old(pool.free), pool.free, pool.managed, pa);
      ghost var free, tables := pool.free, pt.mem.Keys;
      var done := pt.MapUserRange(far / PAGE_SIZE, pa, 1, STACK_FLAGS);
      LowMapKeeps(view, pt.view, es, far / PAGE_SIZE, done, MapRule(far / PAGE_SIZE, pa, STACK_FLAGS));
      TablesKeep(es, tables, free, pt.mem.Keys, pool.free, pool.managed);
      grown := grown + [StackPage(pa, far / PAGE_SIZE)];
      MapOnePage(view, pt.view, far / PAGE_SIZE, pa, STACK_FLAGS, done);
      StackRights(pa);
      assert StackMapped(view, pt.view, far / PAGE_SIZE, pa, pool.free);
    }
  }

  /** The page got its leaf, unless its tables could not be allocated. */
  ghost predicate StackMapped(view: View, view': View, p: nat, f: Frame, free: set<Frame>) {
    p < VPN_LIMIT && (view' == view[p := LeafDescriptor(f, STACK_FLAGS)] || (view' == view && free == {}))
  }

  /** EL0 may read and write through the leaf, and nobody may execute. */
  ghost predicate ReadWriteOnly(d: Descriptor) {
    UserMayRead(d) && UserMayWrite(d) && !UserMayExec(d) && !KernelMayExec(d)
  }

  lemma StackRights(f: Frame)
    ensures ReadWriteOnly(LeafDescriptor(f, STACK_FLAGS))
  {
  }

  /** The growth zone holds exactly as many pages as may be grown. */
  lemma StackZone()
    ensures STACK_INITIAL_LO - STACK_MAX_LO == STACK_GROWN_MAX * PAGE_SIZE
    ensures STACK_INITIAL_LO + 4 * PAGE_SIZE == 0x80_0000
  {
  }

  /** The ranges a fixed mapping is refused for at once. */
  ghost predicate BadRange(es: seq<V.Vma>, addr: u64, length: u64) {
    addr % PAGE_SIZE != 0 || !RangeOk(addr, addr + length) || V.Overlapped(es, addr, addr + length)
  }

  /** A fixed mapping wants whole pages in the mmap range that no region meets. */
  ghost predicate FixedFits(es: seq<V.Vma>, addr: u64, length: u64) {
    addr % PAGE_SIZE == 0 && length % PAGE_SIZE == 0 && RangeOk(addr, addr + length)
      && !V.Overlapped(es, addr, addr + length)
  }

  // ---- every run ----

  datatype Call =
    | CallMmap(addr: u64, length: u64, prot: u64, flags: MapFlags, noFd: bool, offset: u64)
    | CallMunmap(addr: u64, length: u64)
    | CallMprotect(addr: u64, length: u64, prot: u64)
    | CallFault(far: u64, isWrite: bool, isExec: bool)
    | CallStack(far: u64)

  /** What a call answers: whether it did anything, and the address mmap returns. */
  datatype Reply = Reply(ok: bool, value: nat)

  /** Records, leaves, free frames and grown stack pages between two calls, and how often kmalloc was asked. */
  datatype Space = Space(es: seq<V.Vma>, view: View, free: set<Frame>, grown: seq<StackPage>, asked: nat)

  ghost function Now(t: Task): Space
    requires t.vmas.Valid()
    reads t, t.pool, t.vmas, t.vmas.entries, t.vmas.heap, t.pt
  {
    Space(t.vmas.Contents(), t.pt.view, t.pool.free, t.grown, t.vmas.heap.calls)
  }

  /** mmap maps exactly the pages asked for, where a fixed one wants them or at the lowest free place, and
      does so exactly when they fit, the list has room and kmalloc grants the array. */
  ghost predicate MmapDid(was: Space, now: Space, c: Call, r: Reply, refuses: nat -> bool)
    requires c.CallMmap?
  {
    && now.view == was.view && now.free == was.free && now.grown == was.grown
    && (!r.ok ==> now.es == was.es)
    && (r.ok ==> MmapArgsOk(c.length, c.prot, c.flags, c.noFd, c.offset)
                 && var len := if c.flags.fixed then c.length else PageAlignUp(c.length);
                    && RangeOk(r.value, r.value + len)
                    && RangeAdded(was.es, now.es, r.value / PAGE_SIZE, (r.value + len) / PAGE_SIZE, c.prot as bv32,
                                  VMA_ANONYMOUS_SHARED)
                    && (if c.flags.fixed then r.value == c.addr
                        else USER_MMAP_BASE <= r.value && NoneFreeBelow(was.es, r.value, len)))
    && (MmapArgsOk(c.length, c.prot, c.flags, c.noFd, c.offset) && (c.flags.fixed || c.length <= USER_VA_TOP) ==>
          (r.ok <==> |was.es| < V.VMA_MAX_PER_TASK && !refuses(was.asked)
                     && if c.flags.fixed then FixedFits(was.es, c.addr, c.length)
                        else AnyFree(was.es, PageAlignUp(c.length))))
  }

  /** munmap and mprotect rewrite the records and the leaves of exactly the whole pages, or no page. */
  ghost predicate MunmapDid(was: Space, now: Space, addr: u64, length: u64, r: Reply, refuses: nat -> bool,
                            managed: set<Frame>) {
    && now.grown == was.grown
    && (!r.ok || addr == 0 ==> Equivalent(was.es, now.es) && now.view == was.view && now.free == was.free)
    && (r.ok && addr != 0 ==>
          && RangeArgsOk(addr, length) && RangeGone(was.es, now.es, addr / PAGE_SIZE, LastPage(addr, length))
          && RangeUpdated(was.view, now.view, addr / PAGE_SIZE, LastPage(addr, length) - addr / PAGE_SIZE, UnmapRule())
          && RangeFreed(was.free, now.free, managed, was.es, addr / PAGE_SIZE, LastPage(addr, length)))
    && (NeverRefuses(refuses, was.asked) && addr != 0 ==>
          (r.ok <==> RangeArgsOk(addr, length) && HasRoom(was.es, addr, length)))
  }

  ghost predicate MprotectDid(was: Space, now: Space, addr: u64, length: u64, prot: u64, r: Reply,
                              refuses: nat -> bool) {
    && now.grown == was.grown && now.free == was.free
    && (!r.ok || addr == 0 ==> Equivalent(was.es, now.es) && now.view == was.view)
    && (r.ok && addr != 0 ==>
          && prot <= 7 && RangeArgsOk(addr, length)
          && RangeProtected(was.es, now.es, addr / PAGE_SIZE, LastPage(addr, length), prot as bv32)
          && RangeUpdated(was.view, now.view, addr / PAGE_SIZE, LastPage(addr, length) - addr / PAGE_SIZE,
                          ProtectRule(ProtToFlags(prot as bv32))))
    && (NeverRefuses(refuses, was.asked) && addr != 0 ==>
          (r.ok <==> prot <= 7 && RangeArgsOk(addr, length) && HasRoom(was.es, addr, length)))
  }

  /** The list has room for the cuts at both ends of the range. */
  ghost predicate HasRoom(es: seq<V.Vma>, addr: u64, length: u64)
    requires length > 0
  {
    |es| + CutsNeeded(es, addr, LastPage(addr, length) * PAGE_SIZE) <= V.VMA_MAX_PER_TASK
  }

  /** A fault fills exactly its page, a stack fault adds exactly one page. */
  ghost predicate FaultDid(was: Space, now: Space, far: u64, isWrite: bool, isExec: bool, r: Reply) {
    && V.ListOk(was.es) && now.grown == was.grown
    && (r.ok <==> Faultable(V.View(was.es, far / PAGE_SIZE), isWrite, isExec) && was.free != {})
    && (!r.ok ==> now == was)
    && (r.ok ==> exists f :: f in was.free && Filled(was, now, far / PAGE_SIZE, f))
  }

  ghost predicate Filled(was: Space, now: Space, p: nat, f: Frame) {
    && PageFilled(was.es, now.es, p, f) && p < VPN_LIMIT
    && (now.view == was.view[p := LeafDescriptor(f, ProtToFlags(V.View(was.es, p).value.prot))]
        || (now.view == was.view && now.free == {}))
  }

  ghost predicate StackDid(was: Space, now: Space, far: u64, r: Reply) {
    && now.es == was.es
    && (r.ok <==> STACK_MAX_LO <= far < STACK_INITIAL_LO && |was.grown| < STACK_GROWN_MAX && was.free != {})
    && (!r.ok ==> now == was)
    && (r.ok ==> exists f :: f in was.free && now.grown == was.grown + [StackPage(f, far / PAGE_SIZE)]
                             && StackMapped(was.view, now.view, far / PAGE_SIZE, f, now.free))
  }

  ghost predicate Did(was: Space, now: Space, c: Call, r: Reply, refuses: nat -> bool, managed: set<Frame>) {
    match c
    case CallMmap(_, _, _, _, _, _) => MmapDid(was, now, c, r, refuses)
    case CallMunmap(addr, length) => MunmapDid(was, now, addr, length, r, refuses, managed)
    case CallMprotect(addr, length, prot) => MprotectDid(was, now, addr, length, prot, r, refuses)
    case CallFault(far, isWrite, isExec) => FaultDid(was, now, far, isWrite, isExec, r)
    case CallStack(far) => StackDid(was, now, far, r)
  }

  method Step(t: Task, call: Call) returns (r: Reply)
    requires t.Valid()
    modifies t`grown, t.vmas`count, t.vmas.entries, t.vmas.heap, t.pool, t.pt
    ensures t.Valid() && Did(old(Now(t)), Now(t), call, r, t.vmas.heap.refuses, t.pool.managed)
  {
    match call {
      case CallMmap(_, _, _, _, _, _) => r := StepMmap(t, call);
      case CallMunmap(addr, length) => r := StepMunmap(t, addr, length);
      case CallMprotect(addr, length, prot) => r := StepMprotect(t, addr, length, prot);
      case CallFault(far, isWrite, isExec) => r := StepFault(t, far, isWrite, isExec);
      case CallStack(far) => r := StepStack(t, far);
    }
  }

  method StepMmap(t: Task, call: Call) returns (r: Reply)
    requires t.Valid() && call.CallMmap?
    modifies t.vmas`count, t.vmas.entries, t.vmas.heap
    ensures t.Valid() && MmapDid(old(Now(t)), Now(t), call, r, t.vmas.heap.refuses)
  {
    var m := t.Mmap(call.addr, call.length, call.prot, call.flags, call.noFd, call.offset);
    r := ReplyOf(m);
  }

  method StepMunmap(t: Task, addr: u64, length: u64) returns (r: Reply)
    requires t.Valid()
    modifies t.vmas`count, t.vmas.entries, t.vmas.heap, t.pool, t.pt
    ensures t.Valid() && MunmapDid(old(Now(t)), Now(t), addr, length, r, t.vmas.heap.refuses, t.pool.managed)
  {
    var m := t.Munmap(addr, length);
    r := ReplyOf(m);
  }

  method StepMprotect(t: Task, addr: u64, length: u64, prot: u64) returns (r: Reply)
    requires t.Valid()
    modifies t.vmas`count, t.vmas.entries, t.vmas.heap, t.pool, t.pt
    ensures t.Valid() && MprotectDid(old(Now(t)), Now(t), addr, length, prot, r, t.vmas.heap.refuses)
  {
    var m := t.Mprotect(addr, length, prot);
    r := ReplyOf(m);
  }

  method StepFault(t: Task, far: u64, isWrite: bool, isExec: bool) returns (r: Reply)
    requires t.Valid()
    modifies t.pool, t.vmas.entries, t.pt
    ensures t.Valid() && FaultDid(old(Now(t)), Now(t), far, isWrite, isExec, r)
  {
    var ok, f := t.Fault(far, isWrite, isExec);
    r := Reply(ok, 0);
    assert ok ==> Filled(old(Now(t)), Now(t), far / PAGE_SIZE, f);
  }

  method StepStack(t: Task, far: u64) returns (r: Reply)
    requires t.Valid()
    modifies t`grown, t.pool, t.pt
    ensures t.Valid() && StackDid(old(Now(t)), Now(t), far, r)
  {
    var ok := t.GrowStack(far);
    r := Reply(ok, 0);
  }

  function ReplyOf(m: MmResult): Reply {
    if m.Done? then Reply(true, m.value) else Reply(false, m.errno)
  }

  /** Each call in turn did what it is for. */
  ghost predicate History(ss: seq<Space>, calls: seq<Call>, rs: seq<Reply>, refuses: nat -> bool, managed: set<Frame>) {
    && |ss| == |calls| + 1 && |rs| == |calls|
    && forall i | 0 <= i < |calls| :: Did(ss[i], ss[i + 1], calls[i], rs[i], refuses, managed)
  }

  lemma HistoryOn(ss: seq<Space>, calls: seq<Call>, rs: seq<Reply>, refuses: nat -> bool, managed: set<Frame>, i: nat)
    requires i < |calls| && |ss| == i + 2 && |rs| == i + 1 && Did(ss[i], ss[i + 1], calls[i], rs[i], refuses, managed)
    requires History(ss[..i + 1], calls[..i], rs[..i], refuses, managed)
    ensures History(ss, calls[..i + 1], rs, refuses, managed)
  {
    forall k | 0 <= k < i + 1
      ensures Did(ss[k], ss[k + 1], calls[..i + 1][k], rs[k], refuses, managed)
    {
      if k < i {
        assert Did(ss[..i + 1][k], ss[..i + 1][k + 1], calls[..i][k], rs[..i][k], refuses, managed);
      }
    }
  }

  /** From an empty user space, after any calls in any order, with any kmalloc failures and any
      amount of memory: every live leaf above the mmap base grants exactly what the region's
      protection grants, reaches an allocated frame that is no page table, and no two pages
      reach the same frame. */
  method RunAddressSpace(pool: FramePool, heap: KernelHeap, root: Frame, calls: seq<Call>)
    returns (t: Task, rs: seq<Reply>, ghost ss: seq<Space>)
    requires pool.Valid() && root in pool.managed && root !in pool.free
    modifies pool, heap
    ensures t.Valid() && t.pool == pool && fresh(t)
    ensures History(ss, calls, rs, heap.refuses, pool.managed) && ss[|calls|] == Now(t)
    ensures ss[0] == Space([], EmptyView(), old(pool.free), [], old(heap.calls))
    ensures forall p: nat, q: nat | MMAP_PAGE <= p < VPN_LIMIT && PteValid(t.pt.view[p]) && MMAP_PAGE <= q < VPN_LIMIT
            && PteValid(t.pt.view[q]) ::
              && NextTable(t.pt.view[p]) in pool.managed - pool.free - t.pt.mem.Keys
              && (NextTable(t.pt.view[p]) == NextTable(t.pt.view[q]) ==> p == q)
    ensures forall p: nat | MMAP_PAGE <= p < VPN_LIMIT && PteValid(t.pt.view[p]) ::
              && V.View(t.vmas.Contents(), p).Some?
              && (UserMayWrite(t.pt.view[p]) <==> V.View(t.vmas.Contents(), p).value.prot & PROT_WRITE != 0)
              && (UserMayExec(t.pt.view[p]) <==> V.View(t.vmas.Contents(), p).value.prot & PROT_EXEC != 0)
              && (UserMayRead(t.pt.view[p]) <==>
                    V.View(t.vmas.Contents(), p).value.prot & (PROT_READ | PROT_WRITE) != 0)
  {
    t := new Task(pool, heap, root);
    rs, ss := RunCalls(t, calls);
    ghost var view, es := t.pt.view, t.vmas.Contents();
    forall p: nat, q: nat | MMAP_PAGE <= p < VPN_LIMIT && PteValid(view[p]) && MMAP_PAGE <= q < VPN_LIMIT
      && PteValid(view[q])
      ensures NextTable(view[p]) in pool.managed - pool.free - t.pt.mem.Keys
      ensures NextTable(view[p]) == NextTable(view[q]) ==> p == q
    {
      ReachableFrames(view, es, t.pt.mem.Keys, pool.free, pool.managed, p, q);
    }
    forall p: nat | MMAP_PAGE <= p < VPN_LIMIT && PteValid(view[p])
      ensures V.View(es, p).Some? && (UserMayWrite(view[p]) <==> V.View(es, p).value.prot & PROT_WRITE != 0)
      ensures UserMayExec(view[p]) <==> V.View(es, p).value.prot & PROT_EXEC != 0
      ensures UserMayRead(view[p]) <==> V.View(es, p).value.prot & (PROT_READ | PROT_WRITE) != 0
    {
      AccessNeedsProt(view, es, t.pt.mem.Keys, pool.free, pool.managed, p);
    }
  }

  method RunCalls(t: Task, calls: seq<Call>) returns (rs: seq<Reply>, ghost ss: seq<Space>)
    requires t.Valid()
    modifies t`grown, t.vmas`count, t.vmas.entries, t.vmas.heap, t.pool, t.pt
    ensures t.Valid() && History(ss, calls, rs, t.vmas.heap.refuses, t.pool.managed)
    ensures ss[0] == old(Now(t)) && ss[|calls|] == Now(t)
  {
    rs, ss := [], [Now(t)];
    for i := 0 to |calls|
      invariant t.Valid() && |rs| == i && History(ss, calls[..i], rs, t.vmas.heap.refuses, t.pool.managed)
      invariant ss[0] == old(Now(t)) && ss[i] == Now(t)
    {
      var r := Step(t, calls[i]);
      rs, ss := rs + [r], ss + [Now(t)];
      HistoryOn(ss, calls, rs, t.vmas.heap.refuses, t.pool.managed, i);
    }
    assert calls[..|calls|] == calls;
  }

  /** One past the page of the last byte of [addr, addr + length). */
  function LastPage(addr: nat, length: nat): nat
    requires addr + length > 0
  {
    (addr + length - 1) / PAGE_SIZE + 1
  }

  predicate RangeArgsOk(addr: u64, length: u64) {
    addr % PAGE_SIZE == 0 && length > 0 && addr + length <= USER_VA_TOP
  }

  lemma PageRounding(addr: nat, length: nat)
    requires length > 0 && addr % PAGE_SIZE == 0
    ensures PageAlignDown(addr + length - 1) + PAGE_SIZE == LastPage(addr, length) * PAGE_SIZE
    ensures (LastPage(addr, length) * PAGE_SIZE) / PAGE_SIZE == LastPage(addr, length) > addr / PAGE_SIZE
    ensures addr + length <= USER_VA_TOP ==> LastPage(addr, length) * PAGE_SIZE <= USER_VA_TOP
    ensures addr < LastPage(addr, length) * PAGE_SIZE
  {
  }

  /** The rounding, search and range check of sys_mmap without MAP_FIXED. A length whose rounding
      or whose end would wrap is refused. */
  method PickRange(vmas: VmaSet, length: u64) returns (found: bool, start: nat)
    requires vmas.Valid() && BelowTop(vmas.Contents()) && length > 0
    ensures found <==> length <= USER_VA_TOP && AnyFree(vmas.Contents(), PageAlignUp(length))
    ensures found ==> USER_MMAP_BASE <= start && start % PAGE_SIZE == 0 && RangeOk(start, start + PageAlignUp(length))
                      && FreeRange(vmas.Contents(), start, PageAlignUp(length))
                      && NoneFreeBelow(vmas.Contents(), start, PageAlignUp(length))
  {
    var want := PageAlignDown(Sum64(length, PAGE_SIZE - 1));
    if want < length {
      WrappedRounding(length);
      return false, 0;
    }
    RoundingIsExact(length);
    start := FindFree(vmas, want);
    found := start != 0 && RangeOk(start, Sum64(start, want));
  }

  lemma WrappedRounding(length: u64)
    requires PageAlignDown(Sum64(length, PAGE_SIZE - 1)) < length
    ensures length > USER_VA_TOP
  {
  }

  lemma RoundingIsExact(length: u64)
    requires length > 0 && PageAlignDown(Sum64(length, PAGE_SIZE - 1)) >= length
    ensures PageAlignDown(Sum64(length, PAGE_SIZE - 1)) == PageAlignUp(length)
    ensures PageAlignUp(length) % PAGE_SIZE == 0 && PageAlignUp(length) > 0
    ensures PageAlignUp(length) <= USER_VA_TOP <==> length <= USER_VA_TOP
  {
  }

  predicate MmapArgsOk(length: u64, prot: u64, flags: MapFlags, noFd: bool, offset: u64) {
    prot <= 7 && !flags.shared && flags.anonymous && offset == 0 && noFd && length > 0
  }

  ghost predicate AnyFree(es: seq<V.Vma>, len: nat) {
    exists c: nat :: USER_MMAP_BASE <= c && c % PAGE_SIZE == 0 && FreeRange(es, c, len)
  }

  /** [c, c + len) is below the ceiling and meets no region. */
  ghost predicate FreeRange(es: seq<V.Vma>, c: nat, len: nat) {
    c + len <= USER_VA_TOP && !V.Overlapped(es, c, c + len)
  }

  ghost predicate NoneFreeBelow(es: seq<V.Vma>, bound: nat, len: nat) {
    forall c: nat {:trigger FreeRange(es, c, len)} |
      USER_MMAP_BASE <= c < bound && c % PAGE_SIZE == 0 :: !FreeRange(es, c, len)
  }

  /** Every candidate up to the end of the blocking region meets that region. */
  lemma SkipRegion(es: seq<V.Vma>, hit: nat, candidate: nat, len: nat)
    requires hit < |es| && V.Meets(es[hit], candidate, candidate + len) && NoneFreeBelow(es, candidate, len)
    ensures NoneFreeBelow(es, es[hit].end, len)
  {
    forall c: nat | USER_MMAP_BASE <= c < es[hit].end && c % PAGE_SIZE == 0
      ensures !FreeRange(es, c, len)
    {
      if c >= candidate {
        assert V.Meets(es[hit], c, c + len);
      }
    }
  }

  /** mmap_find_free: the lowest page-aligned candidate at or above the mmap base whose range
      meets no region and ends below the ceiling, or 0. The sum is a 64-bit sum; for lengths
      that cannot wrap the answer is exact both ways. */
  method FindFree(vmas: VmaSet, len: u64) returns (r: nat)
    requires vmas.Valid() && BelowTop(vmas.Contents()) && len % PAGE_SIZE == 0
    ensures r != 0 ==> USER_MMAP_BASE <= r <= USER_VA_TOP && r % PAGE_SIZE == 0
    ensures r != 0 && len <= USER_VA_TOP ==> FreeRange(vmas.Contents(), r, len)
    ensures len <= USER_VA_TOP ==> forall c: nat {:trigger FreeRange(vmas.Contents(), c, len)} |
              USER_MMAP_BASE <= c && c % PAGE_SIZE == 0 && (r == 0 || c < r) :: !FreeRange(vmas.Contents(), c, len)
  {
    var candidate: u64 := USER_MMAP_BASE;
    while Sum64(candidate, len) <= USER_VA_TOP
      invariant USER_MMAP_BASE <= candidate <= USER_VA_TOP && candidate % PAGE_SIZE == 0
      invariant len <= USER_VA_TOP ==> NoneFreeBelow(vmas.Contents(), candidate, len)
      decreases USER_VA_TOP - candidate
    {
      var hit := vmas.FindOverlap(candidate, Sum64(candidate, len));
      if hit < 0 {
        return candidate;
      }
      RegionBelowTop(vmas.Contents(), hit);
      if len <= USER_VA_TOP {
        SkipRegion(vmas.Contents(), hit, candidate, len);
      }
      candidate := PageAlignUp(vmas.entries[hit].end);
    }
    r := 0;
  }

  /** Does the protection allow this access? */
  predicate Permits(prot: bv32, isWrite: bool, isExec: bool) {
    if isExec then prot & PROT_EXEC != 0
    else if isWrite then prot & PROT_WRITE != 0
    else prot & PROT_READ != 0
  }

  /** The hardware lets EL0 make this access through the leaf. */
  ghost predicate Grants(d: Descriptor, isWrite: bool, isExec: bool) {
    if isExec then UserMayExec(d) else if isWrite then UserMayWrite(d) else UserMayRead(d)
  }

  /** A fault is permitted if and only if the leaf it leads to grants the access, but for one case: a
      region that may be written and not read gives a readable leaf, and a load from it is refused. */
  lemma PermitsExactly(prot: bv32, isWrite: bool, isExec: bool, f: Frame)
    requires FrameOk(f)
    ensures Permits(prot, isWrite, isExec) <==>
            && Grants(LeafDescriptor(f, ProtToFlags(prot)), isWrite, isExec)
            && !(!isWrite && !isExec && prot & 0x3 == 0x2)
  {
    FreshMappingMeansProt(f, prot);
    WriteOnly(prot);
  }

  lemma WriteOnly(prot: bv32)
    ensures prot & 0x1 != 0 <==> prot & 0x3 != 0 && prot & 0x3 != 0x2
    ensures PROT_READ | PROT_WRITE == 0x3
  {
  }

  lemma PermittedIsGranted(prot: bv32, isWrite: bool, isExec: bool, f: Frame)
    requires Permits(prot, isWrite, isExec) && FrameOk(f)
    ensures Grants(LeafDescriptor(f, ProtToFlags(prot)), isWrite, isExec)
  {
    PermitsExactly(prot, isWrite, isExec, f);
  }

  ghost predicate Faultable(r: Option<V.PageRec>, isWrite: bool, isExec: bool) {
    r.Some? && Permits(r.value.prot, isWrite, isExec) && r.value.phys == NULL
  }
}
