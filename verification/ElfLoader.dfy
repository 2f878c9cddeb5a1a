/** elf_load (src/syscall/elf.c) over the page allocator, memory and a page table in place. */
module ElfLoader {
  import Descriptors
  import opened ElfFile
  import opened ElfImage
  import PageAllocator
  import opened PageBitmap
  import opened UserMaps

  datatype Image = Image(entry: nat, regions: seq<Region>, phdrVa: nat, phentsize: nat, phnum: nat)

  // ---- frames taken so far ----

  /** The frames a region record names. */
  function RunOf(r: Region, memStart: nat): Run {
    Run(if r.phys >= memStart then (r.phys - memStart) / PAGE_SIZE else 0, r.pages)
  }

  function RunsOf(regions: seq<Region>, memStart: nat): (runs: seq<Run>)
    ensures |runs| == |regions| && forall j | 0 <= j < |runs| :: runs[j] == RunOf(regions[j], memStart)
  {
    seq(|regions|, j requires 0 <= j < |regions| => RunOf(regions[j], memStart))
  }

  ghost predicate OnRun(r: Run, p: nat) {
    r.start <= p < r.start + r.count
  }

  ghost predicate Taken(runs: seq<Run>, from: nat, p: nat) {
    exists j :: from <= j < |runs| && OnRun(runs[j], p)
  }

  ghost predicate BitOk(before: seq<bool>, used: seq<bool>, runs: seq<Run>, from: nat, p: nat)
    requires p < |before| == |used|
  {
    (used[p] <==> before[p] || Taken(runs, from, p)) && (before[p] ==> !Taken(runs, 0, p))
  }

  /** No frame is on two runs. */
  ghost predicate RunsApart(runs: seq<Run>) {
    forall j, k, p {:trigger OnRun(runs[j], p), OnRun(runs[k], p)} | 0 <= j < |runs| && 0 <= k < |runs|
      && OnRun(runs[j], p) && OnRun(runs[k], p) :: j == k
  }

  /** The bitmap is the one before, plus the runs from `from` on, which were all free before. */
  ghost predicate Held(before: seq<bool>, used: seq<bool>, runs: seq<Run>, from: nat) {
    && |used| == |before| && RunsApart(runs)
    && (forall j | 0 <= j < |runs| :: runs[j].start + runs[j].count <= |before|)
    && (forall p {:trigger BitOk(before, used, runs, from, p)} | 0 <= p < |before| ::
       BitOk(before, used, runs, from, p))
  }

  lemma NothingHeld(before: seq<bool>)
    ensures Held(before, before, [], 0)
  {
  }

  lemma TakeRun(before: seq<bool>, used: seq<bool>, runs: seq<Run>, s: nat, count: nat)
    requires Held(before, used, runs, 0) && FreeRun(used, s, count)
    ensures Held(before, Mark(used, s, count, true), runs + [Run(s, count)], 0)
  {
    var used', runs' := Mark(used, s, count, true), runs + [Run(s, count)];
    forall p | 0 <= p < |before|
      ensures BitOk(before, used', runs', 0, p)
    {
      assert BitOk(before, used, runs, 0, p);
      MoreTaken(runs, Run(s, count), p);
    }
    forall j, k, p {:trigger OnRun(runs'[j], p), OnRun(runs'[k], p)} | 0 <= j < |runs'| && 0 <= k < |runs'|
      && OnRun(runs'[j], p) && OnRun(runs'[k], p)
      ensures j == k
    {
      FreshRun(before, used, runs, s, count, p);
    }
  }

  /** A free run meets none of those taken. */
  lemma FreshRun(before: seq<bool>, used: seq<bool>, runs: seq<Run>, s: nat, count: nat, p: nat)
    requires Held(before, used, runs, 0) && FreeRun(used, s, count)
    ensures s <= p < s + count ==> forall j | 0 <= j < |runs| :: !OnRun(runs[j], p)
  {
    if s <= p < s + count {
      assert BitOk(before, used, runs, 0, p);
    }
  }

  lemma MoreTaken(runs: seq<Run>, r: Run, p: nat)
    ensures Taken(runs + [r], 0, p) <==> Taken(runs, 0, p) || OnRun(r, p)
  {
    var runs' := runs + [r];
    if j :| 0 <= j < |runs| && OnRun(runs[j], p) {
      assert OnRun(runs'[j], p);
    }
    if OnRun(r, p) {
      assert OnRun(runs'[|runs|], p);
    }
  }

  lemma FreeRunOf(before: seq<bool>, used: seq<bool>, runs: seq<Run>, i: nat)
    requires Held(before, used, runs, i) && i < |runs|
    ensures Held(before, Mark(used, runs[i].start, runs[i].count, false), runs, i + 1)
  {
    var used' := Mark(used, runs[i].start, runs[i].count, false);
    var i' := i + 1;
    forall p | 0 <= p < |before|
      ensures BitOk(before, used', runs, i', p)
    {
      assert BitOk(before, used, runs, i, p);
      FewerTaken(runs, i, p);
    }
  }

  lemma FewerTaken(runs: seq<Run>, i: nat, p: nat)
    requires i < |runs| && RunsApart(runs)
    ensures Taken(runs, i + 1, p) <==> Taken(runs, i, p) && !OnRun(runs[i], p)
    ensures OnRun(runs[i], p) ==> Taken(runs, 0, p)
  {
    if j :| i <= j < |runs| && OnRun(runs[j], p) {
      assert j != i ==> Taken(runs, i + 1, p);
    }
  }

  lemma AllFreed(before: seq<bool>, used: seq<bool>, runs: seq<Run>)
    requires Held(before, used, runs, |runs|)
    ensures used == before
  {
    forall p | 0 <= p < |before|
      ensures used[p] == before[p]
    {
      assert BitOk(before, used, runs, |runs|, p);
    }
  }

  /** pmm_free_pages clears a run of allocatable pages. */
  lemma {:induction false} FreedClears(r: PageAllocator.Region, v: seq<bool>, s: nat, n: nat)
    requires r.start % PAGE_SIZE == 0 && r.end == r.start + |v| * PAGE_SIZE && (n > 0 ==> r.reserved <= s)
             && s + n <= |v|
    ensures PageAllocator.FreedPages(r, v, r.start + s * PAGE_SIZE, n) == Mark(v, s, n, false)
  {
    if n == 0 {
      assert Mark(v, s, 0, false) == v;
    } else {
      FreedClears(r, v, s, n - 1);
      MarkOneMore(v, s, n - 1, false);
    }
  }

  // ---- outcomes ----

  /** The leftmost run of n free frames from s on; |v| if there is none. */
  function LeftmostRun(v: seq<bool>, s: nat, n: nat): (r: nat)
    requires s <= |v|
    ensures s <= r <= |v| && (r < |v| ==> FreeRun(v, r, n)) && forall k | s <= k < r :: !FreeRun(v, k, n)
    decreases |v| - s
  {
    if s == |v| || FreeRun(v, s, n) then s else LeftmostRun(v, s + 1, n)
  }

  /** The bitmap once each segment in turn has taken the leftmost run that holds it. */
  function Placed(v: seq<bool>, loads: seq<Phdr>): (u: seq<bool>)
    ensures |u| == |v|
  {
    if loads == [] then v
    else
      var u, n := Placed(v, loads[..|loads| - 1]), Pages(loads[|loads| - 1]);
      if LeftmostRun(u, 0, n) < |u| then Mark(u, LeftmostRun(u, 0, n), n, true) else u
  }

  /** Each segment in turn finds a free run of its length. */
  predicate Room(v: seq<bool>, loads: seq<Phdr>) {
    loads == []
    || (var before, last := loads[..|loads| - 1], loads[|loads| - 1];
        Room(v, before) && LeftmostRun(Placed(v, before), 0, Pages(last)) < |v|)
  }

  /** The runs they take. */
  function RunsFor(v: seq<bool>, loads: seq<Phdr>): (runs: seq<Run>)
    ensures |runs| == |loads|
  {
    if loads == [] then []
    else
      var before, last := loads[..|loads| - 1], loads[|loads| - 1];
      RunsFor(v, before) + [Run(LeftmostRun(Placed(v, before), 0, Pages(last)), Pages(last))]
  }

  /** One segment takes the leftmost run that holds it. */
  ghost predicate Hop(u: seq<bool>, ph: Phdr, r: Run, u': seq<bool>) {
    && FreeRun(u, r.start, Pages(ph)) && r.count == Pages(ph) > 0
    && (forall k | 0 <= k < r.start :: !FreeRun(u, k, Pages(ph))) && u' == Mark(u, r.start, Pages(ph), true)
  }

  ghost predicate HopAt(us: seq<seq<bool>>, loads: seq<Phdr>, runs: seq<Run>, j: nat)
    requires j < |loads| == |runs| == |us| - 1
  {
    Hop(us[j], loads[j], runs[j], us[j + 1])
  }

  /** The bitmaps on the way from one segment to the next. */
  ghost predicate Journey(us: seq<seq<bool>>, loads: seq<Phdr>, runs: seq<Run>, used0: seq<bool>, used: seq<bool>) {
    && |loads| == |runs| == |us| - 1 && us[0] == used0 && us[|loads|] == used
    && forall j {:trigger HopAt(us, loads, runs, j)} | 0 <= j < |loads| :: HopAt(us, loads, runs, j)
  }

  lemma JourneyOn(us: seq<seq<bool>>, loads: seq<Phdr>, runs: seq<Run>, used0: seq<bool>, used: seq<bool>, ph: Phdr,
                  r: Run, used': seq<bool>)
    requires Journey(us, loads, runs, used0, used) && Hop(used, ph, r, used')
    ensures Journey(us + [used'], loads + [ph], runs + [r], used0, used')
  {
    var us', loads', runs' := us + [used'], loads + [ph], runs + [r];
    forall j | 0 <= j < |loads'|
      ensures HopAt(us', loads', runs', j)
    {
      if j < |loads| {
        assert HopAt(us, loads, runs, j);
      }
    }
  }

  lemma {:induction false} JourneyEnds(us: seq<seq<bool>>, loads: seq<Phdr>, runs: seq<Run>, used0: seq<bool>,
                                       used: seq<bool>)
    requires Journey(us, loads, runs, used0, used)
    ensures Settled(used0, used, loads, runs)
  {
    if loads != [] {
      var n := |loads| - 1;
      var us1, loads1, runs1 := us[..|us| - 1], loads[..n], runs[..n];
      forall j | 0 <= j < n
        ensures HopAt(us1, loads1, runs1, j)
      {
        assert HopAt(us, loads, runs, j);
      }
      JourneyEnds(us1, loads1, runs1, used0, us[n]);
      assert HopAt(us, loads, runs, n);
      PlaceOne(used0, loads1, loads[n], runs[n].start);
      assert loads1 + [loads[n]] == loads && runs1 + [runs[n]] == runs;
    }
  }

  /** The segments found room, and took the runs they take. */
  ghost predicate Settled(used0: seq<bool>, used: seq<bool>, loads: seq<Phdr>, runs: seq<Run>) {
    Room(used0, loads) && used == Placed(used0, loads) && runs == RunsFor(used0, loads)
  }

  /** One more segment finds its run. */
  lemma PlaceOne(v: seq<bool>, loads: seq<Phdr>, ph: Phdr, s: nat)
    requires Room(v, loads) && FreeRun(Placed(v, loads), s, Pages(ph)) && Pages(ph) > 0
    requires forall k | 0 <= k < s :: !FreeRun(Placed(v, loads), k, Pages(ph))
    ensures Room(v, loads + [ph]) && Placed(v, loads + [ph]) == Mark(Placed(v, loads), s, Pages(ph), true)
    ensures RunsFor(v, loads + [ph]) == RunsFor(v, loads) + [Run(s, Pages(ph))]
  {
    assert (loads + [ph])[..|loads|] == loads;
    LeftmostIs(Placed(v, loads), Pages(ph), s);
  }

  lemma LeftmostIs(v: seq<bool>, n: nat, s: nat)
    requires FreeRun(v, s, n) && n > 0 && forall k | 0 <= k < s :: !FreeRun(v, k, n)
    ensures LeftmostRun(v, 0, n) == s
  {
  }

  /** One more segment does not find one. */
  lemma PlaceNone(v: seq<bool>, loads: seq<Phdr>, ph: Phdr)
    requires forall k :: !FreeRun(Placed(v, loads), k, Pages(ph))
    ensures !Room(v, loads + [ph])
  {
    assert (loads + [ph])[..|loads|] == loads;
  }

  lemma {:induction false} RoomBefore(v: seq<bool>, loads: seq<Phdr>, n: nat)
    requires Room(v, loads) && n <= |loads|
    ensures Room(v, loads[..n])
  {
    if n < |loads| {
      RoomBefore(v, loads[..|loads| - 1], n);
      assert loads[..|loads| - 1][..n] == loads[..n];
    } else {
      assert loads[..n] == loads;
    }
  }

  /** Frames in use before the load still hold what they held. */
  ghost predicate OthersKept(before: seq<bool>, ram: seq<bv8>, ram': seq<bv8>) {
    |ram'| == |ram| && forall p {:trigger SameFrame(ram, ram', p)} | 0 <= p < |before|
      && before[p] :: SameFrame(ram, ram', p)
  }

  /** The PT_LOAD headers, in order. */
  function LoadsOf(phs: seq<Phdr>): (r: seq<Phdr>)
    ensures |r| == Loads(phs)
  {
    if phs == [] then [] else LoadsOf(phs[..|phs| - 1]) + if phs[|phs| - 1].kind == PT_LOAD then [phs[|phs| - 1]]
      else []
  }

  /** A region record describes its segment: page-aligned address, pages and flags. */
  ghost predicate Describes(r: Region, ph: Phdr, memStart: nat) {
    r == Region(memStart + RunOf(r, memStart).start * PAGE_SIZE, Pages(ph), Lo(ph) * PAGE, ph.flags)
  }

  ghost predicate Recorded(phs: seq<Phdr>, regions: seq<Region>, memStart: nat) {
    |regions| == Loads(phs) && forall j {:trigger regions[j]} | 0 <= j < |regions| ::
      Describes(regions[j], LoadsOf(phs)[j], memStart)
  }

  /** The state of the walk after i headers. */
  ghost predicate Loading(phs: seq<Phdr>, i: nat, buf: seq<bv8>, table0: PageMap, ram0: seq<bv8>, used0: seq<bool>,
                          table: PageMap, ram: seq<bv8>, used: seq<bool>, regions: seq<Region>, memStart: nat) {
    && i <= |phs| && (forall k | 0 <= k < i :: Loadable(phs[k], |buf|))
    && ImageOk(phs[..i], buf, table0, table, ram, used, RunsOf(regions, memStart))
       && Held(used0, used, RunsOf(regions, memStart), 0)
    && OthersKept(used0, ram0, ram) && Recorded(phs[..i], regions, memStart) && |regions| <= MAX_REGIONS
  }

  /** Why the walk stopped. */
  ghost predicate Rejected(phs: seq<Phdr>, buf: seq<bv8>, used: seq<bool>) {
    (exists i :: 0 <= i < |phs| && !Loadable(phs[i], |buf|)) || Loads(phs) > MAX_REGIONS || !Room(used, LoadsOf(phs))
  }

  /** va is the table's address in the first segment whose file bytes include it, or 0. */
  ghost predicate AddressOfTable(phs: seq<Phdr>, phoff: nat, bytes: nat, va: nat) {
    || (va == 0 && forall k | 0 <= k < |phs| :: !CoversTable(phs[k], phoff, bytes))
    || (exists i: nat :: FirstWithTable(phs, phoff, bytes, i) && va == phs[i].vaddr + (phoff - phs[i].offset))
  }

  ghost predicate FirstWithTable(phs: seq<Phdr>, phoff: nat, bytes: nat, i: nat) {
    i < |phs| && CoversTable(phs[i], phoff, bytes) && forall k | 0 <= k < i :: !CoversTable(phs[k], phoff, bytes)
  }

  /** A successful load: the image in memory, the record of what was taken for it, entry and table. */
  ghost predicate Loaded(buf: seq<bv8>, img: Image, table0: PageMap, used0: seq<bool>, table: PageMap, ram: seq<bv8>,
                         used: seq<bool>, memStart: nat)
    requires HeaderOk(buf)
  {
    var phs := Phdrs(buf);
    && ImageOk(phs, buf, table0, table, ram, used, RunsOf(img.regions, memStart))
    && Recorded(phs, img.regions, memStart) && Held(used0, used, RunsOf(img.regions, memStart), 0)
    && img.entry == Entry(buf) && img.phentsize == PHDR_SIZE && img.phnum == |phs|
    && AddressOfTable(phs, PhOff(buf), |phs| * PHDR_SIZE, img.phdrVa)
    && Settled(used0, used, LoadsOf(phs), RunsOf(img.regions, memStart))
  }

  class Loader {
    const alloc: PageAllocator.PageAllocator
    var ram: seq<bv8>
    var table: PageMap

    ghost predicate Valid()
      reads this, alloc, alloc.bitmap
    {
      alloc.Valid() && |ram| == alloc.totalPages * PAGE
    }

    constructor (a: PageAllocator.PageAllocator, memory: seq<bv8>, userTable: PageMap)
      requires a.Valid() && |memory| == a.totalPages * PAGE
      ensures Valid() && alloc == a && ram == memory && table == userTable
    {
      alloc, ram, table := a, memory, userTable;
    }

    /** One PT_LOAD: allocate, zero, copy, map. */
    method LoadSegment(buf: seq<bv8>, ph: Phdr) returns (phys: nat, ghost s: nat)
      requires Valid() && SegmentOk(ph, |buf|)
      modifies this, alloc, alloc.bitmap
      ensures Valid()
      ensures phys == 0 ==> alloc.used == old(alloc.used) && ram == old(ram) && table == old(table)
                            && (Occupies(ph) ==> forall k :: !FreeRun(alloc.used, k, Pages(ph)))
      ensures phys != 0 ==> FreeRun(old(alloc.used), s, Pages(ph)) && Occupies(ph)
                            && (forall k | 0 <= k < s :: !FreeRun(old(alloc.used), k, Pages(ph)))
                            && alloc.used == Mark(old(alloc.used), s, Pages(ph), true)
                            && phys == alloc.memStart + s * PAGE_SIZE && ram == Filled(old(ram), s, ph, buf)
                            && table == MapRun(old(table), Lo(ph), s, Pages(ph), PflagsToPte(ph.flags))
    {
      var pages := Pages(ph);
      OccupiesExactly(ph);
      phys, s := alloc.AllocatePages(pages);
      if phys == 0 {
        return;
      }
      var at := phys - alloc.memStart;
      AtRun(alloc.memStart, s);
      Fill(at, buf, ph, s);
      MapPages(Lo(ph), at / PAGE, pages, PflagsToPte(ph.flags));
    }

    /** memset over the run, memcpy of the file bytes. */
    method Fill(at: nat, buf: seq<bv8>, ph: Phdr, ghost s: nat)
      requires SegmentOk(ph, |buf|) && at == s * PAGE && (s + Pages(ph)) * PAGE <= |ram|
      modifies `ram
      ensures |ram| == |old(ram)| && ram == Filled(old(ram), s, ph, buf)
    {
      ram := Overlay(ram, at, Zeros(Pages(ph) * PAGE));
      if ph.filesz > 0 {
        ram := Overlay(ram, at + (ph.vaddr - Lo(ph) * PAGE), buf[ph.offset..ph.offset + ph.filesz]);
      }
    }

    /** mmu_map_user_range, page by page. */
    method MapPages(page: nat, pfn: nat, pages: nat, flags: bv64)
      modifies `table
      ensures table == MapRun(old(table), page, pfn, pages, flags)
    {
      var i := 0;
      while i < pages
        invariant 0 <= i <= pages && table == MapRun(old(table), page, pfn, i, flags)
      {
        table := table[page + i := Leaf(pfn + i, flags)];
        i := i + 1;
      }
    }

    /** free_regions. */
    method FreeRegions(regions: seq<Region>, ghost before: seq<bool>)
      requires Valid() && Held(before, alloc.used, RunsOf(regions, alloc.memStart), 0)
               && (forall p | 0 <= p < alloc.reservedPages :: before[p])
      requires forall j {:trigger regions[j]} | 0 <= j < |regions| ::
               regions[j].phys == alloc.memStart + RunOf(regions[j], alloc.memStart).start * PAGE_SIZE
      modifies alloc, alloc.bitmap
      ensures Valid() && alloc.used == before
    {
      ghost var runs := RunsOf(regions, alloc.memStart);
      var i := 0;
      while i < |regions|
        invariant 0 <= i <= |regions| && Valid() && Held(before, alloc.used, runs, i)
      {
        FreeRunOf(before, alloc.used, runs, i);
        if regions[i].phys != 0 && regions[i].pages != 0 {
          NotReserved(before, alloc.used, runs, i, alloc.reservedPages);
          FreedClears(alloc.Bounds(), alloc.used, runs[i].start, runs[i].count);
          alloc.FreePages(regions[i].phys, regions[i].pages);
        } else {
          MarkNone(alloc.used, runs[i].start, runs[i].count);
        }
        i := i + 1;
      }
      AllFreed(before, alloc.used, runs);
    }

    /** The walk over the program headers. */
    method LoadSegments(buf: seq<bv8>, phs: seq<Phdr>) returns (ok: bool, regions: seq<Region>)
      requires Valid() && |buf| < LIMIT && forall i | 0 <= i < |phs| :: Fields64(phs[i])
      modifies this, alloc, alloc.bitmap
      ensures Valid()
      ensures ok ==> Loading(phs, |phs|, buf, old(table), old(ram), old(alloc.used), table, ram, alloc.used, regions,
              alloc.memStart)
                     && Settled(old(alloc.used), alloc.used, LoadsOf(phs), RunsOf(regions, alloc.memStart))
      ensures !ok ==> alloc.used == old(alloc.used) && OthersKept(alloc.used, old(ram), ram)
                      && Rejected(phs, buf, alloc.used)
    {
      regions, ok := [], true;
      StartLoading(phs, buf, table, ram, alloc.used, alloc.memStart);
      ghost var us := [alloc.used];
      var i := 0;
      while i < |phs|
        invariant 0 <= i <= |phs| && Valid()
        invariant Loading(phs, i, buf, old(table), old(ram), old(alloc.used), table, ram, alloc.used, regions,
                  alloc.memStart)
        invariant Journey(us, LoadsOf(phs[..i]), RunsOf(regions, alloc.memStart), old(alloc.used), alloc.used)
      {
        if phs[i].kind == PT_LOAD {
          ok, regions, us := LoadOne(buf, phs, i, regions, us, old(table), old(ram), old(alloc.used));
          if !ok {
            FreeRegions(regions, old(alloc.used));
            return;
          }
        } else {
          OneMore(phs, i);
          SkipStep(phs, i, buf, old(table), old(ram), old(alloc.used), table, ram, alloc.used, regions, alloc.memStart);
        }
        i := i + 1;
      }
      assert phs[..i] == phs;
      JourneyEnds(us, LoadsOf(phs), RunsOf(regions, alloc.memStart), old(alloc.used), alloc.used);
    }

    /** The body of the walk for a PT_LOAD header. On failure nothing has changed. */
    method LoadOne(buf: seq<bv8>, phs: seq<Phdr>, i: nat, regions: seq<Region>, ghost us: seq<seq<bool>>,
                   ghost table0: PageMap, ghost ram0: seq<bv8>, ghost used0: seq<bool>)
      returns (ok: bool, regions': seq<Region>, ghost us': seq<seq<bool>>)
      requires Valid() && |buf| < LIMIT && i < |phs| && Fields64(phs[i]) && phs[i].kind == PT_LOAD
      requires Loading(phs, i, buf, table0, ram0, used0, table, ram, alloc.used, regions, alloc.memStart)
      requires Journey(us, LoadsOf(phs[..i]), RunsOf(regions, alloc.memStart), used0, alloc.used)
      modifies this, alloc, alloc.bitmap
      ensures Valid()
      ensures ok ==> Loading(phs, i + 1, buf, table0, ram0, used0, table, ram, alloc.used, regions', alloc.memStart)
                     && Journey(us', LoadsOf(phs[..i + 1]), RunsOf(regions', alloc.memStart), used0, alloc.used)
      ensures !ok ==> alloc.used == old(alloc.used) && ram == old(ram) && regions' == regions
                      && Rejected(phs, buf, used0)
    {
      ok, regions', us' := false, regions, us;
      var ph := phs[i];
      SegmentChecksExact(ph, |buf|);
      if !SegmentChecks(ph, |buf|) || |regions| >= MAX_REGIONS || !FlagsOk(ph.flags) {
        Refuse(phs, i, buf, used0, |regions|);
        return;
      }
      ghost var t, r, u := table, ram, alloc.used;
      var phys; ghost var s;
      phys, s := LoadSegment(buf, ph);
      if phys == 0 {
        Starve(phs, i, buf, us, RunsOf(regions, alloc.memStart), used0, alloc.used);
        return;
      }
      LoadStep(phs, i, buf, table0, ram0, used0, t, r, u, regions, alloc.memStart, s);
      RunStep(phs, i, us, regions, alloc.memStart, used0, u, s, alloc.used);
      ok, us' := true, us + [alloc.used];
      regions' := regions + [Region(phys, Pages(ph), Lo(ph) * PAGE, ph.flags)];
    }

    /** elf_load. */
    method Load(buf: seq<bv8>) returns (ok: bool, img: Image)
      requires Valid() && |buf| + MAX_PHNUM * PHDR_SIZE < LIMIT
      modifies this, alloc, alloc.bitmap
      ensures Valid() && OthersKept(old(alloc.used), old(ram), ram)
      ensures ok <==> Acceptable(buf) && Room(old(alloc.used), LoadsOf(Phdrs(buf)))
      ensures ok ==> Loaded(buf, img, old(table), old(alloc.used), table, ram, alloc.used, alloc.memStart)
      ensures !ok ==> alloc.used == old(alloc.used) && img.regions == []
    {
      HeaderChecksExact(buf);
      if HeaderChecks(buf) {
        ok, img := LoadProgram(buf);
      } else {
        ok, img := false, Image(0, [], 0, 0, 0);
      }
    }

    /** The part of elf_load behind the header checks. */
    method LoadProgram(buf: seq<bv8>) returns (ok: bool, img: Image)
      requires Valid() && |buf| < LIMIT && HeaderOk(buf)
      modifies this, alloc, alloc.bitmap
      ensures Valid() && OthersKept(old(alloc.used), old(ram), ram)
      ensures ok <==> Acceptable(buf) && Room(old(alloc.used), LoadsOf(Phdrs(buf)))
      ensures ok ==> Loaded(buf, img, old(table), old(alloc.used), table, ram, alloc.used, alloc.memStart)
      ensures !ok ==> alloc.used == old(alloc.used) && img.regions == []
    {
      img := Image(0, [], 0, 0, 0);
      var phs := Phdrs(buf);
      var regions;
      ok, regions := LoadSegments(buf, phs);
      if !ok {
        WhyRejected(buf, alloc.used);
        return;
      }
      if |regions| == 0 {
        NothingToRun(buf, regions, old(table), old(ram), old(alloc.used), table, ram, alloc.used, alloc.memStart);
        ok := false;
        return;
      }
      var va := FindTable(phs, PhOff(buf), PhNum(buf) * PHDR_SIZE);
      var entryOk := FindEntry(phs, Entry(buf));
      img := Image(Entry(buf), regions, va, PhEntSize(buf), PhNum(buf));
      Verdict(buf, img, old(table), old(ram), old(alloc.used), table, ram, alloc.used, alloc.memStart, entryOk);
      if !entryOk {
        FreeRegions(regions, old(alloc.used));
        ok, img := false, Image(0, [], 0, 0, 0);
      }
    }
  }

  /** AT_PHDR: the address of the table in the first segment whose file bytes include it. */
  method FindTable(phs: seq<Phdr>, phoff: nat, bytes: nat) returns (va: nat)
    ensures AddressOfTable(phs, phoff, bytes, va)
  {
    var i := 0;
    while i < |phs|
      invariant 0 <= i <= |phs| && forall k | 0 <= k < i :: !CoversTable(phs[k], phoff, bytes)
    {
      if CoversTable(phs[i], phoff, bytes) {
        assert FirstWithTable(phs, phoff, bytes, i);
        va := phs[i].vaddr + (phoff - phs[i].offset);
        return;
      }
      i := i + 1;
    }
    va := 0;
  }

  method FindEntry(phs: seq<Phdr>, entry: nat) returns (found: bool)
    ensures found <==> exists i :: 0 <= i < |phs| && HoldsEntry(phs[i], entry)
  {
    var i := 0;
    while i < |phs|
      invariant 0 <= i <= |phs| && forall k | 0 <= k < i :: !HoldsEntry(phs[k], entry)
    {
      if HoldsEntry(phs[i], entry) {
        found := true;
        return;
      }
      i := i + 1;
    }
    found := false;
  }

  // ---- the verdict ----

  lemma WhyRejected(buf: seq<bv8>, used: seq<bool>)
    requires HeaderOk(buf) && Rejected(Phdrs(buf), buf, used)
    ensures !(Acceptable(buf) && Room(used, LoadsOf(Phdrs(buf))))
  {
  }

  lemma Verdict(buf: seq<bv8>, img: Image, table0: PageMap, ram0: seq<bv8>, used0: seq<bool>, table: PageMap,
                ram: seq<bv8>, used: seq<bool>, memStart: nat, entryOk: bool)
    requires HeaderOk(buf) && Loading(Phdrs(buf), |Phdrs(buf)|, buf, table0, ram0, used0, table, ram, used, img.regions,
             memStart)
    requires Settled(used0, used, LoadsOf(Phdrs(buf)), RunsOf(img.regions, memStart))
    requires AddressOfTable(Phdrs(buf), PhOff(buf), |Phdrs(buf)| * PHDR_SIZE, img.phdrVa)
    requires entryOk <==> exists i :: 0 <= i < |Phdrs(buf)| && HoldsEntry(Phdrs(buf)[i], Entry(buf))
    requires img.entry == Entry(buf) && img.phentsize == PhEntSize(buf) && img.phnum == PhNum(buf)
    ensures Acceptable(buf) <==> img.regions != [] && entryOk
    ensures Room(used0, LoadsOf(Phdrs(buf)))
    ensures Loaded(buf, img, table0, used0, table, ram, used, memStart)
  {
    var phs := Phdrs(buf);
    assert phs[..|phs|] == phs;
  }

  lemma NothingToRun(buf: seq<bv8>, regions: seq<Region>, table0: PageMap, ram0: seq<bv8>, used0: seq<bool>,
                     table: PageMap, ram: seq<bv8>, used: seq<bool>, memStart: nat)
    requires HeaderOk(buf) && regions == [] && Loading(Phdrs(buf), |Phdrs(buf)|, buf, table0, ram0, used0, table, ram,
             used, regions, memStart)
    ensures !Acceptable(buf) && used == used0
  {
    var phs := Phdrs(buf);
    assert phs[..|phs|] == phs;
    AllFreed(used0, used, RunsOf(regions, memStart));
  }

  // ---- what the loaded program finds, for phs the program headers of an accepted file ----

  ghost predicate AllLoadable(phs: seq<Phdr>, size: nat) {
    forall i | 0 <= i < |phs| :: Loadable(phs[i], size)
  }

  /** What the program reads at va is the file's program-header table. */
  ghost predicate TableInMemory(buf: seq<bv8>, table: PageMap, ram: seq<bv8>, phoff: nat, bytes: nat, va: nat)
    requires phoff + bytes <= |buf|
  {
    forall k {:trigger TableByteRead(buf, table, ram, phoff, va, k)} | 0 <= k < bytes ::
      TableByteRead(buf, table, ram, phoff, va, k)
  }

  ghost predicate TableByteRead(buf: seq<bv8>, table: PageMap, ram: seq<bv8>, phoff: nat, va: nat, k: nat)
    requires phoff + k < |buf|
  {
    UserByte(table, ram, va + k) == buf[phoff + k]
  }

  /** Byte k of the table, as the last segment on its page has it, is the file's. */
  ghost predicate TableByteKept(phs: seq<Phdr>, buf: seq<bv8>, phoff: nat, va: nat, k: nat)
    requires phoff + k < |buf|
  {
    var c := LastCover(phs, (va + k) / PAGE);
    c > 0 && SegByte(phs[c - 1], buf, va + k) == buf[phoff + k]
  }

  ghost predicate TableKept(phs: seq<Phdr>, buf: seq<bv8>, phoff: nat, bytes: nat, va: nat)
    requires phoff + bytes <= |buf|
  {
    forall k {:trigger TableByteKept(phs, buf, phoff, va, k)} | 0 <= k < bytes ::
      TableByteKept(phs, buf, phoff, va, k)
  }

  /** AT_PHDR is 0 if no PT_LOAD has the whole table among its file bytes, and else where the first that does
      puts it. */
  lemma TableAddress(phs: seq<Phdr>, phoff: nat, bytes: nat, va: nat) returns (i: nat)
    requires AddressOfTable(phs, phoff, bytes, va)
    ensures i <= |phs|
    ensures forall k | 0 <= k < i ::
              !(phs[k].kind == 1 && phs[k].offset <= phoff && phoff + bytes <= phs[k].offset + phs[k].filesz)
    ensures i == |phs| ==> va == 0
    ensures i < |phs| ==> phs[i].kind == 1 && phs[i].offset <= phoff && phoff + bytes <= phs[i].offset + phs[i].filesz
                          && va == phs[i].vaddr + (phoff - phs[i].offset)
  {
    if va == 0 && forall k | 0 <= k < |phs| :: !CoversTable(phs[k], phoff, bytes) {
      i := |phs|;
    } else {
      i :| FirstWithTable(phs, phoff, bytes, i) && va == phs[i].vaddr + (phoff - phs[i].offset);
    }
    forall k | 0 <= k < i
      ensures !(phs[k].kind == 1 && phs[k].offset <= phoff && phoff + bytes <= phs[k].offset + phs[k].filesz)
    {
      assert !CoversTable(phs[k], phoff, bytes);
    }
  }

  /** A non-zero AT_PHDR is where the first segment that holds it puts the file's program-header table.
      The program finds the table there if and only if the last segments on its pages, as the file has
      them, agree with it; for a byte on a page that no later segment covers they do. */
  lemma TableReads(phs: seq<Phdr>, buf: seq<bv8>, before: PageMap, table: PageMap, ram: seq<bv8>, used: seq<bool>,
                   runs: seq<Run>, phoff: nat, bytes: nat, va: nat) returns (i: nat)
    requires ImageOk(phs, buf, before, table, ram, used, runs) && AllLoadable(phs, |buf|)
    requires AddressOfTable(phs, phoff, bytes, va) && va != 0 && phoff + bytes <= |buf|
    ensures FirstWithTable(phs, phoff, bytes, i) && va == phs[i].vaddr + (phoff - phs[i].offset)
    ensures TableInMemory(buf, table, ram, phoff, bytes, va) <==> TableKept(phs, buf, phoff, bytes, va)
    ensures forall k {:trigger TableByteRead(buf, table, ram, phoff, va, k)} | 0 <= k < bytes
              && NotOverlaid(phs, i, (va + k) / PAGE) :: TableByteRead(buf, table, ram, phoff, va, k)
  {
    i :| FirstWithTable(phs, phoff, bytes, i) && va == phs[i].vaddr + (phoff - phs[i].offset);
    assert Loadable(phs[i], |buf|);
    forall k | 0 <= k < bytes
      ensures TableByteKept(phs, buf, phoff, va, k) <==> TableByteRead(buf, table, ram, phoff, va, k)
      ensures NotOverlaid(phs, i, (va + k) / PAGE) ==> TableByteKept(phs, buf, phoff, va, k)
    {
      TableByteAt(phs, buf, before, table, ram, used, runs, phoff, bytes, va, i, k);
    }
  }

  lemma TableByteAt(phs: seq<Phdr>, buf: seq<bv8>, before: PageMap, table: PageMap, ram: seq<bv8>, used: seq<bool>,
                    runs: seq<Run>, phoff: nat, bytes: nat, va: nat, i: nat, k: nat)
    requires ImageOk(phs, buf, before, table, ram, used, runs) && i < |phs| && Loadable(phs[i], |buf|)
    requires CoversTable(phs[i], phoff, bytes) && va == phs[i].vaddr + (phoff - phs[i].offset)
    requires k < bytes && phoff + bytes <= |buf|
    ensures TableByteKept(phs, buf, phoff, va, k) <==> TableByteRead(buf, table, ram, phoff, va, k)
    ensures NotOverlaid(phs, i, (va + k) / PAGE) ==> TableByteKept(phs, buf, phoff, va, k)
  {
    TableByte(phs, buf, before, table, ram, used, runs, i, phoff - phs[i].offset + k, va + k);
  }

  /** A file byte of a segment reads as the last segment on its page has it. */
  lemma TableByte(phs: seq<Phdr>, buf: seq<bv8>, before: PageMap, table: PageMap, ram: seq<bv8>, used: seq<bool>,
                  runs: seq<Run>, i: nat, k: nat, x: nat)
    requires ImageOk(phs, buf, before, table, ram, used, runs) && i < |phs| && phs[i].kind == PT_LOAD
    requires SegmentOk(phs[i], |buf|) && k < phs[i].filesz && x == phs[i].vaddr + k
    ensures var c := LastCover(phs, x / PAGE);
            && c > 0 && UserByte(table, ram, x) == SegByte(phs[c - 1], buf, x)
            && (NotOverlaid(phs, i, x / PAGE) ==> SegByte(phs[c - 1], buf, x) == buf[phs[i].offset + k])
  {
    InSpan(phs[i], k);
    LastOne(phs, i, x / PAGE);
    ReadsLast(phs, buf, before, table, ram, used, runs, x);
  }

  lemma EntryCovered(phs: seq<Phdr>, fileSize: nat, entry: nat, i: nat)
    requires AllLoadable(phs, fileSize) && i < |phs| && HoldsEntry(phs[i], entry)
    ensures LastCover(phs, entry / PAGE) > i
    ensures NotOverlaid(phs, i, entry / PAGE) ==> LastCover(phs, entry / PAGE) == i + 1
  {
    assert Loadable(phs[i], fileSize);
    InSpan(phs[i], entry - phs[i].vaddr);
    LastOne(phs, i, entry / PAGE);
  }

  /** The page of the entry point is mapped, and may be executed if and only if the last segment that
      covers it is executable: not always the one that holds the entry point. */
  lemma EntryExecutable(phs: seq<Phdr>, buf: seq<bv8>, before: PageMap, table: PageMap, ram: seq<bv8>, used: seq<bool>,
                        runs: seq<Run>, entry: nat, i: nat, pa: Descriptors.Frame)
    requires ImageOk(phs, buf, before, table, ram, used, runs) && AllLoadable(phs, |buf|)
    requires i < |phs| && HoldsEntry(phs[i], entry) && Descriptors.FrameOk(pa)
    ensures var v, c := entry / PAGE, LastCover(phs, entry / PAGE);
            && v in table && c > i && (NotOverlaid(phs, i, v) ==> c == i + 1)
            && (Descriptors.UserMayExec(Descriptors.LeafDescriptor(pa, table[v].flags)) <==>
               Executable(phs[c - 1].flags))
  {
    EntryCovered(phs, |buf|, entry, i);
    WriteXorExecute(phs, buf, before, table, ram, used, runs, entry / PAGE, pa);
  }

  /** Overlapping or not, a page the loader mapped has exactly the rights of the last segment that
      covers it, and is never both writable and executable. */
  lemma WriteXorExecute(phs: seq<Phdr>, buf: seq<bv8>, before: PageMap, table: PageMap, ram: seq<bv8>, used: seq<bool>,
                        runs: seq<Run>, v: nat, pa: Descriptors.Frame)
    requires ImageOk(phs, buf, before, table, ram, used, runs) && AllLoadable(phs, |buf|)
    requires LastCover(phs, v) > 0 && Descriptors.FrameOk(pa)
    ensures v in table
    ensures var d, pf := Descriptors.LeafDescriptor(pa, table[v].flags), phs[LastCover(phs, v) - 1].flags;
            && (Descriptors.UserMayWrite(d) <==> Writable(pf)) && (Descriptors.UserMayExec(d) <==> Executable(pf))
            && Descriptors.UserMayRead(d) && !(Descriptors.UserMayWrite(d) && Descriptors.UserMayExec(d))
  {
    assert PageOk(phs, buf, before, table, ram, used, runs, v);
    var ph := phs[LastCover(phs, v) - 1];
    assert Loadable(ph, |buf|);
    SegmentRights(pa, ph.flags);
  }

  /** A page of a segment is backed by the segment's own frame if and only if no later segment covers
      it. */
  lemma OwnFrame(phs: seq<Phdr>, buf: seq<bv8>, before: PageMap, table: PageMap, ram: seq<bv8>, used0: seq<bool>,
                 used: seq<bool>, regions: seq<Region>, memStart: nat, i: nat, v: nat)
    requires var runs := RunsOf(regions, memStart);
             ImageOk(phs, buf, before, table, ram, used, runs) && Held(used0, used, runs, 0)
               && Recorded(phs, regions, memStart)
    requires i < |phs| && Covers(phs[i], v)
    ensures v in table
    ensures table[v].pfn == RunFor(phs, RunsOf(regions, memStart), i).start + (v - Lo(phs[i])) <==>
            NotOverlaid(phs, i, v)
  {
    var runs, c := RunsOf(regions, memStart), LastCover(phs, v);
    LastOne(phs, i, v);
    assert PageOk(phs, buf, before, table, ram, used, runs, v);
    if c > i + 1 {
      TwoRuns(phs, regions, memStart, i, c - 1, v);
    }
  }

  /** The runs of two segments that both cover a page hold it in different frames. */
  lemma TwoRuns(phs: seq<Phdr>, regions: seq<Region>, memStart: nat, i: nat, j: nat, v: nat)
    requires i < j < |phs| && Covers(phs[i], v) && Covers(phs[j], v)
    requires RunsApart(RunsOf(regions, memStart)) && Recorded(phs, regions, memStart)
    ensures var runs := RunsOf(regions, memStart);
            RunFor(phs, runs, i).start + (v - Lo(phs[i])) != RunFor(phs, runs, j).start + (v - Lo(phs[j]))
  {
    var runs, m, n := RunsOf(regions, memStart), Loads(phs[..i]), Loads(phs[..j]);
    assert phs[..j][..i] == phs[..i];
    LoadsBefore(phs[..j], i);
    RunAt(phs, regions, memStart, i, v);
    RunAt(phs, regions, memStart, j, v);
  }

  lemma RunAt(phs: seq<Phdr>, regions: seq<Region>, memStart: nat, i: nat, v: nat)
    requires i < |phs| && Covers(phs[i], v) && Recorded(phs, regions, memStart)
    ensures var runs, n := RunsOf(regions, memStart), Loads(phs[..i]);
            n < |runs| && RunFor(phs, runs, i) == runs[n] && OnRun(runs[n], runs[n].start + (v - Lo(phs[i])))
  {
    NthLoad(phs, i);
    assert Describes(regions[Loads(phs[..i])], phs[i], memStart);
  }

  lemma {:induction false} NthLoad(phs: seq<Phdr>, i: nat)
    requires i < |phs| && phs[i].kind == PT_LOAD
    ensures Loads(phs[..i]) < Loads(phs) && LoadsOf(phs)[Loads(phs[..i])] == phs[i]
  {
    LoadsBefore(phs, i);
    if i < |phs| - 1 {
      LoadsBefore(phs[..|phs| - 1], i);
      assert phs[..|phs| - 1][..i] == phs[..i];
      NthLoad(phs[..|phs| - 1], i);
    }
  }

  lemma AtRun(memStart: nat, s: nat)
    ensures memStart + s * PAGE_SIZE - memStart == s * PAGE && (memStart + s * PAGE_SIZE - memStart) / PAGE == s
  {
  }

  // ---- steps of the walk ----

  lemma StartLoading(phs: seq<Phdr>, buf: seq<bv8>, table: PageMap, ram: seq<bv8>, used: seq<bool>, memStart: nat)
    ensures Loading(phs, 0, buf, table, ram, used, table, ram, used, [], memStart)
  {
    assert phs[..0] == [] && RunsOf([], memStart) == [];
    EmptyImage(buf, table, ram, used);
    NothingHeld(used);
  }

  lemma SkipStep(phs: seq<Phdr>, i: nat, buf: seq<bv8>, table0: PageMap, ram0: seq<bv8>, used0: seq<bool>,
                 table: PageMap, ram: seq<bv8>, used: seq<bool>, regions: seq<Region>, memStart: nat)
    requires i < |phs| && phs[i].kind != PT_LOAD && Loading(phs, i, buf, table0, ram0, used0, table, ram, used, regions,
             memStart)
    ensures Loading(phs, i + 1, buf, table0, ram0, used0, table, ram, used, regions, memStart)
  {
    OneMore(phs, i);
    SkipSegment(phs[..i], phs[i], buf, table0, table, ram, used, RunsOf(regions, memStart));
  }

  lemma OneMore(phs: seq<Phdr>, i: nat)
    requires i < |phs|
    ensures phs[..i + 1] == phs[..i] + [phs[i]]
    ensures LoadsOf(phs[..i + 1]) == if phs[i].kind == PT_LOAD then LoadsOf(phs[..i]) + [phs[i]] else LoadsOf(phs[..i])
  {
    assert phs[..i + 1][..i] == phs[..i];
  }

  lemma LoadStep(phs: seq<Phdr>, i: nat, buf: seq<bv8>, table0: PageMap, ram0: seq<bv8>, used0: seq<bool>,
                 table: PageMap, ram: seq<bv8>, used: seq<bool>, regions: seq<Region>, memStart: nat, s: nat)
    requires i < |phs| && phs[i].kind == PT_LOAD && Loading(phs, i, buf, table0, ram0, used0, table, ram, used, regions,
             memStart)
    requires Loadable(phs[i], |buf|) && FreeRun(used, s, Pages(phs[i])) && |regions| < MAX_REGIONS
             && |ram| == |used| * PAGE
    ensures var ph := phs[i];
            Loading(phs, i + 1, buf, table0, ram0, used0,
                    MapRun(table, Lo(ph), s, Pages(ph), PflagsToPte(ph.flags)), Filled(ram, s, ph, buf),
                    Mark(used, s, Pages(ph), true),
                    regions + [Region(memStart + s * PAGE_SIZE, Pages(ph), Lo(ph) * PAGE, ph.flags)], memStart)
  {
    var ph, ram', runs := phs[i], Filled(ram, s, phs[i], buf), RunsOf(regions, memStart);
    var r := Region(memStart + s * PAGE_SIZE, Pages(ph), Lo(ph) * PAGE, ph.flags);
    OneMore(phs, i);
    FilledHolds(ram, s, ph, buf);
    FilledElsewhere(ram, s, ph, buf);
    NewRun(regions, r, memStart, s);
    AddSegment(phs[..i], ph, buf, table0, table, ram, used, runs, ram', s);
    TakeRun(used0, used, runs, s, Pages(ph));
    StillKept(used0, used, runs, ram0, ram, ram', s, Pages(ph));
  }

  lemma NewRun(regions: seq<Region>, r: Region, memStart: nat, s: nat)
    requires r.phys == memStart + s * PAGE_SIZE
    ensures RunsOf(regions + [r], memStart) == RunsOf(regions, memStart) + [Run(s, r.pages)]
  {
  }

  /** The run of the segment just loaded goes on from those before it. */
  lemma RunStep(phs: seq<Phdr>, i: nat, us: seq<seq<bool>>, regions: seq<Region>, memStart: nat, used0: seq<bool>,
                used: seq<bool>, s: nat, used': seq<bool>)
    requires i < |phs| && phs[i].kind == PT_LOAD && Occupies(phs[i])
    requires Journey(us, LoadsOf(phs[..i]), RunsOf(regions, memStart), used0, used)
    requires FreeRun(used, s, Pages(phs[i])) && (forall k | 0 <= k < s :: !FreeRun(used, k, Pages(phs[i])))
    requires used' == Mark(used, s, Pages(phs[i]), true)
    ensures var ph := phs[i];
            Journey(us + [used'], LoadsOf(phs[..i + 1]),
                    RunsOf(regions + [Region(memStart + s * PAGE_SIZE, Pages(ph), Lo(ph) * PAGE, ph.flags)], memStart),
                    used0, used')
  {
    var ph := phs[i];
    NewRun(regions, Region(memStart + s * PAGE_SIZE, Pages(ph), Lo(ph) * PAGE, ph.flags), memStart, s);
    OccupiesExactly(ph);
    JourneyOn(us, LoadsOf(phs[..i]), RunsOf(regions, memStart), used0, used, ph, Run(s, Pages(ph)), used');
    OneMore(phs, i);
  }

  lemma StillKept(used0: seq<bool>, used: seq<bool>, runs: seq<Run>, ram0: seq<bv8>, ram: seq<bv8>, ram': seq<bv8>,
                  s: nat, count: nat)
    requires Held(used0, used, runs, 0) && FreeRun(used, s, count) && OthersKept(used0, ram0, ram)
             && OnlyRun(ram, ram', s, count)
    ensures OthersKept(used0, ram0, ram')
  {
    forall p | 0 <= p < |used0| && used0[p]
      ensures SameFrame(ram0, ram', p)
    {
      assert BitOk(used0, used, runs, 0, p);
      assert SameFrame(ram0, ram, p) && SameFrame(ram, ram', p);
    }
  }

  lemma {:induction false} LoadsFirst(phs: seq<Phdr>, i: nat)
    requires i <= |phs|
    ensures LoadsOf(phs[..i]) <= LoadsOf(phs)
  {
    if i < |phs| {
      LoadsFirst(phs[..|phs| - 1], i);
      assert phs[..|phs| - 1][..i] == phs[..i];
    } else {
      assert phs[..i] == phs;
    }
  }

  /** A refused segment makes the file unacceptable. */
  lemma Refuse(phs: seq<Phdr>, i: nat, buf: seq<bv8>, used: seq<bool>, regions: nat)
    requires i < |phs| && phs[i].kind == PT_LOAD && regions == Loads(phs[..i])
    requires !Loadable(phs[i], |buf|) || regions >= MAX_REGIONS
    ensures Rejected(phs, buf, used)
  {
    LoadsBefore(phs, i);
  }

  lemma Starve(phs: seq<Phdr>, i: nat, buf: seq<bv8>, us: seq<seq<bool>>, runs: seq<Run>, used0: seq<bool>,
               used: seq<bool>)
    requires i < |phs| && phs[i].kind == PT_LOAD && Journey(us, LoadsOf(phs[..i]), runs, used0, used)
    requires Occupies(phs[i]) ==> forall k :: !FreeRun(used, k, Pages(phs[i]))
    ensures Rejected(phs, buf, used0)
  {
    if Occupies(phs[i]) {
      var loads := LoadsOf(phs[..i]);
      JourneyEnds(us, loads, runs, used0, used);
      PlaceNone(used0, loads, phs[i]);
      OneMore(phs, i);
      LoadsFirst(phs, i + 1);
      NoRoomLater(used0, loads + [phs[i]], LoadsOf(phs));
    } else {
      assert !Loadable(phs[i], |buf|);
    }
  }

  lemma NoRoomLater(v: seq<bool>, a: seq<Phdr>, b: seq<Phdr>)
    requires a <= b && !Room(v, a)
    ensures !Room(v, b)
  {
    assert b[..|a|] == a;
    if Room(v, b) {
      RoomBefore(v, b, |a|);
    }
  }

  lemma NotReserved(before: seq<bool>, used: seq<bool>, runs: seq<Run>, i: nat, reserved: nat)
    requires Held(before, used, runs, i) && i < |runs| && runs[i].count > 0 && reserved <= |before|
             && forall p | 0 <= p < reserved :: before[p]
    ensures reserved <= runs[i].start
  {
    var p := runs[i].start;
    assert BitOk(before, used, runs, i, p);
    assert OnRun(runs[i], p);
  }

  lemma MarkNone(v: seq<bool>, s: nat, count: nat)
    requires count == 0 && s <= |v|
    ensures Mark(v, s, count, false) == v
  {
  }
}
