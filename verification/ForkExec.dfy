/** A fork of a task that runs a program loaded by elf_load (src/syscall/elf.c): its page table agrees with
    its records, so sched_fork (src/sched/sched.c) copies it exactly. */
module ForkExec {
  import opened ElfFile
  import opened ElfImage
  import L = ElfLoader
  import opened UserMaps
  import F = ForkMemory

  /** The loader's map with frames counted from physical address 0 rather than from the start of memory. */
  function Physical(table: PageMap, base: nat): PageMap {
    map v | v in table :: Leaf(table[v].pfn + base, table[v].flags)
  }

  // ---- records and program headers ----

  lemma {:induction false} LoadIndex(phs: seq<Phdr>, j: nat) returns (i: nat)
    requires j < Loads(phs)
    ensures i < |phs| && phs[i].kind == PT_LOAD && Loads(phs[..i]) == j && L.LoadsOf(phs)[j] == phs[i]
  {
    var last := |phs| - 1;
    if j < Loads(phs[..last]) {
      i := LoadIndex(phs[..last], j);
      assert phs[..last][..i] == phs[..i];
    } else {
      i := last;
    }
  }

  lemma {:induction false} LoadsGrow(phs: seq<Phdr>, i: nat, j: nat)
    requires i <= j <= |phs|
    ensures Loads(phs[..i]) <= Loads(phs[..j])
  {
    if i < j {
      LoadsGrow(phs, i, j - 1);
      assert phs[..j][..j - 1] == phs[..j - 1];
    }
  }

  /** A region record covers the pages its segment covers. */
  lemma {:induction false} RegionIsSegment(regions: seq<Region>, phs: seq<Phdr>, memStart: nat, i: nat, v: nat)
    requires L.Recorded(phs, regions, memStart) && i < |phs| && phs[i].kind == PT_LOAD
    ensures Loads(phs[..i]) < |regions|
    ensures var r := regions[Loads(phs[..i])];
            && (F.RegionCovers(r, v) <==> Covers(phs[i], v)) && r.va / 4096 == Lo(phs[i]) && r.flags == phs[i].flags
            && r.phys == memStart + L.RunOf(r, memStart).start * 4096
  {
    L.NthLoad(phs, i);
    assert L.Describes(regions[Loads(phs[..i])], phs[i], memStart);
  }

  /** The last record that covers a page is that of the last segment that does. */
  lemma {:induction false} LastIsLast(regions: seq<Region>, phs: seq<Phdr>, memStart: nat, v: nat)
    requires L.Recorded(phs, regions, memStart)
    ensures var c := LastCover(phs, v);
            if c > 0 then F.LastRegion(regions, |regions|, Loads(phs[..c - 1]), v)
            else forall j | 0 <= j < |regions| :: !F.RegionCovers(regions[j], v)
  {
    var c := LastCover(phs, v);
    if c > 0 {
      RegionIsSegment(regions, phs, memStart, c - 1, v);
    }
    forall j | 0 <= j < |regions| && (c > 0 ==> Loads(phs[..c - 1]) < j)
      ensures !F.RegionCovers(regions[j], v)
    {
      var i := LoadIndex(phs, j);
      RegionIsSegment(regions, phs, memStart, i, v);
      if c > 0 && i <= c - 1 {
        LoadsGrow(phs, i, c - 1);
      }
    }
  }

  /** The map made from the records of a loaded image is the map the loader left. */
  lemma {:induction false} ImageIsRecorded(phs: seq<Phdr>, buf: seq<bv8>, table: PageMap, ram: seq<bv8>,
                        used: seq<bool>, regions: seq<Region>, memStart: nat)
    requires ImageOk(phs, buf, map[], table, ram, used, L.RunsOf(regions, memStart))
    requires L.Recorded(phs, regions, memStart) && memStart % 4096 == 0
    ensures F.MapRegions(map[], regions, |regions|) == Physical(table, memStart / 4096)
  {
    var m, p := F.MapRegions(map[], regions, |regions|), Physical(table, memStart / 4096);
    forall v: nat
      ensures SameEntry(m, p, v)
    {
      PageIsRecorded(phs, buf, table, ram, used, regions, memStart, v);
    }
    forall v
      ensures v in m <==> v in p
    {
      if v in m || v in p {
        assert SameEntry(m, p, v);
      }
    }
    assert m.Keys == p.Keys;
    forall v | v in m
      ensures m[v] == p[v]
    {
      assert SameEntry(m, p, v);
    }
  }

  lemma {:induction false} PageIsRecorded(phs: seq<Phdr>, buf: seq<bv8>, table: PageMap, ram: seq<bv8>, used: seq<bool>,
                       regions: seq<Region>, memStart: nat, v: nat)
    requires ImageOk(phs, buf, map[], table, ram, used, L.RunsOf(regions, memStart))
    requires L.Recorded(phs, regions, memStart) && memStart % 4096 == 0
    ensures SameEntry(F.MapRegions(map[], regions, |regions|), Physical(table, memStart / 4096), v)
  {
    var c := LastCover(phs, v);
    assert PageOk(phs, buf, map[], table, ram, used, L.RunsOf(regions, memStart), v);
    LastIsLast(regions, phs, memStart, v);
    if c > 0 {
      var n := Loads(phs[..c - 1]);
      RegionIsSegment(regions, phs, memStart, c - 1, v);
      F.RegionsAt(regions, |regions|, n, v);
      assert regions[n].phys / 4096 == memStart / 4096 + L.RunOf(regions[n], memStart).start;
    } else {
      F.RegionsAt(regions, |regions|, 0, v);
    }
  }

  // ---- the task ----

  /** The page table of a task: its image, then its stack, the stack pages grown since, the thread-local
      page and the pages its regions have faulted in. */
  function TaskTable(l: F.Layout, t: F.Task, image: PageMap): PageMap {
    var stack := MapRun(image, l.stackPage, t.stack, l.stackPages, F.STACK_FLAGS);
    var tls := MapRun(F.MapGrown(stack, t.grown, |t.grown|), l.tlsPage, t.tls, 1, F.STACK_FLAGS);
    F.MapVmas(tls, t.vmas, |t.vmas|)
  }

  /** The task runs the program elf_load left in memory. */
  ghost predicate Runs(l: F.Layout, t: F.Task, buf: seq<bv8>, img: L.Image, used0: seq<bool>, table: PageMap,
                       ram: seq<bv8>, used: seq<bool>, memStart: nat) {
    && Acceptable(buf) && L.Loaded(buf, img, map[], used0, table, ram, used, memStart) && memStart % 4096 == 0
    && t.regions == img.regions && t.table == TaskTable(l, t, Physical(table, memStart / 4096))
  }

  /** Table and records of such a task agree on every page. */
  lemma {:induction false} RunsAsRecorded(l: F.Layout, t: F.Task, buf: seq<bv8>, img: L.Image, used0: seq<bool>,
                       table: PageMap, ram: seq<bv8>, used: seq<bool>, memStart: nat, mem: F.Memory, v: nat)
    requires Runs(l, t, buf, img, used0, table, ram, used, memStart)
    ensures t.table == F.Recorded(l, t) && F.AsRecorded(l, t, mem, v)
  {
    ImageIsRecorded(Phdrs(buf), buf, table, ram, used, img.regions, memStart);
  }

  /** So its fork is a copy of it: every page but the thread-local one is in the child at the same address,
      with the same rights and the same contents, and no other page is. */
  lemma {:induction false} ExecForkIsExact(l: F.Layout, parent: F.Task, child: F.Task, buf: seq<bv8>, img: L.Image,
                        used0: seq<bool>, table: PageMap, ram: seq<bv8>, used1: seq<bool>, memStart: nat, mem: F.Memory,
                        used: set<nat>, mem': F.Memory, v: nat)
    requires Runs(l, parent, buf, img, used0, table, ram, used1, memStart)
    requires F.RecordsOk(l, parent, used) && F.Forked(l, parent, child, mem, used, mem') && !F.Blank(l, parent, v)
    ensures F.SamePage(parent, child, mem', v)
  {
    RunsAsRecorded(l, parent, buf, img, used0, table, ram, used1, memStart, mem, v);
    F.CopyExactly(l, parent, child, mem, used, mem', v);
  }

  /** In particular a page of a segment is in the child at the address the file gives it, with the
      segment's rights and what the loader's frame has there, unless a later segment or another record
      covers it. */
  lemma {:induction false} SegmentIsCopied(l: F.Layout, parent: F.Task, child: F.Task, phs: seq<Phdr>, buf: seq<bv8>,
                                           table: PageMap, ram: seq<bv8>, used1: seq<bool>, memStart: nat,
                                           mem: F.Memory, used: set<nat>, mem': F.Memory, i: nat, v: nat)
    requires ImageOk(phs, buf, map[], table, ram, used1, L.RunsOf(parent.regions, memStart))
    requires L.Recorded(phs, parent.regions, memStart) && memStart % 4096 == 0
    requires F.RecordsOk(l, parent, used) && F.Forked(l, parent, child, mem, used, mem')
    requires i < |phs| && phs[i].kind == PT_LOAD && NotOverlaid(phs, i, v)
    requires phs[i].vaddr / PAGE <= v && v * PAGE < phs[i].vaddr + phs[i].memsz && F.ImageShows(l, parent, v)
    ensures v in table && v in child.table && child.table[v].flags == PflagsToPte(phs[i].flags)
    ensures F.PageAt(mem', child.table[v].pfn) == F.PageAt(mem, memStart / 4096 + table[v].pfn)
  {
    SegmentRecorded(phs, buf, table, ram, used1, parent.regions, memStart, i, v);
    SegmentShows(l, parent, v);
    F.CopiedAsRecorded(l, parent, child, mem, used, mem', v);
  }

  lemma {:induction false} SegmentRecorded(phs: seq<Phdr>, buf: seq<bv8>, table: PageMap, ram: seq<bv8>,
                                           used: seq<bool>, regions: seq<Region>, memStart: nat, i: nat, v: nat)
    requires ImageOk(phs, buf, map[], table, ram, used, L.RunsOf(regions, memStart))
    requires L.Recorded(phs, regions, memStart) && memStart % 4096 == 0
    requires i < |phs| && phs[i].kind == PT_LOAD && NotOverlaid(phs, i, v)
    requires phs[i].vaddr / PAGE <= v && v * PAGE < phs[i].vaddr + phs[i].memsz
    ensures v in table && |regions| > 0 && v in F.MapRegions(map[], regions, |regions|)
    ensures F.MapRegions(map[], regions, |regions|)[v]
            == Leaf(memStart / 4096 + table[v].pfn, PflagsToPte(phs[i].flags))
  {
    assert Covers(phs[i], v);
    LastOne(phs, i, v);
    RegionIsSegment(regions, phs, memStart, i, v);
    assert PageOk(phs, buf, map[], table, ram, used, L.RunsOf(regions, memStart), v);
    PageIsRecorded(phs, buf, table, ram, used, regions, memStart, v);
  }

  lemma {:induction false} SegmentShows(l: F.Layout, t: F.Task, v: nat)
    requires F.ImageShows(l, t, v) && |t.regions| > 0
    ensures SameEntry(F.MapRegions(map[], t.regions, |t.regions|), F.Recorded(l, t), v)
  {
    F.VmasAt(F.UpToTls(l, t), t.vmas, |t.vmas|, 0, 0, v);
    F.BelowVmas(l, t, v, 0);
  }
}
