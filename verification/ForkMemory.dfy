/** The memory half of sched_fork (src/sched/sched.c) when no allocation fails. It works from the
    parent's records: the program's segments, the stack, the stack pages grown on demand and the mapped
    regions are copied into fresh frames and mapped where the records say; the kernel text window is
    shared, read-only for the child. The parent's page table is never looked at. */
module ForkMemory {
  import Descriptors
  import ElfFile
  import opened UserMaps

  /** A physical page's contents. */
  datatype Page = Page(bytes: seq<nat>)

  function ZeroPage(): (z: Page)
    ensures |z.bytes| == 4096 && forall i | 0 <= i < 4096 :: z.bytes[i] == 0
  {
    Page(seq(4096, i => 0))
  }

  datatype Grown = Grown(frame: nat, page: nat)

  /** A mapped region; frame 0 stands for a page not faulted in yet. */
  datatype Vma = Vma(start: nat, prot: bv32, frames: seq<nat>)

  datatype Task = Task(regions: seq<Region>, stack: nat, grown: seq<Grown>, vmas: seq<Vma>, tls: nat, table: PageMap)

  /** The fixed user layout, in pages, and the frames of the shared text window. */
  datatype Layout = Layout(textPage: nat, textFrame: nat, textPages: nat, stackPage: nat, stackPages: nat, tlsPage: nat)

  // ATTRIDX(1) | AP_RO_EL0 | PXN, and ATTRIDX(1) | AP_RW_EL0 | UXN | PXN
  const TEXT_FLAGS: bv64 := 0x0020_0000_0000_00C4
  const STACK_FLAGS: bv64 := 0x0060_0000_0000_0044

  /** The AP field lets EL0 write. */
  predicate MayWrite(flags: bv64) {
    flags & 0xC0 == 0x40
  }

  lemma RightsInLeaf(pa: Descriptors.Frame, flags: bv64)
    requires flags & 0x0060_0000_0000_00CC == flags
    ensures Descriptors.UserMayWrite(Descriptors.LeafDescriptor(pa, flags)) <==> MayWrite(flags)
  {
  }

  type Memory = map<nat, Page>

  function PageAt(mem: Memory, f: nat): Page {
    if f in mem then mem[f] else ZeroPage()
  }

  ghost predicate InRun(v: nat, page: nat, pages: nat) {
    page <= v < page + pages
  }

  // ---- what a task's records map, each record over the ones before it ----

  function PageOf(r: Region): nat {
    r.va / 4096
  }

  function FrameOf(r: Region): nat {
    r.phys / 4096
  }

  function MapRegions(m: PageMap, rs: seq<Region>, n: nat): PageMap
    requires n <= |rs|
  {
    if n == 0 then m
    else
      var r := rs[n - 1];
      MapRun(MapRegions(m, rs, n - 1), PageOf(r), FrameOf(r), r.pages, ElfFile.PflagsToPte(r.flags))
  }

  function MapGrown(m: PageMap, gs: seq<Grown>, n: nat): PageMap
    requires n <= |gs|
  {
    if n == 0 then m
    else if gs[n - 1].frame == 0 then MapGrown(m, gs, n - 1)
    else MapRun(MapGrown(m, gs, n - 1), gs[n - 1].page, gs[n - 1].frame, 1, STACK_FLAGS)
  }

  /** The first n pages of a region. */
  function MapFrames(m: PageMap, v: Vma, n: nat): PageMap
    requires n <= |v.frames|
  {
    if n == 0 then m
    else if v.frames[n - 1] == 0 then MapFrames(m, v, n - 1)
    else MapRun(MapFrames(m, v, n - 1), v.start + n - 1, v.frames[n - 1], 1, Descriptors.ProtToFlags(v.prot))
  }

  function MapVmas(m: PageMap, vs: seq<Vma>, n: nat): PageMap
    requires n <= |vs|
  {
    if n == 0 then m else MapFrames(MapVmas(m, vs, n - 1), vs[n - 1], |vs[n - 1].frames|)
  }

  function Image(l: Layout, t: Task): PageMap {
    if |t.regions| > 0 then MapRegions(map[], t.regions, |t.regions|)
    else MapRun(map[], l.textPage, l.textFrame, l.textPages, TEXT_FLAGS)
  }

  function UpToStack(l: Layout, t: Task): PageMap {
    MapRun(Image(l, t), l.stackPage, t.stack, l.stackPages, STACK_FLAGS)
  }

  function UpToTls(l: Layout, t: Task): PageMap {
    MapRun(MapGrown(UpToStack(l, t), t.grown, |t.grown|), l.tlsPage, t.tls, 1, STACK_FLAGS)
  }

  /** Everything the records map. */
  function Recorded(l: Layout, t: Task): PageMap {
    MapVmas(UpToTls(l, t), t.vmas, |t.vmas|)
  }

  // ---- what fork needs of the parent ----

  /** Every frame of the run is in use. */
  ghost predicate RunUsed(frame: nat, pages: nat, used: set<nat>) {
    forall f: nat | InRun(f, frame, pages) :: f in used
  }

  ghost predicate LeafOk(t: Task, used: set<nat>, v: nat) {
    v in t.table ==> t.table[v].pfn in used
  }

  /** The frames that records and leaves name are in use. Records and leaves need not agree. */
  ghost predicate RecordsOk(l: Layout, t: Task, used: set<nat>) {
    && (forall i {:trigger t.regions[i]} | 0 <= i < |t.regions| ::
          RunUsed(FrameOf(t.regions[i]), t.regions[i].pages, used))
    && RunUsed(t.stack, l.stackPages, used) && RunUsed(l.textFrame, l.textPages, used)
    && (forall g {:trigger t.grown[g]} | 0 <= g < |t.grown| && t.grown[g].frame != 0 :: t.grown[g].frame in used)
    && (forall i, k {:trigger t.vmas[i].frames[k]} | 0 <= i < |t.vmas| && 0 <= k < |t.vmas[i].frames|
          && t.vmas[i].frames[k] != 0 :: t.vmas[i].frames[k] in used)
    && (forall v {:trigger LeafOk(t, used, v)} | v in t.table :: LeafOk(t, used, v))
  }

  // ---- what fork has built so far ----

  ghost predicate SharedText(l: Layout, rec: Leaf, leaf: Leaf) {
    leaf == rec && leaf.flags == TEXT_FLAGS && InRun(leaf.pfn, l.textFrame, l.textPages)
  }

  /** One child page against the parent's record of it: the same rights, and the recorded frame's
      contents in a frame of its own (zeros, on a blank page), or else the read-only text frame itself. */
  ghost predicate Copied(l: Layout, rec: Leaf, leaf: Leaf, blank: bool, mem: Memory, used: set<nat>, mem': Memory) {
    && leaf.flags == rec.flags
    && (SharedText(l, rec, leaf)
        || (leaf.pfn !in used && PageAt(mem', leaf.pfn) == if blank then ZeroPage() else PageAt(mem, rec.pfn)))
  }

  ghost predicate CopiedAt(l: Layout, rec: PageMap, blank: set<nat>, mem: Memory, used: set<nat>, table: PageMap,
                           mem': Memory, used': set<nat>, v: nat) {
    v in table ==> v in rec && Copied(l, rec[v], table[v], v in blank, mem, used, mem') && table[v].pfn in used'
  }

  /** The child's table so far maps the pages the parent's records so far map, each as such a copy, no
      two in the same frame; and the frames in use before have not changed. */
  ghost predicate Building(l: Layout, rec: PageMap, blank: set<nat>, mem: Memory, used: set<nat>, table: PageMap,
                           mem': Memory, used': set<nat>) {
    && mem.Keys == used && mem'.Keys == used' && used <= used' && rec.Keys == table.Keys
    && (forall f {:trigger PageAt(mem', f)} | f in used :: PageAt(mem', f) == PageAt(mem, f))
    && (forall v {:trigger CopiedAt(l, rec, blank, mem, used, table, mem', used', v)} ::
       CopiedAt(l, rec, blank, mem, used, table, mem', used', v))
    && Unshared(table)
  }

  /** No two pages share a frame. */
  ghost predicate Unshared(table: PageMap) {
    forall v, w {:trigger table[v], table[w]} | v in table && w in table && v != w :: table[v].pfn != table[w].pfn
  }

  ghost predicate NoLeafTo(table: PageMap, pfn: nat) {
    forall v {:trigger table[v]} | v in table :: table[v].pfn != pfn
  }

  /** One more page, recorded by the parent and mapped for the child. */
  lemma AddPage(l: Layout, rec: PageMap, blank: set<nat>, mem: Memory, used: set<nat>, table: PageMap, mem': Memory,
                used': set<nat>,
                v: nat, src: Leaf, leaf: Leaf, zero: bool)
    requires Building(l, rec, blank, mem, used, table, mem', used') && Copied(l, src, leaf, zero, mem, used, mem')
             && leaf.pfn in used'
    requires NoLeafTo(table, leaf.pfn)
    ensures Building(l, rec[v := src], if zero then blank + {v} else blank - {v}, mem, used, table[v := leaf], mem',
            used')
  {
    var rec', table', blank' := rec[v := src], table[v := leaf], if zero then blank + {v} else blank - {v};
    forall w
      ensures CopiedAt(l, rec', blank', mem, used, table', mem', used', w)
    {
      assert CopiedAt(l, rec, blank, mem, used, table, mem', used', w);
    }
  }

  /** The machine's memory may change in frames that are not in use yet. */
  lemma MemoryGrows(l: Layout, rec: PageMap, blank: set<nat>, mem: Memory, used: set<nat>, table: PageMap, mem1: Memory,
                    used1: set<nat>,
                    mem2: Memory, used2: set<nat>)
    requires Building(l, rec, blank, mem, used, table, mem1, used1) && mem2.Keys == used2 && used1 <= used2
    requires forall f {:trigger PageAt(mem2, f)} | f in used1 :: PageAt(mem2, f) == PageAt(mem1, f)
    ensures Building(l, rec, blank, mem, used, table, mem2, used2)
  {
    forall v
      ensures CopiedAt(l, rec, blank, mem, used, table, mem2, used2, v)
    {
      assert CopiedAt(l, rec, blank, mem, used, table, mem1, used1, v);
    }
  }

  /** The k-th frame of a run is new and holds a copy of the k-th frame of the source. */
  ghost predicate FreshCopy(mem: Memory, used: set<nat>, mem': Memory, used': set<nat>, src: nat, frame: nat, k: nat) {
    frame + k !in used && frame + k in used' && PageAt(mem', frame + k) == PageAt(mem, src + k)
  }

  ghost predicate FreshRun(mem: Memory, used: set<nat>, mem': Memory, used': set<nat>, src: nat, frame: nat,
                           pages: nat) {
    forall k {:trigger FreshCopy(mem, used, mem', used', src, frame, k)} | 0 <= k < pages ::
      FreshCopy(mem, used, mem', used', src, frame, k)
  }

  /** No page mapped so far is in this run of frames. */
  ghost predicate Elsewhere(table: PageMap, frame: nat, pages: nat) {
    forall v {:trigger table[v]} | v in table :: !InRun(table[v].pfn, frame, pages)
  }

  ghost function Less(blank: set<nat>, page: nat, pages: nat): set<nat> {
    set v | v in blank && !InRun(v, page, pages)
  }

  /** A run of fresh frames holding copies, mapped where the parent's record has the originals. */
  lemma {:induction false} AddRun(l: Layout, rec: PageMap, blank: set<nat>, mem: Memory, used: set<nat>, table: PageMap,
                                  mem': Memory, used': set<nat>,
                                  page: nat, src: nat, frame: nat, pages: nat, flags: bv64)
    requires Building(l, rec, blank, mem, used, table, mem', used')
    requires FreshRun(mem, used, mem', used', src, frame, pages) && Elsewhere(table, frame, pages)
    ensures Building(l, MapRun(rec, page, src, pages, flags), Less(blank, page, pages), mem, used,
            MapRun(table, page, frame, pages, flags), mem', used')
  {
    if pages == 0 {
      assert Less(blank, page, 0) == blank;
    } else {
      var n := pages - 1;
      assert Elsewhere(table, frame, n);
      AddRun(l, rec, blank, mem, used, table, mem', used', page, src, frame, n, flags);
      assert FreshCopy(mem, used, mem', used', src, frame, n);
      NotYetThere(table, page, frame, n, flags);
      var rec1, table1, blank1 := MapRun(rec, page, src, n, flags), MapRun(table, page, frame, n, flags),
        Less(blank, page, n);
      assert blank1 - {page + n} == Less(blank, page, pages);
      assert MapRun(rec, page, src, pages, flags) == rec1[page + n := Leaf(src + n, flags)];
      assert MapRun(table, page, frame, pages, flags) == table1[page + n := Leaf(frame + n, flags)];
      AddPage(l, rec1, blank1, mem, used, table1, mem', used', page + n, Leaf(src + n, flags), Leaf(frame + n, flags),
        false);
    }
  }

  lemma NotYetThere(table: PageMap, page: nat, frame: nat, n: nat, flags: bv64)
    requires Elsewhere(table, frame, n + 1)
    ensures NoLeafTo(MapRun(table, page, frame, n, flags), frame + n)
  {
    var t := MapRun(table, page, frame, n, flags);
    forall v {:trigger t[v]} | v in t
      ensures t[v].pfn != frame + n
    {
      MapRunLookup(table, page, frame, n, flags, v);
    }
  }

  /** The shared text window: the record and the child's mapping are the same. */
  lemma {:induction false} AddText(l: Layout, mem: Memory, used: set<nat>, mem': Memory, used': set<nat>, n: nat)
    requires RunUsed(l.textFrame, l.textPages, used) && n <= l.textPages
             && Building(l, map[], {}, mem, used, map[], mem', used')
    ensures var m := MapRun(map[], l.textPage, l.textFrame, n, TEXT_FLAGS); Building(l, m, {}, mem, used, m, mem',
            used')
  {
    if n > 0 {
      AddText(l, mem, used, mem', used', n - 1);
      var m, leaf := MapRun(map[], l.textPage, l.textFrame, n - 1, TEXT_FLAGS), Leaf(l.textFrame + (n - 1), TEXT_FLAGS);
      NotYetThere(map[], l.textPage, l.textFrame, n - 1, TEXT_FLAGS);
      assert InRun(leaf.pfn, l.textFrame, l.textPages);
      AddPage(l, m, {}, mem, used, m, mem', used', l.textPage + (n - 1), leaf, leaf, false);
      assert {} - {l.textPage + (n - 1)} == {};
    }
  }

  /** Frames just allocated are in no page mapped so far. */
  lemma FreshElsewhere(l: Layout, rec: PageMap, blank: set<nat>, mem: Memory, used: set<nat>, table: PageMap,
                       mem1: Memory, used1: set<nat>, frame: nat, pages: nat)
    requires Building(l, rec, blank, mem, used, table, mem1, used1)
    requires forall f: nat | InRun(f, frame, pages) :: f !in used1
    ensures Elsewhere(table, frame, pages)
  {
    forall v {:trigger table[v]} | v in table
      ensures !InRun(table[v].pfn, frame, pages)
    {
      assert CopiedAt(l, rec, blank, mem, used, table, mem1, used1, v);
    }
  }

  lemma RunIsFresh(mem: Memory, used: set<nat>, mem1: Memory, used1: set<nat>, mem2: Memory, used2: set<nat>, src: nat,
                   frame: nat, pages: nat)
    requires used <= used1 && (forall f {:trigger PageAt(mem1, f)} | f in used :: PageAt(mem1, f) == PageAt(mem, f))
    requires forall f: nat | InRun(f, frame, pages) :: f !in used1 && f in used2
    requires RunUsed(src, pages, used)
    requires forall f: nat | InRun(f, frame, pages) :: PageAt(mem2, f) == PageAt(mem1, src + (f - frame))
    ensures FreshRun(mem, used, mem2, used2, src, frame, pages)
  {
    forall k {:trigger FreshCopy(mem, used, mem2, used2, src, frame, k)} | 0 <= k < pages
      ensures FreshCopy(mem, used, mem2, used2, src, frame, k)
    {
      assert InRun(frame + k, frame, pages) && InRun(src + k, src, pages);
      assert PageAt(mem1, src + k) == PageAt(mem, src + k);
    }
  }

  // ---- the copy loops ----

  /** Some frame number above all of them. */
  method FirstAbove(s: set<nat>) returns (n: nat)
    ensures n > 0 && forall x | x in s :: x < n
  {
    n := 1;
    var rest := s;
    while rest != {}
      invariant n > 0 && rest <= s && forall x | x in s && x !in rest :: x < n
      decreases |rest|
    {
      var x :| x in rest;
      if x >= n {
        n := x + 1;
      }
      rest := rest - {x};
    }
  }

  class Machine {
    var mem: Memory
    // frames in use: the parent's, the kernel's, and those handed out since
    var used: set<nat>

    ghost predicate Valid()
      reads this
    {
      mem.Keys == used
    }

    /** pmm_allocate_pages, when it succeeds: a run of frames nobody uses. */
    method Allocate(pages: nat) returns (frame: nat)
      requires Valid()
      modifies this
      ensures Valid() && frame > 0 && old(used) <= used
      ensures forall f: nat | InRun(f, frame, pages) :: f !in old(used)
      ensures forall f :: f in used <==> f in old(used) || InRun(f, frame, pages)
      ensures forall f | f in old(used) :: PageAt(mem, f) == PageAt(old(mem), f)
      ensures forall f: nat | InRun(f, frame, pages) :: PageAt(mem, f) == ZeroPage()
    {
      frame := FirstAbove(used);
      var i := 0;
      while i < pages
        invariant 0 <= i <= pages && Valid() && old(used) <= used
        invariant forall f :: f in used <==> f in old(used) || InRun(f, frame, i)
        invariant forall f | f in old(used) :: f < frame && PageAt(mem, f) == PageAt(old(mem), f)
        invariant forall f: nat | InRun(f, frame, i) :: PageAt(mem, f) == ZeroPage()
      {
        ghost var mem1 := mem;
        mem := mem[frame + i := ZeroPage()];
        used := used + {frame + i};
        forall f: nat | InRun(f, frame, i + 1)
          ensures PageAt(mem, f) == ZeroPage()
        {
          assert f == frame + i || (InRun(f, frame, i) && PageAt(mem, f) == PageAt(mem1, f));
        }
        i := i + 1;
      }
    }

    /** memcpy of whole pages between runs of frames. */
    method Copy(dst: nat, src: nat, pages: nat, ghost before: set<nat>)
      requires Valid() && before <= used
      requires forall f: nat | InRun(f, dst, pages) :: f in used && f !in before
      requires RunUsed(src, pages, before)
      modifies `mem
      ensures Valid() && forall f | f in before :: PageAt(mem, f) == PageAt(old(mem), f)
      ensures forall f: nat | InRun(f, dst, pages) :: PageAt(mem, f) == PageAt(old(mem), src + (f - dst))
    {
      var i := 0;
      while i < pages
        invariant 0 <= i <= pages && Valid()
        invariant forall f: nat | InRun(f, dst, i) :: PageAt(mem, f) == PageAt(old(mem), src + (f - dst))
        invariant forall f | f in before :: PageAt(mem, f) == PageAt(old(mem), f)
      {
        assert InRun(src + i, src, pages) && InRun(dst + i, dst, pages);
        assert PageAt(mem, src + i) == PageAt(old(mem), src + i);
        mem := mem[dst + i := mem[src + i]];
        forall f: nat | InRun(f, dst, i + 1)
          ensures PageAt(mem, f) == PageAt(old(mem), src + (f - dst))
        {
          assert f == dst + i || InRun(f, dst, i);
        }
        i := i + 1;
      }
    }

    /** Allocate, copy, map: one contiguous piece of the parent's memory at its own address. */
    method CopyRun(l: Layout, ghost rec: PageMap, ghost blank: set<nat>, table: PageMap, page: nat, src: nat,
                   pages: nat, flags: bv64,
                   ghost mem0: Memory, ghost used0: set<nat>) returns (frame: nat, table': PageMap)
      requires Building(l, rec, blank, mem0, used0, table, mem, used) && RunUsed(src, pages, used0)
      modifies this
      ensures Building(l, MapRun(rec, page, src, pages, flags), Less(blank, page, pages), mem0, used0, table', mem,
              used)
      ensures table' == MapRun(table, page, frame, pages, flags) && frame > 0
      ensures old(used) <= used && RunUsed(frame, pages, used) && Unused(frame, pages, used0)
    {
      frame := Allocate(pages);
      FreshElsewhere(l, rec, blank, mem0, used0, table, old(mem), old(used), frame, pages);
      Copy(frame, src, pages, old(used));
      MemoryGrows(l, rec, blank, mem0, used0, table, old(mem), old(used), mem, used);
      RunIsFresh(mem0, used0, old(mem), old(used), mem, used, src, frame, pages);
      AddRun(l, rec, blank, mem0, used0, table, mem, used, page, src, frame, pages, flags);
      table' := MapRun(table, page, frame, pages, flags);
    }

    /** The program image: every PT_LOAD segment copied, or the shared text window mapped. */
    method CopyImage(l: Layout, parent: Task, ghost mem0: Memory, ghost used0: set<nat>)
      returns (regions: seq<Region>, table: PageMap)
      requires RecordsOk(l, parent, used0) && Building(l, map[], {}, mem0, used0, map[], mem, used)
      modifies this
      ensures Building(l, Image(l, parent), {}, mem0, used0, table, mem, used) && old(used) <= used
      ensures |regions| == |parent.regions| && RegionsCopied(parent.regions, regions, |regions|, used0, used)
      ensures table == if |regions| > 0 then MapRegions(map[], regions, |regions|)
              else MapRun(map[], l.textPage, l.textFrame, l.textPages, TEXT_FLAGS)
    {
      regions, table := [], map[];
      if |parent.regions| > 0 {
        var i := 0;
        while i < |parent.regions|
          invariant 0 <= i == |regions| <= |parent.regions| && old(used) <= used
          invariant Building(l, MapRegions(map[], parent.regions, i), {}, mem0, used0, table, mem, used)
          invariant table == MapRegions(map[], regions, i) && RegionsCopied(parent.regions, regions, i, used0, used)
        {
          var src := parent.regions[i];
          ghost var before := used;
          var frame;
          frame, table := CopyRun(l, MapRegions(map[], parent.regions, i), {}, table, PageOf(src), FrameOf(src),
            src.pages,
                                  ElfFile.PflagsToPte(src.flags), mem0, used0);
          assert Less({}, PageOf(src), src.pages) == {};
          OneMoreRegion(parent.regions, regions, src, frame, used0, before, used);
          regions := regions + [Region(frame * 4096, src.pages, src.va, src.flags)];
          i := i + 1;
        }
      } else {
        AddText(l, mem0, used0, mem, used, l.textPages);
        table := MapRun(map[], l.textPage, l.textFrame, l.textPages, TEXT_FLAGS);
      }
    }

    /** The stack pages the parent grew on demand, each at the address recorded for it. */
    method CopyGrown(l: Layout, parent: Task, ghost rec: PageMap, before: PageMap, ghost mem0: Memory,
                     ghost used0: set<nat>)
      returns (grown: seq<Grown>, table: PageMap)
      requires RecordsOk(l, parent, used0) && Building(l, rec, {}, mem0, used0, before, mem, used)
      modifies this
      ensures Building(l, MapGrown(rec, parent.grown, |parent.grown|), {}, mem0, used0, table, mem, used)
              && old(used) <= used
      ensures table == MapGrown(before, grown, |grown|) && GrownCopied(parent.grown, |parent.grown|, grown, used0, used)
    {
      grown, table := [], before;
      var g := 0;
      while g < |parent.grown|
        invariant 0 <= g <= |parent.grown| && old(used) <= used
        invariant Building(l, MapGrown(rec, parent.grown, g), {}, mem0, used0, table, mem, used)
        invariant table == MapGrown(before, grown, |grown|) && GrownCopied(parent.grown, g, grown, used0, used)
      {
        var src := parent.grown[g];
        if src.frame != 0 {
          ghost var used1 := used;
          var frame;
          frame, table := CopyRun(l, MapGrown(rec, parent.grown, g), {}, table, src.page, src.frame, 1, STACK_FLAGS,
            mem0, used0);
          assert Less({}, src.page, 1) == {};
          OneMoreGrown(before, parent.grown, g, grown, frame, used0, used1, used);
          grown := grown + [Grown(frame, src.page)];
        }
        g := g + 1;
      }
    }

    /** A fresh, zeroed thread-local page. */
    method NewTls(l: Layout, ghost rec: PageMap, ghost tls0: nat, before: PageMap, ghost mem0: Memory,
                  ghost used0: set<nat>)
      returns (tls: nat, table: PageMap)
      requires Building(l, rec, {}, mem0, used0, before, mem, used)
      modifies this
      ensures Building(l, MapRun(rec, l.tlsPage, tls0, 1, STACK_FLAGS), {l.tlsPage}, mem0, used0, table, mem, used)
              && old(used) <= used
      ensures table == MapRun(before, l.tlsPage, tls, 1, STACK_FLAGS) && tls !in used0
    {
      tls := Allocate(1);
      assert InRun(tls, tls, 1);
      FreshElsewhere(l, rec, {}, mem0, used0, before, old(mem), old(used), tls, 1);
      assert NoLeafTo(before, tls);
      MemoryGrows(l, rec, {}, mem0, used0, before, old(mem), old(used), mem, used);
      AddPage(l, rec, {}, mem0, used0, before, mem, used, l.tlsPage, Leaf(tls0, STACK_FLAGS), Leaf(tls, STACK_FLAGS),
        true);
      assert {} + {l.tlsPage} == {l.tlsPage};
      OneIsOne(rec, l.tlsPage, tls0, STACK_FLAGS);
      OneIsOne(before, l.tlsPage, tls, STACK_FLAGS);
      table := MapRun(before, l.tlsPage, tls, 1, STACK_FLAGS);
    }

    /** One region's pages: those faulted in are copied, the others stay absent. */
    method CopyVma(l: Layout, parent: Task, i: nat, ghost rec: PageMap, ghost blank: set<nat>, before: PageMap,
                   ghost mem0: Memory, ghost used0: set<nat>)
      returns (frames: seq<nat>, table: PageMap, ghost blank': set<nat>)
      requires RecordsOk(l, parent, used0) && i < |parent.vmas|
               && Building(l, rec, blank, mem0, used0, before, mem, used)
      modifies this
      ensures Building(l, MapFrames(rec, parent.vmas[i], |parent.vmas[i].frames|), blank', mem0, used0, table, mem,
              used) && old(used) <= used
      ensures |frames| == |parent.vmas[i].frames| && FramesCopied(parent.vmas[i].frames, frames, |frames|, used0, used)
      ensures table == MapFrames(before, parent.vmas[i].(frames := frames), |frames|)
      ensures forall v :: v in blank' <==> v in blank && !Backs(parent.vmas[i], |frames|, v)
    {
      var src := parent.vmas[i];
      frames, table, blank' := src.frames, before, blank;
      var k := 0;
      while k < |src.frames|
        invariant 0 <= k <= |src.frames| && old(used) <= used
        invariant Building(l, MapFrames(rec, src, k), blank', mem0, used0, table, mem, used)
        invariant PartCopied(src, frames, k, before, table, used0, used)
        invariant forall v :: v in blank' <==> v in blank && !Backs(src, k, v)
      {
        ghost var blank1 := blank';
        assert parent.vmas[i].frames[k] != 0 ==> parent.vmas[i].frames[k] in used0;
        frames, table, blank' := CopyFrame(l, src, k, frames, rec, blank1, before, table, mem0, used0);
        StillBlank(src, k, blank, blank1, blank');
        k := k + 1;
      }
    }

    /** The body of that loop. */
    method CopyFrame(l: Layout, src: Vma, k: nat, frames: seq<nat>, ghost rec: PageMap, ghost blank: set<nat>,
                     ghost before: PageMap,
                     table: PageMap, ghost mem0: Memory, ghost used0: set<nat>)
      returns (frames': seq<nat>, table': PageMap, ghost blank': set<nat>)
      requires k < |src.frames| && Building(l, MapFrames(rec, src, k), blank, mem0, used0, table, mem, used)
      requires PartCopied(src, frames, k, before, table, used0, used) && (src.frames[k] != 0 ==> src.frames[k] in used0)
      modifies this
      ensures Building(l, MapFrames(rec, src, k + 1), blank', mem0, used0, table', mem, used) && old(used) <= used
      ensures PartCopied(src, frames', k + 1, before, table', used0, used)
      ensures blank' == if src.frames[k] == 0 then blank else Less(blank, src.start + k, 1)
    {
      frames', table', blank' := frames, table, blank;
      if frames[k] != 0 {
        var frame;
        frame, table' := CopyRun(l, MapFrames(rec, src, k), blank, table, src.start + k, src.frames[k], 1,
          Descriptors.ProtToFlags(src.prot), mem0, used0);
        OneMoreFrame(before, src, frames, k, frame, used0, old(used), used);
        blank' := Less(blank, src.start + k, 1);
        frames' := frames[k := frame];
      } else {
        assert MapFrames(before, src.(frames := frames), k + 1) == table;
      }
    }

    /** Every region, cloned and then made private. */
    method CopyVmas(l: Layout, parent: Task, ghost rec: PageMap, ghost blank: set<nat>, before: PageMap,
                    ghost mem0: Memory, ghost used0: set<nat>)
      returns (vmas: seq<Vma>, table: PageMap, ghost blank': set<nat>)
      requires RecordsOk(l, parent, used0) && Building(l, rec, blank, mem0, used0, before, mem, used)
      modifies this
      ensures Building(l, MapVmas(rec, parent.vmas, |parent.vmas|), blank', mem0, used0, table, mem, used)
              && old(used) <= used
      ensures |vmas| == |parent.vmas| && VmasCopied(parent.vmas, vmas, |vmas|, used0, used)
      ensures table == MapVmas(before, vmas, |vmas|)
      ensures forall v :: v in blank' <==> v in blank && !InVmas(parent.vmas, |vmas|, v)
    {
      vmas, table, blank' := parent.vmas, before, blank;
      var i := 0;
      while i < |parent.vmas|
        invariant 0 <= i <= |parent.vmas| == |vmas| && old(used) <= used
        invariant Building(l, MapVmas(rec, parent.vmas, i), blank', mem0, used0, table, mem, used)
        invariant VmasCopied(parent.vmas, vmas, i, used0, used) && table == MapVmas(before, vmas, i)
        invariant forall v :: v in blank' <==> v in blank && !InVmas(parent.vmas, i, v)
      {
        ghost var used1, blank1 := used, blank';
        var frames;
        frames, table, blank' := CopyVma(l, parent, i, MapVmas(rec, parent.vmas, i), blank', table, mem0, used0);
        OneMoreVma(before, parent.vmas, vmas, i, frames, used0, used1, used);
        forall v
          ensures v in blank' <==> v in blank && !InVmas(parent.vmas, i + 1, v)
        {
          InVmasMore(parent.vmas, i, v);
        }
        vmas := vmas[i := parent.vmas[i].(frames := frames)];
        i := i + 1;
      }
    }

    /** The memory half of sched_fork. */
    method Fork(l: Layout, parent: Task) returns (child: Task)
      requires Valid() && RecordsOk(l, parent, used)
      modifies this
      ensures Valid() && Forked(l, parent, child, old(mem), old(used), mem)
      ensures OwnRecords(l, parent, child, old(used), used) && child.table == Recorded(l, child)
      ensures RecordsOk(l, child, used) && (NoSharedWrites(parent, child) <==> TextGuarded(l, parent))
    {
      NothingBuilt(l, mem, used);
      var regions, table := CopyImage(l, parent, mem, used);
      ghost var used1 := used;
      var stack, table1 := CopyRun(l, Image(l, parent), {}, table, l.stackPage, parent.stack, l.stackPages, STACK_FLAGS,
        old(mem), old(used));
      assert Less({}, l.stackPage, l.stackPages) == {};
      ghost var used2 := used;
      var grown, table2 := CopyGrown(l, parent, UpToStack(l, parent), table1, old(mem), old(used));
      ghost var used3 := used;
      var tls, table3 := NewTls(l, MapGrown(UpToStack(l, parent), parent.grown, |parent.grown|), parent.tls, table2,
        old(mem), old(used));
      ghost var used4 := used;
      var vmas, table4;
      ghost var blank;
      vmas, table4, blank := CopyVmas(l, parent, UpToTls(l, parent), {l.tlsPage}, table3, old(mem), old(used));
      child := Task(regions, stack, grown, vmas, tls, table4);
      AllCopied(l, parent, child, old(used), used1, used2, used3, used4, used);
      ForkDone(l, parent, child, blank, old(mem), old(used), mem, used);
      SharedExactly(l, parent, child, old(used), used);
    }

    /** A fork of a child is always an exact and isolated copy, whatever the first parent had done to
        its page table. */
    method ForkTwice(l: Layout, parent: Task) returns (child: Task, grandchild: Task, ghost between: Memory)
      requires Valid() && RecordsOk(l, parent, used)
      modifies this
      ensures Forked(l, parent, child, old(mem), old(used), between)
      ensures Valid() && NoSharedWrites(child, grandchild)
      ensures forall v | !Blank(l, child, v) :: SamePage(child, grandchild, mem, v)
    {
      child := Fork(l, parent);
      between := mem;
      ghost var used1 := used;
      ChildGuarded(l, parent, child, old(used), used1);
      grandchild := Fork(l, child);
      forall v | !Blank(l, child, v)
        ensures SamePage(child, grandchild, mem, v)
      {
        assert AsRecorded(l, child, between, v);
        CopyExactly(l, child, grandchild, between, used1, mem, v);
      }
    }
  }

  // ---- what the copies are ----

  /** No frame of the run was in use before the fork. */
  ghost predicate Unused(frame: nat, pages: nat, used: set<nat>) {
    forall f: nat | InRun(f, frame, pages) :: f !in used
  }

  ghost predicate RegionCopied(src: Region, dst: Region, used0: set<nat>, used: set<nat>) {
    && dst == Region(FrameOf(dst) * 4096, src.pages, src.va, src.flags)
    && Unused(FrameOf(dst), dst.pages, used0) && RunUsed(FrameOf(dst), dst.pages, used)
  }

  ghost predicate RegionsCopied(src: seq<Region>, dst: seq<Region>, n: nat, used0: set<nat>, used: set<nat>) {
    n <= |src| && n <= |dst| && forall i {:trigger dst[i]} | 0 <= i < n :: RegionCopied(src[i], dst[i], used0, used)
  }

  lemma OneMoreRegion(src: seq<Region>, dst: seq<Region>, r: Region, frame: nat, used0: set<nat>, before: set<nat>,
                      used: set<nat>)
    requires |dst| < |src| && r == src[|dst|] && RegionsCopied(src, dst, |dst|, used0, before) && before <= used
    requires RunUsed(frame, r.pages, used) && Unused(frame, r.pages, used0)
    ensures var dst' := dst + [Region(frame * 4096, r.pages, r.va, r.flags)];
            && RegionsCopied(src, dst', |dst'|, used0, used)
            && MapRegions(map[], dst', |dst'|)
               == MapRun(MapRegions(map[], dst, |dst|), PageOf(r), frame, r.pages, ElfFile.PflagsToPte(r.flags))
  {
    SameRegions(map[], dst, dst + [Region(frame * 4096, r.pages, r.va, r.flags)], |dst|);
  }

  lemma {:induction false} SameRegions(m: PageMap, a: seq<Region>, b: seq<Region>, n: nat)
    requires n <= |a| && n <= |b| && a[..n] == b[..n]
    ensures MapRegions(m, a, n) == MapRegions(m, b, n)
  {
    if n > 0 {
      assert a[..n - 1] == a[..n][..n - 1] && b[..n - 1] == b[..n][..n - 1] && a[n - 1] == a[..n][n - 1]
        && b[n - 1] == b[..n][n - 1];
      SameRegions(m, a, b, n - 1);
    }
  }

  /** The child's grown pages are the parent's that have a frame, in order, each in a new frame. */
  ghost predicate GrownCopied(src: seq<Grown>, n: nat, dst: seq<Grown>, used0: set<nat>, used: set<nat>)
    requires n <= |src|
    decreases n
  {
    if n == 0 then dst == []
    else if src[n - 1].frame == 0 then GrownCopied(src, n - 1, dst, used0, used)
    else
      && dst != [] && dst[|dst| - 1].page == src[n - 1].page && dst[|dst| - 1].frame != 0
      && dst[|dst| - 1].frame !in used0 && dst[|dst| - 1].frame in used
         && GrownCopied(src, n - 1, dst[..|dst| - 1], used0, used)
  }

  lemma {:induction false} GrownStays(src: seq<Grown>, n: nat, dst: seq<Grown>, used0: set<nat>, used: set<nat>,
                                      used': set<nat>)
    requires n <= |src| && GrownCopied(src, n, dst, used0, used) && used <= used'
    ensures GrownCopied(src, n, dst, used0, used')
    decreases n
  {
    if n > 0 {
      GrownStays(src, n - 1, if src[n - 1].frame == 0 then dst else dst[..|dst| - 1], used0, used, used');
    }
  }

  lemma {:induction false} GrownUsed(src: seq<Grown>, n: nat, dst: seq<Grown>, used0: set<nat>, used: set<nat>, g: nat)
    requires n <= |src| && GrownCopied(src, n, dst, used0, used) && g < |dst|
    ensures dst[g].frame in used && dst[g].frame !in used0 && dst[g].frame != 0
    decreases n
  {
    if src[n - 1].frame == 0 {
      GrownUsed(src, n - 1, dst, used0, used, g);
    } else if g < |dst| - 1 {
      GrownUsed(src, n - 1, dst[..|dst| - 1], used0, used, g);
    }
  }

  lemma OneMoreGrown(m: PageMap, src: seq<Grown>, g: nat, dst: seq<Grown>, frame: nat, used0: set<nat>,
                     before: set<nat>, used: set<nat>)
    requires g < |src| && src[g].frame != 0 && GrownCopied(src, g, dst, used0, before) && before <= used
    requires frame > 0 && RunUsed(frame, 1, used) && Unused(frame, 1, used0)
    ensures var dst' := dst + [Grown(frame, src[g].page)];
            && GrownCopied(src, g + 1, dst', used0, used)
            && MapGrown(m, dst', |dst'|) == MapRun(MapGrown(m, dst, |dst|), src[g].page, frame, 1, STACK_FLAGS)
  {
    var dst' := dst + [Grown(frame, src[g].page)];
    assert InRun(frame, frame, 1);
    assert dst'[..|dst|] == dst;
    GrownStays(src, g, dst, used0, before, used);
    SameGrown(m, dst, dst', |dst|);
  }

  lemma {:induction false} SameGrown(m: PageMap, a: seq<Grown>, b: seq<Grown>, n: nat)
    requires n <= |a| && n <= |b| && a[..n] == b[..n]
    ensures MapGrown(m, a, n) == MapGrown(m, b, n)
  {
    if n > 0 {
      assert a[..n - 1] == a[..n][..n - 1] && b[..n - 1] == b[..n][..n - 1] && a[n - 1] == a[..n][n - 1]
        && b[n - 1] == b[..n][n - 1];
      SameGrown(m, a, b, n - 1);
    }
  }

  ghost predicate FramesCopied(src: seq<nat>, dst: seq<nat>, n: nat, used0: set<nat>, used: set<nat>)
    requires n <= |dst| == |src|
  {
    forall k {:trigger dst[k]} | 0 <= k < n ::
      if src[k] == 0 then dst[k] == 0 else dst[k] != 0 && dst[k] !in used0 && dst[k] in used
  }

  /** The first k pages of the region have been copied. */
  ghost predicate PartCopied(src: Vma, frames: seq<nat>, k: nat, before: PageMap, table: PageMap, used0: set<nat>,
                             used: set<nat>) {
    && k <= |src.frames| == |frames| && FramesCopied(src.frames, frames, k, used0, used)
    && (forall j | k <= j < |frames| :: frames[j] == src.frames[j])
       && table == MapFrames(before, src.(frames := frames), k)
  }

  lemma StillBlank(src: Vma, k: nat, blank: set<nat>, blank1: set<nat>, blank2: set<nat>)
    requires k < |src.frames| && forall v :: v in blank1 <==> v in blank && !Backs(src, k, v)
    requires blank2 == if src.frames[k] == 0 then blank1 else Less(blank1, src.start + k, 1)
    ensures forall v :: v in blank2 <==> v in blank && !Backs(src, k + 1, v)
  {
    forall v
      ensures v in blank2 <==> v in blank && !Backs(src, k + 1, v)
    {
      BacksMore(src, k, v);
    }
  }

  lemma OneMoreFrame(m: PageMap, v: Vma, frames: seq<nat>, k: nat, frame: nat, used0: set<nat>, before: set<nat>,
                     used: set<nat>)
    requires k < |v.frames| == |frames| && v.frames[k] != 0 && FramesCopied(v.frames, frames, k, used0, before)
             && before <= used
    requires frame > 0 && RunUsed(frame, 1, used) && Unused(frame, 1, used0)
    ensures FramesCopied(v.frames, frames[k := frame], k + 1, used0, used)
    ensures MapFrames(m, v.(frames := frames[k := frame]), k + 1)
         == MapRun(MapFrames(m, v.(frames := frames), k), v.start + k, frame, 1, Descriptors.ProtToFlags(v.prot))
  {
    assert InRun(frame, frame, 1);
    SameFrames(m, v.(frames := frames), v.(frames := frames[k := frame]), k);
  }

  lemma {:induction false} SameFrames(m: PageMap, v: Vma, w: Vma, n: nat)
    requires v.start == w.start && v.prot == w.prot && n <= |v.frames| && n <= |w.frames|
             && forall k | 0 <= k < n :: v.frames[k] == w.frames[k]
    ensures MapFrames(m, v, n) == MapFrames(m, w, n)
  {
    if n > 0 {
      SameFrames(m, v, w, n - 1);
    }
  }

  ghost predicate VmaCopied(src: Vma, dst: Vma, used0: set<nat>, used: set<nat>) {
    && dst == src.(frames := dst.frames) && |dst.frames| == |src.frames|
    && FramesCopied(src.frames, dst.frames, |dst.frames|, used0, used)
  }

  ghost predicate VmasCopied(src: seq<Vma>, dst: seq<Vma>, n: nat, used0: set<nat>, used: set<nat>) {
    n <= |dst| == |src| && forall i {:trigger dst[i]} | 0 <= i < n :: VmaCopied(src[i], dst[i], used0, used)
  }

  lemma OneMoreVma(m: PageMap, src: seq<Vma>, dst: seq<Vma>, i: nat, frames: seq<nat>, used0: set<nat>,
                   before: set<nat>, used: set<nat>)
    requires i < |src| == |dst| && VmasCopied(src, dst, i, used0, before) && before <= used
    requires |frames| == |src[i].frames| && FramesCopied(src[i].frames, frames, |frames|, used0, used)
    ensures var dst' := dst[i := src[i].(frames := frames)];
            && VmasCopied(src, dst', i + 1, used0, used)
            && MapVmas(m, dst', i + 1) == MapFrames(MapVmas(m, dst, i), src[i].(frames := frames), |frames|)
  {
    SameVmas(m, dst, dst[i := src[i].(frames := frames)], i);
  }

  lemma {:induction false} SameVmas(m: PageMap, a: seq<Vma>, b: seq<Vma>, n: nat)
    requires n <= |a| && n <= |b| && forall i | 0 <= i < n :: a[i] == b[i]
    ensures MapVmas(m, a, n) == MapVmas(m, b, n)
  {
    if n > 0 {
      SameVmas(m, a, b, n - 1);
    }
  }

  /** One of the first n pages of the region is p, and has a frame. */
  ghost predicate Backs(v: Vma, n: nat, p: nat)
    requires n <= |v.frames|
  {
    exists k :: 0 <= k < n && v.frames[k] != 0 && v.start + k == p
  }

  lemma BacksMore(v: Vma, k: nat, p: nat)
    requires k < |v.frames|
    ensures Backs(v, k + 1, p) <==> Backs(v, k, p) || (v.frames[k] != 0 && v.start + k == p)
  {
  }

  ghost predicate InVmas(vs: seq<Vma>, n: nat, p: nat)
    requires n <= |vs|
  {
    exists i :: 0 <= i < n && Backs(vs[i], |vs[i].frames|, p)
  }

  lemma InVmasMore(vs: seq<Vma>, i: nat, p: nat)
    requires i < |vs|
    ensures InVmas(vs, i + 1, p) <==> InVmas(vs, i, p) || Backs(vs[i], |vs[i].frames|, p)
  {
  }

  lemma OneIsOne(m: PageMap, page: nat, frame: nat, flags: bv64)
    ensures MapRun(m, page, frame, 1, flags) == m[page := Leaf(frame, flags)]
  {
    assert MapRun(m, page, frame, 0, flags) == m;
  }

  // ---- where the text window shows through ----

  ghost predicate InGrown(gs: seq<Grown>, n: nat, p: nat)
    requires n <= |gs|
  {
    exists g :: 0 <= g < n && gs[g].frame != 0 && gs[g].page == p
  }

  /** Page v is in the text window and no other record of the task lies over it. */
  ghost predicate TextShows(l: Layout, t: Task, v: nat) {
    && |t.regions| == 0 && InRun(v, l.textPage, l.textPages) && !InRun(v, l.stackPage, l.stackPages)
    && !InGrown(t.grown, |t.grown|, v) && v != l.tlsPage && !InVmas(t.vmas, |t.vmas|, v)
  }

  /** The records name no frame of this set. */
  ghost predicate OwnFrames(l: Layout, t: Task, used: set<nat>) {
    && (forall i {:trigger t.regions[i]} | 0 <= i < |t.regions| ::
          Unused(FrameOf(t.regions[i]), t.regions[i].pages, used))
    && Unused(t.stack, l.stackPages, used) && t.tls !in used
    && (forall g {:trigger t.grown[g]} | 0 <= g < |t.grown| && t.grown[g].frame != 0 :: t.grown[g].frame !in used)
    && (forall i, k {:trigger t.vmas[i].frames[k]} | 0 <= i < |t.vmas| && 0 <= k < |t.vmas[i].frames|
          && t.vmas[i].frames[k] != 0 :: t.vmas[i].frames[k] !in used)
  }

  ghost predicate OwnLeaf(table: PageMap, used: set<nat>, v: nat) {
    v in table && table[v].pfn !in used
  }

  lemma {:induction false} RegionsOwn(rs: seq<Region>, n: nat, used: set<nat>, v: nat)
    requires n <= |rs| && forall i | 0 <= i < n :: Unused(FrameOf(rs[i]), rs[i].pages, used)
    ensures v in MapRegions(map[], rs, n) ==> OwnLeaf(MapRegions(map[], rs, n), used, v)
  {
    if n > 0 {
      var r := rs[n - 1];
      RegionsOwn(rs, n - 1, used, v);
      MapRunLookup(MapRegions(map[], rs, n - 1), PageOf(r), FrameOf(r), r.pages, ElfFile.PflagsToPte(r.flags), v);
      if InRun(v, PageOf(r), r.pages) {
        assert InRun(FrameOf(r) + (v - PageOf(r)), FrameOf(r), r.pages);
      }
    }
  }

  lemma {:induction false} GrownOwn(m: PageMap, gs: seq<Grown>, n: nat, used: set<nat>, v: nat)
    requires n <= |gs| && forall g | 0 <= g < n && gs[g].frame != 0 :: gs[g].frame !in used
    ensures if InGrown(gs, n, v) then OwnLeaf(MapGrown(m, gs, n), used, v) else SameEntry(m, MapGrown(m, gs, n), v)
  {
    if n > 0 {
      GrownOwn(m, gs, n - 1, used, v);
      assert InGrown(gs, n, v) <==> InGrown(gs, n - 1, v) || (gs[n - 1].frame != 0 && gs[n - 1].page == v);
      if gs[n - 1].frame != 0 {
        MapRunLookup(MapGrown(m, gs, n - 1), gs[n - 1].page, gs[n - 1].frame, 1, STACK_FLAGS, v);
      }
    }
  }

  lemma {:induction false} FramesOwn(m: PageMap, r: Vma, n: nat, used: set<nat>, v: nat)
    requires n <= |r.frames| && forall k | 0 <= k < n && r.frames[k] != 0 :: r.frames[k] !in used
    ensures if Backs(r, n, v) then OwnLeaf(MapFrames(m, r, n), used, v) else SameEntry(m, MapFrames(m, r, n), v)
  {
    if n > 0 {
      FramesOwn(m, r, n - 1, used, v);
      BacksMore(r, n - 1, v);
      if r.frames[n - 1] != 0 {
        MapRunLookup(MapFrames(m, r, n - 1), r.start + n - 1, r.frames[n - 1], 1, Descriptors.ProtToFlags(r.prot), v);
      }
    }
  }

  lemma {:induction false} VmasOwn(m: PageMap, vs: seq<Vma>, n: nat, used: set<nat>, v: nat)
    requires n <= |vs| && forall i, k {:trigger vs[i].frames[k]} | 0 <= i < n && 0 <= k < |vs[i].frames|
               && vs[i].frames[k] != 0 :: vs[i].frames[k] !in used
    ensures if InVmas(vs, n, v) then OwnLeaf(MapVmas(m, vs, n), used, v) else SameEntry(m, MapVmas(m, vs, n), v)
  {
    if n > 0 {
      VmasOwn(m, vs, n - 1, used, v);
      InVmasMore(vs, n - 1, v);
      FramesOwn(MapVmas(m, vs, n - 1), vs[n - 1], |vs[n - 1].frames|, used, v);
    }
  }

  /** The recorded leaf where the text shows through is that of the text, and any other is to a frame that
      is not in the set. */
  lemma TextLeaf(l: Layout, t: Task, used: set<nat>, v: nat)
    requires OwnFrames(l, t, used)
    ensures TextShows(l, t, v) ==>
              v in Recorded(l, t) && Recorded(l, t)[v] == Leaf(l.textFrame + (v - l.textPage), TEXT_FLAGS)
    ensures v in Recorded(l, t) && !TextShows(l, t, v) ==> Recorded(l, t)[v].pfn !in used
  {
    if |t.regions| > 0 {
      RegionsOwn(t.regions, |t.regions|, used, v);
    } else {
      MapRunLookup(map[], l.textPage, l.textFrame, l.textPages, TEXT_FLAGS, v);
    }
    MapRunLookup(Image(l, t), l.stackPage, t.stack, l.stackPages, STACK_FLAGS, v);
    if InRun(v, l.stackPage, l.stackPages) {
      assert InRun(t.stack + (v - l.stackPage), t.stack, l.stackPages);
    }
    GrownOwn(UpToStack(l, t), t.grown, |t.grown|, used, v);
    MapRunLookup(MapGrown(UpToStack(l, t), t.grown, |t.grown|), l.tlsPage, t.tls, 1, STACK_FLAGS, v);
    VmasOwn(UpToTls(l, t), t.vmas, |t.vmas|, used, v);
  }

  lemma {:induction false} SameGrownPages(src: seq<Grown>, n: nat, dst: seq<Grown>, used0: set<nat>, used: set<nat>,
                                          v: nat)
    requires n <= |src| && GrownCopied(src, n, dst, used0, used)
    ensures InGrown(src, n, v) <==> InGrown(dst, |dst|, v)
    decreases n
  {
    if n > 0 {
      assert InGrown(src, n, v) <==> InGrown(src, n - 1, v) || (src[n - 1].frame != 0 && src[n - 1].page == v);
      if src[n - 1].frame == 0 {
        SameGrownPages(src, n - 1, dst, used0, used, v);
      } else {
        var last := |dst| - 1;
        SameGrownPages(src, n - 1, dst[..last], used0, used, v);
        GrownSplit(dst, v);
      }
    }
  }

  lemma GrownSplit(gs: seq<Grown>, v: nat)
    requires gs != []
    ensures var last := |gs| - 1;
            InGrown(gs, |gs|, v) <==> InGrown(gs[..last], last, v) || (gs[last].frame != 0 && gs[last].page == v)
  {
    var last := |gs| - 1;
    if InGrown(gs[..last], last, v) {
      var g :| 0 <= g < last && gs[..last][g].frame != 0 && gs[..last][g].page == v;
      assert gs[g].frame != 0;
    }
    if InGrown(gs, |gs|, v) {
      var g :| 0 <= g < |gs| && gs[g].frame != 0 && gs[g].page == v;
      assert g < last ==> gs[..last][g] == gs[g];
    }
  }

  lemma SameVmaPages(src: seq<Vma>, dst: seq<Vma>, used0: set<nat>, used: set<nat>, v: nat)
    requires |dst| == |src| && VmasCopied(src, dst, |src|, used0, used)
    ensures InVmas(src, |src|, v) <==> InVmas(dst, |dst|, v)
  {
    forall i | 0 <= i < |src|
      ensures Backs(src[i], |src[i].frames|, v) <==> Backs(dst[i], |dst[i].frames|, v)
    {
      assert VmaCopied(src[i], dst[i], used0, used);
      assert forall k | 0 <= k < |src[i].frames| :: src[i].frames[k] == 0 <==> dst[i].frames[k] == 0;
    }
  }

  lemma ChildOwns(l: Layout, parent: Task, child: Task, used: set<nat>, used': set<nat>)
    requires OwnRecords(l, parent, child, used, used')
    ensures OwnFrames(l, child, used)
  {
    forall g {:trigger child.grown[g]} | 0 <= g < |child.grown|
      ensures child.grown[g].frame !in used
    {
      GrownUsed(parent.grown, |parent.grown|, child.grown, used, used', g);
    }
    forall i, k {:trigger child.vmas[i].frames[k]} | 0 <= i < |child.vmas| && 0 <= k < |child.vmas[i].frames|
      && child.vmas[i].frames[k] != 0
      ensures child.vmas[i].frames[k] !in used
    {
      assert VmaCopied(parent.vmas[i], child.vmas[i], used, used');
    }
    forall i {:trigger child.regions[i]} | 0 <= i < |child.regions|
      ensures Unused(FrameOf(child.regions[i]), child.regions[i].pages, used)
    {
      assert RegionCopied(parent.regions[i], child.regions[i], used, used');
    }
  }

  /** The child shares a frame with what was in use before exactly where the parent's text shows through. */
  lemma ChildText(l: Layout, parent: Task, child: Task, used: set<nat>, used': set<nat>, v: nat)
    requires OwnRecords(l, parent, child, used, used') && RunUsed(l.textFrame, l.textPages, used)
    ensures TextShows(l, parent, v) <==> TextShows(l, child, v)
    ensures TextShows(l, parent, v) ==>
              v in Recorded(l, child) && Recorded(l, child)[v] == Leaf(l.textFrame + (v - l.textPage), TEXT_FLAGS)
    ensures v in Recorded(l, child) ==> (Recorded(l, child)[v].pfn in used <==> TextShows(l, parent, v))
  {
    SameGrownPages(parent.grown, |parent.grown|, child.grown, used, used', v);
    SameVmaPages(parent.vmas, child.vmas, used, used', v);
    ChildOwns(l, parent, child, used, used');
    TextLeaf(l, child, used, v);
    if TextShows(l, child, v) {
      assert InRun(l.textFrame + (v - l.textPage), l.textFrame, l.textPages);
    }
  }

  /** No page of the task maps for writing a text frame that its text window still shows. */
  ghost predicate TextGuarded(l: Layout, t: Task) {
    forall v: nat, w: nat {:trigger t.table[v], TextShows(l, t, w)} | v in t.table && TextShows(l, t, w)
      && t.table[v].pfn == l.textFrame + (w - l.textPage) :: !MayWrite(t.table[v].flags)
  }

  lemma TextIsReadOnly()
    ensures !MayWrite(TEXT_FLAGS)
  {
  }

  /** Parent and child share a frame that one of them may write if and only if the parent maps for writing
      a text frame that its child maps as well. */
  lemma SharedExactly(l: Layout, parent: Task, child: Task, used: set<nat>, used': set<nat>)
    requires RecordsOk(l, parent, used) && OwnRecords(l, parent, child, used, used')
    requires child.table == Recorded(l, child)
    ensures NoSharedWrites(parent, child) <==> TextGuarded(l, parent)
  {
    TextIsReadOnly();
    forall v, w {:trigger parent.table[v], child.table[w]} | v in parent.table && w in child.table
      && parent.table[v].pfn == child.table[w].pfn
      ensures TextShows(l, parent, w) && !MayWrite(child.table[w].flags)
      ensures parent.table[v].pfn == l.textFrame + (w - l.textPage)
    {
      assert LeafOk(parent, used, v);
      ChildText(l, parent, child, used, used', w);
    }
    forall w: nat | TextShows(l, parent, w)
      ensures w in child.table && child.table[w].pfn == l.textFrame + (w - l.textPage)
    {
      ChildText(l, parent, child, used, used', w);
    }
  }

  /** A child itself writes no text frame. */
  lemma ChildGuarded(l: Layout, parent: Task, child: Task, used: set<nat>, used': set<nat>)
    requires RecordsOk(l, parent, used) && OwnRecords(l, parent, child, used, used')
    requires child.table == Recorded(l, child)
    ensures TextGuarded(l, child)
  {
    TextIsReadOnly();
    forall v: nat, w: nat {:trigger child.table[v], TextShows(l, child, w)} | v in child.table && TextShows(l, child, w)
      && child.table[v].pfn == l.textFrame + (w - l.textPage)
      ensures !MayWrite(child.table[v].flags)
    {
      assert InRun(child.table[v].pfn, l.textFrame, l.textPages);
      ChildText(l, parent, child, used, used', v);
    }
  }

  // ---- the recorded map, page by page ----

  ghost predicate RegionCovers(r: Region, v: nat) {
    r.va / 4096 <= v < r.va / 4096 + r.pages
  }

  /** Segment i is the last of the first n that covers page v. */
  ghost predicate LastRegion(rs: seq<Region>, n: nat, i: nat, v: nat) {
    i < n <= |rs| && RegionCovers(rs[i], v) && forall j | i < j < n :: !RegionCovers(rs[j], v)
  }

  lemma {:induction false} RegionsAt(rs: seq<Region>, n: nat, i: nat, v: nat)
    requires n <= |rs|
    ensures LastRegion(rs, n, i, v) ==>
              v in MapRegions(map[], rs, n) && MapRegions(map[], rs, n)[v] ==
              Leaf(rs[i].phys / 4096 + (v - rs[i].va / 4096), ElfFile.PflagsToPte(rs[i].flags))
    ensures (forall j | 0 <= j < n :: !RegionCovers(rs[j], v)) ==> v !in MapRegions(map[], rs, n)
  {
    if n > 0 {
      var r := rs[n - 1];
      RegionsAt(rs, n - 1, i, v);
      MapRunLookup(MapRegions(map[], rs, n - 1), PageOf(r), FrameOf(r), r.pages, ElfFile.PflagsToPte(r.flags), v);
      assert LastRegion(rs, n, i, v) && i < n - 1 ==> LastRegion(rs, n - 1, i, v) && !RegionCovers(r, v);
    }
  }

  /** Grown page g is the last of the first n that lies at v. */
  ghost predicate LastGrown(gs: seq<Grown>, n: nat, g: nat, v: nat) {
    g < n <= |gs| && gs[g].frame != 0 && gs[g].page == v
    && forall j | g < j < n :: !(gs[j].frame != 0 && gs[j].page == v)
  }

  lemma {:induction false} GrownAt(m: PageMap, gs: seq<Grown>, n: nat, g: nat, v: nat)
    requires n <= |gs|
    ensures LastGrown(gs, n, g, v) ==>
              v in MapGrown(m, gs, n) && MapGrown(m, gs, n)[v] == Leaf(gs[g].frame, STACK_FLAGS)
    ensures !InGrown(gs, n, v) ==> SameEntry(m, MapGrown(m, gs, n), v)
  {
    if n > 0 {
      GrownAt(m, gs, n - 1, g, v);
      assert LastGrown(gs, n, g, v) && g < n - 1 ==> LastGrown(gs, n - 1, g, v);
      assert InGrown(gs, n, v) <==> InGrown(gs, n - 1, v) || (gs[n - 1].frame != 0 && gs[n - 1].page == v);
      if gs[n - 1].frame != 0 {
        MapRunLookup(MapGrown(m, gs, n - 1), gs[n - 1].page, gs[n - 1].frame, 1, STACK_FLAGS, v);
      }
    }
  }

  lemma {:induction false} FramesAt(m: PageMap, r: Vma, n: nat, k: nat, v: nat)
    requires n <= |r.frames|
    ensures k < n && r.frames[k] != 0 && r.start + k == v ==>
              v in MapFrames(m, r, n) && MapFrames(m, r, n)[v] == Leaf(r.frames[k], Descriptors.ProtToFlags(r.prot))
    ensures !Backs(r, n, v) ==> SameEntry(m, MapFrames(m, r, n), v)
  {
    if n > 0 {
      FramesAt(m, r, n - 1, k, v);
      BacksMore(r, n - 1, v);
      if r.frames[n - 1] != 0 {
        MapRunLookup(MapFrames(m, r, n - 1), r.start + n - 1, r.frames[n - 1], 1, Descriptors.ProtToFlags(r.prot), v);
      }
    }
  }

  /** Page k of region i is the last of the first n regions' faulted-in pages that lies at v. */
  ghost predicate LastBacked(vs: seq<Vma>, n: nat, i: nat, k: nat, v: nat) {
    && i < n <= |vs| && k < |vs[i].frames| && vs[i].frames[k] != 0 && vs[i].start + k == v
    && forall j | i < j < n :: !Backs(vs[j], |vs[j].frames|, v)
  }

  lemma {:induction false} VmasAt(m: PageMap, vs: seq<Vma>, n: nat, i: nat, k: nat, v: nat)
    requires n <= |vs|
    ensures LastBacked(vs, n, i, k, v) ==>
              && v in MapVmas(m, vs, n)
              && MapVmas(m, vs, n)[v] == Leaf(vs[i].frames[k], Descriptors.ProtToFlags(vs[i].prot))
    ensures !InVmas(vs, n, v) ==> SameEntry(m, MapVmas(m, vs, n), v)
  {
    if n > 0 {
      var r := vs[n - 1];
      VmasAt(m, vs, n - 1, i, k, v);
      InVmasMore(vs, n - 1, v);
      FramesAt(MapVmas(m, vs, n - 1), r, |r.frames|, k, v);
      assert LastBacked(vs, n, i, k, v) && i < n - 1 ==> LastBacked(vs, n - 1, i, k, v) && !Backs(r, |r.frames|, v);
    }
  }

  /** Below the mapped regions: the thread-local page, else the last grown page there, else the stack, else
      the image. */
  lemma BelowVmas(l: Layout, t: Task, v: nat, g: nat)
    ensures v == l.tlsPage ==> v in UpToTls(l, t) && UpToTls(l, t)[v] == Leaf(t.tls, STACK_FLAGS)
    ensures v != l.tlsPage && LastGrown(t.grown, |t.grown|, g, v) ==>
              v in UpToTls(l, t) && UpToTls(l, t)[v] == Leaf(t.grown[g].frame, STACK_FLAGS)
    ensures v != l.tlsPage && !InGrown(t.grown, |t.grown|, v) && l.stackPage <= v < l.stackPage + l.stackPages ==>
              v in UpToTls(l, t) && UpToTls(l, t)[v] == Leaf(t.stack + (v - l.stackPage), STACK_FLAGS)
    ensures v != l.tlsPage && !InGrown(t.grown, |t.grown|, v) && !(l.stackPage <= v < l.stackPage + l.stackPages) ==>
              SameEntry(Image(l, t), UpToTls(l, t), v)
  {
    MapRunLookup(Image(l, t), l.stackPage, t.stack, l.stackPages, STACK_FLAGS, v);
    GrownAt(UpToStack(l, t), t.grown, |t.grown|, g, v);
    MapRunLookup(MapGrown(UpToStack(l, t), t.grown, |t.grown|), l.tlsPage, t.tls, 1, STACK_FLAGS, v);
  }

  /** No record of the task lies over its image at page v. */
  ghost predicate ImageShows(l: Layout, t: Task, v: nat) {
    && v != l.tlsPage && !InGrown(t.grown, |t.grown|, v) && !(l.stackPage <= v < l.stackPage + l.stackPages)
    && !InVmas(t.vmas, |t.vmas|, v)
  }

  /** Neither a segment nor, without segments, the text window has page v. */
  ghost predicate NoImageAt(l: Layout, t: Task, v: nat) {
    && (|t.regions| == 0 ==> !(l.textPage <= v < l.textPage + l.textPages))
    && forall j | 0 <= j < |t.regions| :: !RegionCovers(t.regions[j], v)
  }

  /** What the records say of page v: the faulted-in page of the last region that has it, else the
      thread-local page, else the last grown page, else the stack, else the last segment at its own
      address, or the text window of a task without segments; and else nothing. */
  lemma RecordedAt(l: Layout, t: Task, v: nat, i: nat, k: nat, g: nat, r: nat)
    ensures LastBacked(t.vmas, |t.vmas|, i, k, v) ==>
              v in Recorded(l, t)
              && Recorded(l, t)[v] == Leaf(t.vmas[i].frames[k], Descriptors.ProtToFlags(t.vmas[i].prot))
    ensures !InVmas(t.vmas, |t.vmas|, v) && v == l.tlsPage ==>
              v in Recorded(l, t) && Recorded(l, t)[v] == Leaf(t.tls, STACK_FLAGS)
    ensures !InVmas(t.vmas, |t.vmas|, v) && v != l.tlsPage && LastGrown(t.grown, |t.grown|, g, v) ==>
              v in Recorded(l, t) && Recorded(l, t)[v] == Leaf(t.grown[g].frame, STACK_FLAGS)
    ensures !InVmas(t.vmas, |t.vmas|, v) && v != l.tlsPage && !InGrown(t.grown, |t.grown|, v)
            && l.stackPage <= v < l.stackPage + l.stackPages ==>
              v in Recorded(l, t) && Recorded(l, t)[v] == Leaf(t.stack + (v - l.stackPage), STACK_FLAGS)
    ensures ImageShows(l, t, v) && LastRegion(t.regions, |t.regions|, r, v) ==>
              v in Recorded(l, t) && Recorded(l, t)[v] ==
              Leaf(t.regions[r].phys / 4096 + (v - t.regions[r].va / 4096), ElfFile.PflagsToPte(t.regions[r].flags))
    ensures ImageShows(l, t, v) && |t.regions| == 0 && l.textPage <= v < l.textPage + l.textPages ==>
              v in Recorded(l, t) && Recorded(l, t)[v] == Leaf(l.textFrame + (v - l.textPage), TEXT_FLAGS)
    ensures ImageShows(l, t, v) && NoImageAt(l, t, v) ==> v !in Recorded(l, t)
  {
    VmasAt(UpToTls(l, t), t.vmas, |t.vmas|, i, k, v);
    BelowVmas(l, t, v, g);
    RegionsAt(t.regions, |t.regions|, r, v);
    MapRunLookup(map[], l.textPage, l.textFrame, l.textPages, TEXT_FLAGS, v);
  }

  /** The fork flags: the text window may be read and executed, the stack read and written, by EL0 only. */
  lemma FixedRights(pa: Descriptors.Frame)
    ensures TEXT_FLAGS & Descriptors.PERM_MASK == TEXT_FLAGS && STACK_FLAGS & Descriptors.PERM_MASK == STACK_FLAGS
    ensures var d := Descriptors.LeafDescriptor(pa, TEXT_FLAGS);
            Descriptors.UserMayRead(d) && !Descriptors.UserMayWrite(d) && Descriptors.UserMayExec(d)
            && !Descriptors.KernelMayExec(d)
    ensures var d := Descriptors.LeafDescriptor(pa, STACK_FLAGS);
            Descriptors.UserMayRead(d) && Descriptors.UserMayWrite(d) && !Descriptors.UserMayExec(d)
            && !Descriptors.KernelMayExec(d)
  {
  }

  // ---- what fork promises ----

  /** The child records the parent's layout and only frames of its own, all in use. */
  ghost predicate OwnRecords(l: Layout, parent: Task, child: Task, used0: set<nat>, used: set<nat>) {
    && |child.regions| == |parent.regions| && RegionsCopied(parent.regions, child.regions, |parent.regions|, used0,
       used)
    && Unused(child.stack, l.stackPages, used0) && RunUsed(child.stack, l.stackPages, used) && child.tls !in used0
    && GrownCopied(parent.grown, |parent.grown|, child.grown, used0, used)
    && VmasCopied(parent.vmas, child.vmas, |parent.vmas|, used0, used)
  }

  /** The thread-local page, unless a region has a page of its own there. */
  ghost predicate Blank(l: Layout, parent: Task, v: nat) {
    v == l.tlsPage && !InVmas(parent.vmas, |parent.vmas|, v)
  }

  /** The child maps exactly the pages the parent's records map, with the recorded rights: each holds
      what the recorded frame holds, in a frame of its own, or, where the text window shows through, is
      the text frame; the thread-local page is zero. What was in use before the fork is as it was. */
  ghost predicate Forked(l: Layout, parent: Task, child: Task, mem: Memory, used: set<nat>, mem': Memory) {
    var rec := Recorded(l, parent);
    && child.table.Keys == rec.Keys && Unshared(child.table)
    && (forall v {:trigger child.table[v]} | v in child.table ::
          && Copied(l, rec[v], child.table[v], Blank(l, parent, v), mem, used, mem')
          && (child.table[v].pfn in used <==> TextShows(l, parent, v)))
    && (forall f {:trigger PageAt(mem', f)} | f in used :: PageAt(mem', f) == PageAt(mem, f))
  }

  /** No frame that one of them may write is mapped by the other. */
  ghost predicate NoSharedWrites(parent: Task, child: Task) {
    forall v, w {:trigger parent.table[v], child.table[w]} | v in parent.table && w in child.table
      && parent.table[v].pfn == child.table[w].pfn ::
      !MayWrite(parent.table[v].flags) && !MayWrite(child.table[w].flags)
  }

  lemma NothingBuilt(l: Layout, mem: Memory, used: set<nat>)
    requires mem.Keys == used
    ensures Building(l, map[], {}, mem, used, map[], mem, used)
  {
  }

  lemma AllCopied(l: Layout, parent: Task, child: Task, used0: set<nat>, used1: set<nat>, used2: set<nat>,
                  used3: set<nat>, used4: set<nat>, used: set<nat>)
    requires used1 <= used2 <= used3 <= used4 <= used
    requires |child.regions| == |parent.regions| && RegionsCopied(parent.regions, child.regions, |parent.regions|,
             used0, used1)
    requires Unused(child.stack, l.stackPages, used0) && RunUsed(child.stack, l.stackPages, used2)
             && child.tls !in used0
    requires GrownCopied(parent.grown, |parent.grown|, child.grown, used0, used3)
    requires VmasCopied(parent.vmas, child.vmas, |parent.vmas|, used0, used)
    ensures OwnRecords(l, parent, child, used0, used)
  {
    GrownStays(parent.grown, |parent.grown|, child.grown, used0, used3, used);
    forall i {:trigger child.regions[i]} | 0 <= i < |child.regions|
      ensures RegionCopied(parent.regions[i], child.regions[i], used0, used)
    {
      assert RegionCopied(parent.regions[i], child.regions[i], used0, used1);
    }
  }

  lemma ForkDone(l: Layout, parent: Task, child: Task, blank: set<nat>, mem: Memory, used: set<nat>, mem': Memory,
                 used': set<nat>)
    requires RecordsOk(l, parent, used) && OwnRecords(l, parent, child, used, used')
    requires child.table == Recorded(l, child)
    requires Building(l, Recorded(l, parent), blank, mem, used, child.table, mem', used')
    requires forall v :: v in blank <==> v in {l.tlsPage} && !InVmas(parent.vmas, |parent.vmas|, v)
    ensures Forked(l, parent, child, mem, used, mem') && RecordsOk(l, child, used')
  {
    var rec := Recorded(l, parent);
    forall v {:trigger child.table[v]} | v in child.table
      ensures Copied(l, rec[v], child.table[v], Blank(l, parent, v), mem, used, mem') && LeafOk(child, used', v)
      ensures child.table[v].pfn in used <==> TextShows(l, parent, v)
    {
      assert CopiedAt(l, rec, blank, mem, used, child.table, mem', used', v);
      ChildText(l, parent, child, used, used', v);
    }
    ChildRecords(l, parent, child, used, used');
  }

  lemma ChildRecords(l: Layout, parent: Task, child: Task, used: set<nat>, used': set<nat>)
    requires RecordsOk(l, parent, used) && OwnRecords(l, parent, child, used, used') && used <= used'
    requires forall v {:trigger child.table[v]} | v in child.table :: LeafOk(child, used', v)
    ensures RecordsOk(l, child, used')
  {
    forall g {:trigger child.grown[g]} | 0 <= g < |child.grown|
      ensures child.grown[g].frame in used'
    {
      GrownUsed(parent.grown, |parent.grown|, child.grown, used, used', g);
    }
    forall i, k {:trigger child.vmas[i].frames[k]} | 0 <= i < |child.vmas| && 0 <= k < |child.vmas[i].frames|
      && child.vmas[i].frames[k] != 0
      ensures child.vmas[i].frames[k] in used'
    {
      assert VmaCopied(parent.vmas[i], child.vmas[i], used, used');
    }
    forall i {:trigger child.regions[i]} | 0 <= i < |child.regions|
      ensures RunUsed(FrameOf(child.regions[i]), child.regions[i].pages, used')
    {
      assert RegionCopied(parent.regions[i], child.regions[i], used, used');
    }
  }

  // ---- when the child is a copy of the parent ----

  /** Page v of the child is page v of the parent: there or not, with the same rights and contents. */
  ghost predicate SamePage(parent: Task, child: Task, mem': Memory, v: nat) {
    && (v in child.table <==> v in parent.table)
    && (v in parent.table ==> child.table[v].flags == parent.table[v].flags
                              && PageAt(mem', child.table[v].pfn) == PageAt(mem', parent.table[v].pfn))
  }

  /** Page v is mapped as recorded: there or not, with the rights and the contents of the record. */
  ghost predicate AsRecorded(l: Layout, parent: Task, mem: Memory, v: nat) {
    var rec := Recorded(l, parent);
    && (v in rec <==> v in parent.table)
    && (v in parent.table ==> rec[v].flags == parent.table[v].flags
                              && PageAt(mem, rec[v].pfn) == PageAt(mem, parent.table[v].pfn))
  }

  /** The child gets the parent's page exactly where the parent's page table is as its records say. */
  lemma CopyExactly(l: Layout, parent: Task, child: Task, mem: Memory, used: set<nat>, mem': Memory, v: nat)
    requires RecordsOk(l, parent, used) && Forked(l, parent, child, mem, used, mem') && !Blank(l, parent, v)
    ensures SamePage(parent, child, mem', v) <==> AsRecorded(l, parent, mem, v)
  {
    var rec := Recorded(l, parent);
    if v in parent.table {
      assert LeafOk(parent, used, v);
      assert PageAt(mem', parent.table[v].pfn) == PageAt(mem, parent.table[v].pfn);
    }
    if v in child.table {
      assert Copied(l, rec[v], child.table[v], false, mem, used, mem');
      TextKept(l, parent, child, mem, used, mem', v);
    }
  }

  lemma TextKept(l: Layout, parent: Task, child: Task, mem: Memory, used: set<nat>, mem': Memory, v: nat)
    requires RecordsOk(l, parent, used) && Forked(l, parent, child, mem, used, mem') && v in child.table
             && !Blank(l, parent, v)
    ensures PageAt(mem', child.table[v].pfn) == PageAt(mem, Recorded(l, parent)[v].pfn)
  {
    assert Copied(l, Recorded(l, parent)[v], child.table[v], false, mem, used, mem');
  }

  /** A page the records name is in the child, with the recorded rights and the recorded frame's contents. */
  lemma CopiedAsRecorded(l: Layout, parent: Task, child: Task, mem: Memory, used: set<nat>, mem': Memory, v: nat)
    requires RecordsOk(l, parent, used) && Forked(l, parent, child, mem, used, mem')
    requires v in Recorded(l, parent) && !Blank(l, parent, v)
    ensures v in child.table && child.table[v].flags == Recorded(l, parent)[v].flags
    ensures PageAt(mem', child.table[v].pfn) == PageAt(mem, Recorded(l, parent)[v].pfn)
  {
    assert v in child.table;
    assert Copied(l, Recorded(l, parent)[v], child.table[v], false, mem, used, mem');
    TextKept(l, parent, child, mem, used, mem', v);
  }

  /** The kernel's layout: text at 4 MB, a stack of four pages below 8 MB, the thread-local page at 11 MB. */
  function KernelLayout(textFrame: nat, textPages: nat): Layout {
    Layout(0x400, textFrame, textPages, 0x7FC, 4, 0xB00)
  }

  /** It fails, for example, for a stack page that was grown and then unmapped: the record stays, so the
      child gets the page back, writable. */
  lemma UnmappedPageComesBack()
    ensures var l, parent := KernelLayout(100, 8), KernelTask([Grown(30, 0x7FB)], TEXT_FLAGS);
            && RecordsOk(l, parent, KernelFrames()) && 0x7FB !in parent.table
            && 0x7FB in Recorded(l, parent) && MayWrite(Recorded(l, parent)[0x7FB].flags)
            && forall mem :: !AsRecorded(l, parent, mem, 0x7FB)
  {
    var l, parent := KernelLayout(100, 8), KernelTask([Grown(30, 0x7FB)], TEXT_FLAGS);
    KernelTaskOk([Grown(30, 0x7FB)], TEXT_FLAGS);
    var m := UpToStack(l, parent);
    assert MapGrown(m, parent.grown, 0) == m;
    MapRunLookup(m, 0x7FB, 30, 1, STACK_FLAGS, 0x7FB);
    assert MapGrown(m, parent.grown, 1) == MapRun(m, 0x7FB, 30, 1, STACK_FLAGS);
    MapRunLookup(MapGrown(m, parent.grown, 1), 0xB00, 20, 1, STACK_FLAGS, 0x7FB);
    assert Recorded(l, parent) == UpToTls(l, parent);
  }

  /** A task of the kernel's own text, with frames 10 to 13 for its stack and 20 for its thread-local page,
      that maps what was set up for it: eight text pages, the stack and the thread-local page. */
  function KernelTask(grown: seq<Grown>, textFlags: bv64): Task {
    Task([], 10, grown, [], 20,
         MapRun(MapRun(MapRun(map[], 0x400, 100, 8, textFlags), 0x7FC, 10, 4, STACK_FLAGS), 0xB00, 20, 1, STACK_FLAGS))
  }

  function KernelFrames(): set<nat> {
    {10, 11, 12, 13, 20, 30, 100, 101, 102, 103, 104, 105, 106, 107}
  }

  lemma KernelTaskOk(grown: seq<Grown>, textFlags: bv64)
    requires forall g | 0 <= g < |grown| :: grown[g].frame == 30
    ensures var l, t := KernelLayout(100, 8), KernelTask(grown, textFlags);
            && RecordsOk(l, t, KernelFrames())
            && (forall v | v in t.table :: v != 0x7FB)
            && 0x400 in t.table && t.table[0x400] == Leaf(100, textFlags)
  {
    var t, used := KernelTask(grown, textFlags), KernelFrames();
    var m1 := MapRun(map[], 0x400, 100, 8, textFlags);
    var m2 := MapRun(m1, 0x7FC, 10, 4, STACK_FLAGS);
    forall v: nat
      ensures LeafOk(t, used, v) && (v == 0x7FB ==> v !in t.table)
      ensures v == 0x400 ==> v in t.table && t.table[v] == Leaf(100, textFlags)
    {
      MapRunLookup(map[], 0x400, 100, 8, textFlags, v);
      MapRunLookup(m1, 0x7FC, 10, 4, STACK_FLAGS, v);
      MapRunLookup(m2, 0xB00, 20, 1, STACK_FLAGS, v);
    }
  }

  /** mprotect of a text page to read and write gives a leaf EL0 may write, and a parent with such a leaf
      shares the frame with its child, writable. */
  lemma ProtectedTextIsShared(pa: Descriptors.Frame)
    requires Descriptors.FrameOk(pa)
    ensures Descriptors.UserMayWrite(
              Descriptors.Reprotect(Descriptors.LeafDescriptor(pa, TEXT_FLAGS), Descriptors.ProtToFlags(3)))
    ensures var l, parent := KernelLayout(100, 8), KernelTask([], Descriptors.ProtToFlags(3));
            RecordsOk(l, parent, KernelFrames()) && !TextGuarded(l, parent)
  {
    var l, parent := KernelLayout(100, 8), KernelTask([], Descriptors.ProtToFlags(3));
    TextReprotected();
    Descriptors.ReprotectIsFreshMap(pa, 5, 3);
    Descriptors.FreshMappingMeansProt(pa, 3);
    KernelTaskOk([], Descriptors.ProtToFlags(3));
    assert TextShows(l, parent, 0x400);
    assert parent.table[0x400].pfn == l.textFrame + (0x400 - l.textPage);
  }

  lemma TextReprotected()
    ensures TEXT_FLAGS == Descriptors.ProtToFlags(5) && MayWrite(Descriptors.ProtToFlags(3))
  {
  }

  /** A store through any page one of them may write is invisible through every page of the other. */
  lemma StoresStayPrivate(parent: Task, child: Task, mem: Memory, v: nat, w: nat, page: Page)
    requires NoSharedWrites(parent, child) && v in parent.table && w in child.table
    ensures MayWrite(child.table[w].flags) ==>
              PageAt(mem[child.table[w].pfn := page], parent.table[v].pfn) == PageAt(mem, parent.table[v].pfn)
    ensures MayWrite(parent.table[v].flags) ==>
              PageAt(mem[parent.table[v].pfn := page], child.table[w].pfn) == PageAt(mem, child.table[w].pfn)
  {
  }
}
