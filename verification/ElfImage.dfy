/** What a loaded image looks like to the program, and how one more segment changes it
    (src/syscall/elf.c). */
module ElfImage {
  import opened ElfFile
  import opened PageBitmap
  import opened UserMaps

  /** A run of frames. */
  datatype Run = Run(start: nat, count: nat)

  // ---- the pages of a segment ----

  function Lo(ph: Phdr): nat {
    ph.vaddr / PAGE
  }

  function Hi(ph: Phdr): (h: nat)
    ensures h >= Lo(ph) && ph.vaddr + ph.memsz <= h * PAGE
  {
    (ph.vaddr + ph.memsz + PAGE - 1) / PAGE
  }

  function Pages(ph: Phdr): nat {
    Hi(ph) - Lo(ph)
  }

  lemma OccupiesExactly(ph: Phdr)
    ensures Occupies(ph) <==> Pages(ph) > 0
  {
  }

  predicate Covers(ph: Phdr, v: nat) {
    ph.kind == PT_LOAD && Lo(ph) <= v < Hi(ph)
  }

  /** One more than the index of the last segment that covers page v; 0 if there is none. */
  function LastCover(phs: seq<Phdr>, v: nat): (r: nat)
    ensures r <= |phs| && (r > 0 ==> Covers(phs[r - 1], v)) && forall i | r <= i < |phs| :: !Covers(phs[i], v)
  {
    if phs == [] then 0 else if Covers(phs[|phs| - 1], v) then |phs| else LastCover(phs[..|phs| - 1], v)
  }

  /** Byte x of the address space as the segment defines it: from the file, or zero. */
  function SegByte(ph: Phdr, buf: seq<bv8>, x: nat): bv8 {
    if ph.vaddr <= x < ph.vaddr + ph.filesz && ph.offset + (x - ph.vaddr) < |buf| then buf[ph.offset + (x - ph.vaddr)]
      else 0
  }

  /** Byte k of page v. */
  function SegAt(ph: Phdr, buf: seq<bv8>, v: nat, k: nat): bv8 {
    SegByte(ph, buf, v * PAGE + k)
  }

  // ---- memory ----

  /** Byte k of frame p. */
  function FrameByte(ram: seq<bv8>, p: nat, k: nat): bv8 {
    if p * PAGE + k < |ram| then ram[p * PAGE + k] else 0
  }

  /** memset and memcpy. */
  function Overlay(ram: seq<bv8>, at: nat, bytes: seq<bv8>): (r: seq<bv8>)
    requires at + |bytes| <= |ram|
    ensures |r| == |ram| && forall j | 0 <= j < |ram| ::
            r[j] == if at <= j < at + |bytes| then bytes[j - at] else ram[j]
  {
    ram[..at] + bytes + ram[at + |bytes|..]
  }

  /** Frame p holds page v of the segment. */
  ghost predicate HoldsPage(ram: seq<bv8>, p: nat, ph: Phdr, buf: seq<bv8>, v: nat) {
    forall k {:trigger FrameByte(ram, p, k)} | 0 <= k < PAGE :: FrameByte(ram, p, k) == SegAt(ph, buf, v, k)
  }

  ghost predicate SameFrame(ram: seq<bv8>, ram': seq<bv8>, p: nat) {
    forall k {:trigger FrameByte(ram', p, k)} | 0 <= k < PAGE :: FrameByte(ram', p, k) == FrameByte(ram, p, k)
  }

  /** Only frames of the run change. */
  ghost predicate OnlyRun(ram: seq<bv8>, ram': seq<bv8>, s: nat, count: nat) {
    |ram'| == |ram| && forall p: nat {:trigger SameFrame(ram, ram', p)} | !(s <= p < s + count) ::
      SameFrame(ram, ram', p)
  }

  ghost predicate PageInRun(ram: seq<bv8>, s: nat, ph: Phdr, buf: seq<bv8>, v: nat) {
    Lo(ph) <= v < Hi(ph) ==> HoldsPage(ram, s + (v - Lo(ph)), ph, buf, v)
  }

  /** The segment's pages, in this run of frames. */
  ghost predicate HoldsSegment(ram: seq<bv8>, s: nat, ph: Phdr, buf: seq<bv8>) {
    forall v: nat {:trigger PageInRun(ram, s, ph, buf, v)} :: PageInRun(ram, s, ph, buf, v)
  }

  function Zeros(n: nat): (z: seq<bv8>)
    ensures |z| == n && forall i | 0 <= i < n :: z[i] == 0
  {
    seq(n, i => 0)
  }

  /** Zero the run, then copy the file bytes to where vaddr falls in it. */
  function Filled(ram: seq<bv8>, s: nat, ph: Phdr, buf: seq<bv8>): seq<bv8>
    requires SegmentOk(ph, |buf|) && (s + Pages(ph)) * PAGE <= |ram|
  {
    var zeroed := Overlay(ram, s * PAGE, Zeros(Pages(ph) * PAGE));
    if ph.filesz > 0 then Overlay(zeroed, s * PAGE + (ph.vaddr - Lo(ph) * PAGE), buf[ph.offset..ph.offset + ph.filesz])
      else zeroed
  }

  lemma FilledHolds(ram: seq<bv8>, s: nat, ph: Phdr, buf: seq<bv8>)
    requires SegmentOk(ph, |buf|) && (s + Pages(ph)) * PAGE <= |ram|
    ensures HoldsSegment(Filled(ram, s, ph, buf), s, ph, buf)
  {
    var r := Filled(ram, s, ph, buf);
    forall v: nat
      ensures PageInRun(r, s, ph, buf, v)
    {
      if Lo(ph) <= v < Hi(ph) {
        var p := s + (v - Lo(ph));
        forall k {:trigger FrameByte(r, p, k)} | 0 <= k < PAGE
          ensures FrameByte(r, p, k) == SegAt(ph, buf, v, k)
        {
          FilledByte(ram, s, ph, buf, v, k);
        }
      }
    }
  }

  lemma FilledByte(ram: seq<bv8>, s: nat, ph: Phdr, buf: seq<bv8>, v: nat, k: nat)
    requires SegmentOk(ph, |buf|) && (s + Pages(ph)) * PAGE <= |ram| && Lo(ph) <= v < Hi(ph) && k < PAGE
    ensures FrameByte(Filled(ram, s, ph, buf), s + (v - Lo(ph)), k) == SegAt(ph, buf, v, k)
  {
  }

  lemma FilledElsewhere(ram: seq<bv8>, s: nat, ph: Phdr, buf: seq<bv8>)
    requires SegmentOk(ph, |buf|) && (s + Pages(ph)) * PAGE <= |ram|
    ensures OnlyRun(ram, Filled(ram, s, ph, buf), s, Pages(ph))
  {
    var r := Filled(ram, s, ph, buf);
    forall p: nat | !(s <= p < s + Pages(ph))
      ensures SameFrame(ram, r, p)
    {
    }
  }

  // ---- the image ----

  /** The run of the segment at index c: the runs are in the order of the PT_LOAD headers. */
  function RunFor(phs: seq<Phdr>, runs: seq<Run>, c: nat): Run
    requires c < |phs|
  {
    var n := Loads(phs[..c]);
    if n < |runs| then runs[n] else Run(0, 0)
  }

  /** Page v is as the last segment that covers it says, in that segment's run of frames; pages no
      segment covers are mapped as before. */
  ghost predicate PageOk(phs: seq<Phdr>, buf: seq<bv8>, before: PageMap, table: PageMap, ram: seq<bv8>, used: seq<bool>,
                         runs: seq<Run>, v: nat) {
    var c := LastCover(phs, v);
    if c == 0 then SameEntry(before, table, v)
    else
      && v in table && table[v] == Leaf(RunFor(phs, runs, c - 1).start + (v - Lo(phs[c - 1])),
         PflagsToPte(phs[c - 1].flags))
      && table[v].pfn < |used| && used[table[v].pfn]
      && HoldsPage(ram, table[v].pfn, phs[c - 1], buf, v)
  }

  ghost predicate ImageOk(phs: seq<Phdr>, buf: seq<bv8>, before: PageMap, table: PageMap, ram: seq<bv8>,
                          used: seq<bool>, runs: seq<Run>) {
    |runs| == Loads(phs) && forall v: nat {:trigger PageOk(phs, buf, before, table, ram, used, runs, v)} ::
      PageOk(phs, buf, before, table, ram, used, runs, v)
  }

  lemma EmptyImage(buf: seq<bv8>, before: PageMap, ram: seq<bv8>, used: seq<bool>)
    ensures ImageOk([], buf, before, before, ram, used, [])
  {
  }

  /** A segment that is not loaded leaves the image as it is. */
  lemma SkipSegment(phs: seq<Phdr>, ph: Phdr, buf: seq<bv8>, before: PageMap, table: PageMap, ram: seq<bv8>,
                    used: seq<bool>, runs: seq<Run>)
    requires ImageOk(phs, buf, before, table, ram, used, runs) && ph.kind != PT_LOAD
    ensures ImageOk(phs + [ph], buf, before, table, ram, used, runs)
  {
    assert (phs + [ph])[..|phs|] == phs;
    forall v: nat
      ensures PageOk(phs + [ph], buf, before, table, ram, used, runs, v)
    {
      assert PageOk(phs, buf, before, table, ram, used, runs, v);
      OneMoreCover(phs, ph, v);
      SamePrefix(phs, ph, LastCover(phs, v));
    }
  }

  lemma OneMoreCover(phs: seq<Phdr>, ph: Phdr, v: nat)
    ensures LastCover(phs + [ph], v) == if Covers(ph, v) then |phs| + 1 else LastCover(phs, v)
  {
    assert (phs + [ph])[..|phs|] == phs;
  }

  lemma SamePrefix(phs: seq<Phdr>, ph: Phdr, c: nat)
    requires c <= |phs|
    ensures c > 0 ==> (phs + [ph])[..c - 1] == phs[..c - 1]
  {
  }

  lemma {:induction false} LoadsBefore(phs: seq<Phdr>, c: nat)
    requires c < |phs| && phs[c].kind == PT_LOAD
    ensures Loads(phs[..c]) < Loads(phs)
  {
    if c == |phs| - 1 {
    } else {
      LoadsBefore(phs[..|phs| - 1], c);
      assert phs[..|phs| - 1][..c] == phs[..c];
    }
  }

  /** One more segment, in a run of frames that was free. */
  lemma AddSegment(phs: seq<Phdr>, ph: Phdr, buf: seq<bv8>, before: PageMap, table: PageMap, ram: seq<bv8>,
                   used: seq<bool>, runs: seq<Run>, ram': seq<bv8>, s: nat)
    requires ImageOk(phs, buf, before, table, ram, used, runs) && ph.kind == PT_LOAD && FreeRun(used, s, Pages(ph))
    requires OnlyRun(ram, ram', s, Pages(ph)) && HoldsSegment(ram', s, ph, buf)
    ensures ImageOk(phs + [ph], buf, before, MapRun(table, Lo(ph), s, Pages(ph), PflagsToPte(ph.flags)), ram',
            Mark(used, s, Pages(ph), true), runs + [Run(s, Pages(ph))])
  {
    var table', used', runs' := MapRun(table, Lo(ph), s, Pages(ph), PflagsToPte(ph.flags)),
      Mark(used, s, Pages(ph), true), runs + [Run(s, Pages(ph))];
    assert (phs + [ph])[..|phs|] == phs;
    forall v: nat
      ensures PageOk(phs + [ph], buf, before, table', ram', used', runs', v)
    {
      AddSegmentPage(phs, ph, buf, before, table, ram, used, runs, ram', s, v);
    }
  }

  lemma AddSegmentPage(phs: seq<Phdr>, ph: Phdr, buf: seq<bv8>, before: PageMap, table: PageMap, ram: seq<bv8>,
                       used: seq<bool>, runs: seq<Run>, ram': seq<bv8>, s: nat, v: nat)
    requires ImageOk(phs, buf, before, table, ram, used, runs) && ph.kind == PT_LOAD && FreeRun(used, s, Pages(ph))
    requires OnlyRun(ram, ram', s, Pages(ph)) && HoldsSegment(ram', s, ph, buf)
    ensures PageOk(phs + [ph], buf, before, MapRun(table, Lo(ph), s, Pages(ph), PflagsToPte(ph.flags)), ram',
            Mark(used, s, Pages(ph), true), runs + [Run(s, Pages(ph))], v)
  {
    OneMoreCover(phs, ph, v);
    MapRunLookup(table, Lo(ph), s, Pages(ph), PflagsToPte(ph.flags), v);
    if Covers(ph, v) {
      assert PageInRun(ram', s, ph, buf, v);
      assert (phs + [ph])[..|phs|] == phs;
    } else {
      assert PageOk(phs, buf, before, table, ram, used, runs, v);
      OldPage(phs, ph, buf, before, table, ram, used, runs, ram', s, v);
    }
  }

  /** A page loaded earlier is not touched: its frame was in use, so it is not in the new run. */
  lemma OldPage(phs: seq<Phdr>, ph: Phdr, buf: seq<bv8>, before: PageMap, table: PageMap, ram: seq<bv8>,
                used: seq<bool>, runs: seq<Run>, ram': seq<bv8>, s: nat, v: nat)
    requires PageOk(phs, buf, before, table, ram, used, runs, v) && |runs| == Loads(phs) && FreeRun(used, s, Pages(ph))
             && OnlyRun(ram, ram', s, Pages(ph))
    ensures var c := LastCover(phs, v);
            c > 0 ==> RunFor(phs + [ph], runs + [Run(s, Pages(ph))], c - 1) == RunFor(phs, runs, c - 1)
                      && HoldsPage(ram', table[v].pfn, phs[c - 1], buf, v)
  {
    var c := LastCover(phs, v);
    if c > 0 {
      SamePrefix(phs, ph, c);
      LoadsBefore(phs, c - 1);
      assert SameFrame(ram, ram', table[v].pfn);
    }
  }

  // ---- what the program reads ----

  /** The byte the program reads at x, if x is mapped. */
  function UserByte(table: PageMap, ram: seq<bv8>, x: nat): bv8 {
    if x / PAGE in table then FrameByte(ram, table[x / PAGE].pfn, x % PAGE) else 0
  }

  /** No segment behind the i-th covers page v. */
  ghost predicate NotOverlaid(phs: seq<Phdr>, i: nat, v: nat) {
    forall j | i < j < |phs| :: !Covers(phs[j], v)
  }

  lemma LastOne(phs: seq<Phdr>, i: nat, v: nat)
    requires i < |phs| && Covers(phs[i], v)
    ensures LastCover(phs, v) > i && (LastCover(phs, v) == i + 1 <==> NotOverlaid(phs, i, v))
  {
  }

  /** Whatever the segments, byte x of a covered page is that of the last segment covering it. */
  lemma ReadsLast(phs: seq<Phdr>, buf: seq<bv8>, before: PageMap, table: PageMap, ram: seq<bv8>, used: seq<bool>,
                  runs: seq<Run>, x: nat)
    requires ImageOk(phs, buf, before, table, ram, used, runs) && LastCover(phs, x / PAGE) > 0
    ensures x / PAGE in table && UserByte(table, ram, x) == SegByte(phs[LastCover(phs, x / PAGE) - 1], buf, x)
  {
    var v, k := x / PAGE, x % PAGE;
    assert PageOk(phs, buf, before, table, ram, used, runs, v);
    assert FrameByte(ram, table[v].pfn, k) == SegAt(phs[LastCover(phs, v) - 1], buf, v, k);
    assert x == v * PAGE + k;
  }

  /** On a page that no later segment covers, every byte of a segment reads as its file byte, or
      zero, with the rights of the segment. With page-disjoint segments that is every page. */
  lemma ReadsSegment(phs: seq<Phdr>, buf: seq<bv8>, before: PageMap, table: PageMap, ram: seq<bv8>, used: seq<bool>,
                     runs: seq<Run>, i: nat, k: nat)
    requires ImageOk(phs, buf, before, table, ram, used, runs) && i < |phs| && phs[i].kind == PT_LOAD
    requires SegmentOk(phs[i], |buf|) && k < phs[i].memsz && NotOverlaid(phs, i, (phs[i].vaddr + k) / PAGE)
    ensures var x := phs[i].vaddr + k;
            && x / PAGE in table && table[x / PAGE].flags == PflagsToPte(phs[i].flags)
            && UserByte(table, ram, x) == if k < phs[i].filesz then buf[phs[i].offset + k] else 0
  {
    var x := phs[i].vaddr + k;
    InSpan(phs[i], k);
    LastOne(phs, i, x / PAGE);
    ReadsLast(phs, buf, before, table, ram, used, runs, x);
    assert PageOk(phs, buf, before, table, ram, used, runs, x / PAGE);
  }

  lemma InSpan(ph: Phdr, k: nat)
    requires k < ph.memsz
    ensures Lo(ph) <= (ph.vaddr + k) / PAGE < Hi(ph)
  {
  }

  // ---- the program-header table ----

  /** The segment's file bytes include the whole table. */
  predicate CoversTable(ph: Phdr, phoff: nat, bytes: nat) {
    ph.kind == PT_LOAD && ph.offset <= phoff && phoff + bytes <= ph.offset + ph.filesz
  }
}
