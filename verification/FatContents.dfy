/** What a mounted volume holds, and how growing a chain and patching a sector change it
    (src/fs/fat32/fat32.c). */
module FatContents {
  import opened FatDisk
  import opened FatChains
  import opened Values

  /** The table on the disk, and every file's chain well formed and apart from the others'. Nothing is
      said of free entries, nor of whether the clusters of a chain exist. */
  ghost predicate VolumeOk(g: Geometry, disk: Disk, t: Fat, files: Files) {
    GeometryOk(g, |disk|) && Holds(g, disk, t) && FilesOk(t, files)
  }

  // ---- growing ----

  ghost predicate SameData(g: Geometry, disk: Disk, disk': Disk) {
    |disk'| == |disk| && forall s {:trigger disk'[s]} | g.dataStart <= s < |disk| :: disk'[s] == disk[s]
  }

  const FRESH_END: nat := 0x0FFF_FFFF

  lemma EntryWritten(g: Geometry, disk: Disk, t: Fat, c: nat, v: nat)
    requires g.fatStart <= g.dataStart <= |disk| && c < |t| && v < ENTRY_RANGE && Holds(g, disk, t)
    ensures Holds(g, SetEntry(g, disk, c, v), t[c := v]) && SameData(g, disk, SetEntry(g, disk, c, v))
  {
    SetEntryChangesOneEntry(g, disk, t, c, v);
    assert v % ENTRY_RANGE == v;
  }

  /** The lowest free cluster marked and linked behind file f. */
  lemma GrowFat(t: Fat, files: Files, f: nat, c: nat)
    requires FilesOk(t, files) && f in files && 2 <= c < |t| < EOC && t[c] == 0 && forall d | 2 <= d < c :: t[d] != 0
    ensures var last := files[f][|files[f]| - 1];
            && last < |t|
            && var t' := t[c := FRESH_END][last := c];
               var files' := files[f := files[f] + [c]];
               FilesOk(t', files') && Grown(t, files, t', files', f)
  {
    FileGrows(t, files, f, c, FRESH_END);
    var last := files[f][|files[f]| - 1];
    assert last in files[f];
    assert files[f] <= files[f] + [c];
  }

  /** A chain's end mark overwritten by another one. */
  lemma RewriteFatEnd(t: Fat, files: Files, f: nat, v: nat)
    requires FilesOk(t, files) && f in files && v >= EOC > |t|
    ensures var last := files[f][|files[f]| - 1];
            last < |t| && FilesOk(t[last := v], files) && Grown(t, files, t[last := v], files, f)
  {
    EndMarkRewritten(t, files, f, v);
    assert files[f][|files[f]| - 1] in files[f];
    assert files == files[f := files[f]];
  }

  lemma GrownMore(t: Fat, files: Files, t1: Fat, files1: Files, t2: Fat, files2: Files, f: nat)
    requires f in files && f in files1 && f in files2
    requires Grown(t, files, t1, files1, f) && Grown(t1, files1, t2, files2, f)
    requires FilesOk(t1, files1)
    ensures Grown(t, files, t2, files2, f)
  {
    PrefixMembers(files1[f], files2[f]);
    forall c {:trigger t2[c]} | 0 <= c < |t| && c !in files2[f]
      ensures t2[c] == t[c]
    {
      assert t1[c] == t[c];
    }
    forall i {:trigger LowestFree(t, files2[f], i)} | |files[f]| <= i < |files2[f]|
      ensures LowestFree(t, files2[f], i)
    {
      GainWasFree(t, files, t1, files1, t2, files2, f, i);
    }
  }

  lemma PrefixMembers(a: seq<nat>, b: seq<nat>)
    requires a <= b
    ensures forall c | c in a :: c in b
  {
  }

  lemma GainWasFree(t: Fat, files: Files, t1: Fat, files1: Files, t2: Fat, files2: Files, f: nat, i: nat)
    requires f in files && f in files1 && f in files2
    requires Grown(t, files, t1, files1, f) && Grown(t1, files1, t2, files2, f)
    requires FilesOk(t1, files1) && |files[f]| <= i < |files2[f]|
    ensures LowestFree(t, files2[f], i)
  {
    var a, b := files1[f], files2[f];
    if i < |a| {
      assert LowestFree(t, a, i);
      assert b[i] == a[i] && b[..i] == a[..i];
    } else {
      assert LowestFree(t1, b, i);
      OwnedIsUsed(t1, files1, b[i]);
      assert b[i] !in a;
      forall d: nat {:trigger FreeBelow(t, b[i], d)} | FreeBelow(t, b[i], d)
        ensures d in b[..i]
      {
        if t1[d] == 0 {
          assert FreeBelow(t1, b[i], d);
        } else {
          assert d in a;
          assert a <= b[..i];
        }
      }
    }
  }

  // ---- bytes ----

  /** No sector of a cluster outside ch differs. */
  ghost predicate Untouched(g: Geometry, disk: Disk, disk': Disk, ch: seq<nat>) {
    |disk'| == |disk|
    && forall c, s {:trigger SectorOf(g, c, s)} | Backed(g, |disk|, c) && c !in ch && 0 <= s < g.perCluster ::
         disk'[SectorOf(g, c, s)] == disk[SectorOf(g, c, s)]
  }

  /** Byte k of a file after `data` has been written at `off`, if it was b before. */
  function Over(b: Byte, off: nat, data: seq<Byte>, k: nat): Byte {
    if off <= k < off + |data| then data[k - off] else b
  }

  /** Every byte of the range is in the chain, in a cluster that exists. */
  ghost predicate InChain(g: Geometry, sectors: nat, ch: seq<nat>, off: nat, len: nat) {
    && (len > 0 ==> off + len <= Offset(g, |ch|, 0))
    && forall j, r {:trigger Offset(g, j, r)} | 0 <= j < |ch| && 0 <= r < ClusterBytes(g)
       && off <= Offset(g, j, r) < off + len ::
         Backed(g, sectors, ch[j])
  }

  /** The file's bytes on disk' are its bytes on disk with `data` at `off`, as far as its clusters
      exist; those the data is in do. */
  ghost predicate Overlaid(g: Geometry, disk: Disk, disk': Disk, ch: seq<nat>, off: nat, data: seq<Byte>)
    requires |disk'| == |disk|
  {
    && InChain(g, |disk|, ch, off, |data|)
    && forall j, r {:trigger At(g, disk', ch, j, r)} | 0 <= j < |ch| && Backed(g, |disk|, ch[j])
       && 0 <= r < ClusterBytes(g) ::
         At(g, disk', ch, j, r) == Over(At(g, disk, ch, j, r), off, data, Offset(g, j, r))
  }

  function Patch(s: Sector, at: nat, bytes: seq<Byte>): (r: Sector)
    requires at + |bytes| <= 512
    ensures forall i | 0 <= i < 512 :: r[i] == if at <= i < at + |bytes| then bytes[i - at] else s[i]
  {
    s[..at] + bytes + s[at + |bytes|..]
  }

  /** A byte falls in a chunk that stays inside one cluster. */
  lemma InChunk(m: nat, i: nat, inner: nat, n: nat, j: nat, r: nat)
    requires inner + n <= m && r < m
    ensures Times(i, m) + inner <= Times(j, m) + r < Times(i, m) + inner + n <==> j == i && inner <= r < inner + n
  {
    if j < i {
      TimesStep(j, i, m);
    } else if i < j {
      TimesStep(i, j, m);
    }
  }

  /** Writing part of a sector of the i-th cluster of a chain. */
  lemma PatchOverlays(g: Geometry, disk: Disk, ch: seq<nat>, i: nat, inner: nat, bytes: seq<Byte>)
    requires i < |ch| && Backed(g, |disk|, ch[i]) && Distinct(ch) && (forall k | 0 <= k < |ch| :: ch[k] >= 2)
    requires inner < ClusterBytes(g) && inner % SECTOR + |bytes| <= SECTOR
    ensures g.dataStart <= SectorOf(g, ch[i], inner / SECTOR) < |disk|
    ensures var at := SectorOf(g, ch[i], inner / SECTOR);
            var disk' := disk[at := Patch(disk[at], inner % SECTOR, bytes)];
            && Overlaid(g, disk, disk', ch, Offset(g, i, inner), bytes)
            && Untouched(g, disk, disk', ch)
  {
    var at := SectorOf(g, ch[i], inner / SECTOR);
    var disk' := disk[at := Patch(disk[at], inner % SECTOR, bytes)];
    TimesStep(i, |ch|, ClusterBytes(g));
    ChunkInChain(g, |disk|, ch, i, inner, |bytes|);
    forall j, r {:trigger At(g, disk', ch, j, r)} | 0 <= j < |ch| && Backed(g, |disk|, ch[j])
      && 0 <= r < ClusterBytes(g)
      ensures At(g, disk', ch, j, r) == Over(At(g, disk, ch, j, r), Offset(g, i, inner), bytes, Offset(g, j, r))
    {
      PatchedByte(g, disk, ch, i, inner, bytes, at, j, r);
    }
    forall c, s {:trigger SectorOf(g, c, s)} | Backed(g, |disk|, c) && c !in ch && 0 <= s < g.perCluster
      ensures SectorOf(g, c, s) != at
    {
      assert ch[i] in ch;
      OtherSector(g, c, s, ch[i], inner / SECTOR);
    }
  }

  lemma ChunkInChain(g: Geometry, sectors: nat, ch: seq<nat>, i: nat, inner: nat, n: nat)
    requires i < |ch| && Backed(g, sectors, ch[i]) && inner + n <= ClusterBytes(g)
    ensures InChain(g, sectors, ch, Offset(g, i, inner), n)
  {
    TimesStep(i, |ch|, ClusterBytes(g));
    var off := Offset(g, i, inner);
    forall j, r {:trigger Offset(g, j, r)} | 0 <= j < |ch| && 0 <= r < ClusterBytes(g)
      && off <= Offset(g, j, r) < off + n
      ensures Backed(g, sectors, ch[j])
    {
      InChunk(ClusterBytes(g), i, inner, n, j, r);
    }
  }

  lemma OtherSector(g: Geometry, c: nat, s: nat, d: nat, r: nat)
    requires c >= 2 && d >= 2 && s < g.perCluster && r < g.perCluster
    ensures SectorOf(g, c, s) == SectorOf(g, d, r) <==> c == d && s == r
  {
    if SectorOf(g, c, s) == SectorOf(g, d, r) {
      SectorsApart(g, c, s, d, r);
    }
  }

  lemma PatchedByte(g: Geometry, disk: Disk, ch: seq<nat>, i: nat, inner: nat, bytes: seq<Byte>, at: nat, j: nat,
                    r: nat)
    requires Distinct(ch) && i < |ch| && inner < ClusterBytes(g) && inner % SECTOR + |bytes| <= SECTOR
    requires j < |ch| && r < ClusterBytes(g) && at < |disk| && Backed(g, |disk|, ch[j])
    requires Backed(g, |disk|, ch[i]) && at == SectorOf(g, ch[i], inner / SECTOR)
    ensures At(g, disk[at := Patch(disk[at], inner % SECTOR, bytes)], ch, j, r)
            == Over(At(g, disk, ch, j, r), Offset(g, i, inner), bytes, Offset(g, j, r))
  {
    OtherSector(g, ch[j], r / SECTOR, ch[i], inner / SECTOR);
    InChunk(ClusterBytes(g), i, inner, |bytes|, j, r);
  }

  /** Two writes in a row, the second where the first stopped. */
  lemma OverlaidMore(g: Geometry, disk: Disk, disk1: Disk, disk2: Disk, ch: seq<nat>, off: nat, a: seq<Byte>,
                     b: seq<Byte>)
    requires |disk2| == |disk1| == |disk|
    requires Overlaid(g, disk, disk1, ch, off, a) && Overlaid(g, disk1, disk2, ch, off + |a|, b)
    ensures Overlaid(g, disk, disk2, ch, off, a + b)
  {
    forall j, r {:trigger At(g, disk2, ch, j, r)} | 0 <= j < |ch| && Backed(g, |disk|, ch[j])
      && 0 <= r < ClusterBytes(g)
      ensures At(g, disk2, ch, j, r) == Over(At(g, disk, ch, j, r), off, a + b, Offset(g, j, r))
    {
      assert At(g, disk1, ch, j, r) == Over(At(g, disk, ch, j, r), off, a, Offset(g, j, r));
    }
  }

  /** A chain that gains a cluster which nothing has been written to. */
  lemma OverlaidGrows(g: Geometry, disk: Disk, disk1: Disk, disk2: Disk, ch: seq<nat>, c: nat, off: nat,
                      data: seq<Byte>)
    requires |disk1| == |disk| && c !in ch
    requires Overlaid(g, disk, disk1, ch, off, data) && Untouched(g, disk, disk1, ch) && SameData(g, disk1, disk2)
    ensures Overlaid(g, disk, disk2, ch + [c], off, data)
  {
    var ch' := ch + [c];
    TimesStep(|ch|, |ch'|, ClusterBytes(g));
    InChainGrows(g, |disk|, ch, c, off, |data|);
    forall j, r {:trigger At(g, disk2, ch', j, r)} | 0 <= j < |ch'| && Backed(g, |disk|, ch'[j])
      && 0 <= r < ClusterBytes(g)
      ensures At(g, disk2, ch', j, r) == Over(At(g, disk, ch', j, r), off, data, Offset(g, j, r))
    {
      if j < |ch| {
        OldByte(g, disk, disk1, disk2, ch, c, j, r);
        assert At(g, disk1, ch, j, r) == Over(At(g, disk, ch, j, r), off, data, Offset(g, j, r));
      } else {
        NewByte(g, disk, disk1, disk2, ch, c, r);
      }
    }
  }

  lemma InChainGrows(g: Geometry, sectors: nat, ch: seq<nat>, c: nat, off: nat, len: nat)
    requires InChain(g, sectors, ch, off, len)
    ensures InChain(g, sectors, ch + [c], off, len)
  {
    var ch' := ch + [c];
    TimesStep(|ch|, |ch'|, ClusterBytes(g));
    forall j, r {:trigger Offset(g, j, r)} | 0 <= j < |ch'| && 0 <= r < ClusterBytes(g)
      && off <= Offset(g, j, r) < off + len
      ensures Backed(g, sectors, ch'[j])
    {
      if j < |ch| {
        assert ch'[j] == ch[j];
      }
    }
  }

  lemma UntouchedGrows(g: Geometry, disk: Disk, disk1: Disk, disk2: Disk, ch: seq<nat>, c: nat)
    requires Untouched(g, disk, disk1, ch) && SameData(g, disk1, disk2)
    ensures Untouched(g, disk, disk2, ch + [c])
  {
    forall d, s {:trigger SectorOf(g, d, s)} | Backed(g, |disk|, d) && d !in ch + [c] && 0 <= s < g.perCluster
      ensures disk2[SectorOf(g, d, s)] == disk[SectorOf(g, d, s)]
    {
      assert d !in ch;
    }
  }

  lemma OldByte(g: Geometry, disk: Disk, disk1: Disk, disk2: Disk, ch: seq<nat>, c: nat, j: nat, r: nat)
    requires |disk1| == |disk| && SameData(g, disk1, disk2)
    requires j < |ch| && r < ClusterBytes(g) && Backed(g, |disk|, ch[j])
    ensures At(g, disk2, ch + [c], j, r) == At(g, disk1, ch, j, r)
            && At(g, disk, ch + [c], j, r) == At(g, disk, ch, j, r)
  {
    assert g.dataStart <= SectorOf(g, ch[j], r / SECTOR) < |disk|;
  }

  lemma NewByte(g: Geometry, disk: Disk, disk1: Disk, disk2: Disk, ch: seq<nat>, c: nat, r: nat)
    requires |disk1| == |disk| && Backed(g, |disk|, c) && c !in ch
    requires Untouched(g, disk, disk1, ch) && SameData(g, disk1, disk2) && r < ClusterBytes(g)
    ensures At(g, disk2, ch + [c], |ch|, r) == At(g, disk, ch + [c], |ch|, r)
  {
    assert g.dataStart <= SectorOf(g, c, r / SECTOR) < |disk|;
  }

  // ---- a chain that has grown, and sectors that have been written ----

  lemma {:induction false} BytesGrow(g: Geometry, disk: Disk, disk1: Disk, disk2: Disk, ch: seq<nat>, ch': seq<nat>,
                                     off: nat, data: seq<Byte>)
    requires |disk1| == |disk| && ch <= ch' && Distinct(ch')
    requires Overlaid(g, disk, disk1, ch, off, data) && Untouched(g, disk, disk1, ch) && SameData(g, disk1, disk2)
    ensures Overlaid(g, disk, disk2, ch', off, data) && Untouched(g, disk, disk2, ch')
    decreases |ch'| - |ch|
  {
    if |ch| == |ch'| {
      assert ch == ch';
      SameBytes(g, disk, disk1, disk2, ch, off, data);
      UntouchedSame(g, disk, disk1, disk2, ch);
    } else {
      var c := ch'[|ch|];
      assert c !in ch;
      OverlaidGrows(g, disk, disk1, disk2, ch, c, off, data);
      UntouchedGrows(g, disk, disk1, disk2, ch, c);
      BytesGrow(g, disk, disk2, disk2, ch + [c], ch', off, data);
    }
  }

  lemma SameBytes(g: Geometry, disk: Disk, disk1: Disk, disk2: Disk, ch: seq<nat>, off: nat, data: seq<Byte>)
    requires |disk1| == |disk| && Overlaid(g, disk, disk1, ch, off, data) && SameData(g, disk1, disk2)
    ensures Overlaid(g, disk, disk2, ch, off, data)
  {
    forall j, r {:trigger At(g, disk2, ch, j, r)} | 0 <= j < |ch| && Backed(g, |disk|, ch[j])
      && 0 <= r < ClusterBytes(g)
      ensures At(g, disk2, ch, j, r) == Over(At(g, disk, ch, j, r), off, data, Offset(g, j, r))
    {
      SameByte(g, disk1, disk2, ch, j, r);
    }
  }

  lemma SameByte(g: Geometry, disk1: Disk, disk2: Disk, ch: seq<nat>, j: nat, r: nat)
    requires SameData(g, disk1, disk2) && j < |ch| && r < ClusterBytes(g) && Backed(g, |disk1|, ch[j])
    ensures At(g, disk2, ch, j, r) == At(g, disk1, ch, j, r)
  {
    assert g.dataStart <= SectorOf(g, ch[j], r / SECTOR) < |disk1|;
  }

  lemma UntouchedSame(g: Geometry, disk: Disk, disk1: Disk, disk2: Disk, ch: seq<nat>)
    requires Untouched(g, disk, disk1, ch) && SameData(g, disk1, disk2)
    ensures Untouched(g, disk, disk2, ch)
  {
  }

  lemma FatSurvives(g: Geometry, disk: Disk, t: Fat, at: nat, s: Sector)
    requires g.fatStart <= g.dataStart <= at < |disk| && Holds(g, disk, t)
    ensures Holds(g, disk[at := s], t)
  {
    var disk' := disk[at := s];
    forall c {:trigger RawEntry(g, disk', c)} | 0 <= c < |t|
      ensures t[c] == RawEntry(g, disk', c) % ENTRY_RANGE
    {
      assert RawEntry(g, disk, c) == RawEntry(g, disk', c);
    }
  }

  /** Every other file reads as before. */
  lemma OthersKept(g: Geometry, disk: Disk, t: Fat, files: Files, disk': Disk, t': Fat, files': Files, f: nat, h: nat)
    requires VolumeOk(g, disk', t', files') && f in files && f in files' && Grown(t, files, t', files', f)
    requires Untouched(g, disk, disk', files'[f]) && g.perCluster > 0
    requires h in files && h != f && AllBacked(g, |disk|, files[h])
    ensures h in files' && files'[h] == files[h] && Content(g, disk', files'[h]) == Content(g, disk, files[h])
  {
    var ch, m := files[h], ClusterBytes(g);
    assert Apart(files'[h], files'[f]);
    forall j, r {:trigger At(g, disk', ch, j, r)} | 0 <= j < |ch| && 0 <= r < m
      ensures Backed(g, |disk|, ch[j]) && At(g, disk', ch, j, r) == At(g, disk, ch, j, r)
    {
      assert Backed(g, |disk|, ch[j]) && ch[j] in ch;
    }
    SameContent(g, disk, disk', ch);
  }

  lemma SameContent(g: Geometry, disk: Disk, disk': Disk, ch: seq<nat>)
    requires g.perCluster > 0 && |disk'| == |disk| && AllBacked(g, |disk|, ch)
    requires forall j, r {:trigger At(g, disk', ch, j, r)} | 0 <= j < |ch| && 0 <= r < ClusterBytes(g) ::
               At(g, disk', ch, j, r) == At(g, disk, ch, j, r)
    ensures Content(g, disk', ch) == Content(g, disk, ch)
  {
    forall k | 0 <= k < |Content(g, disk, ch)|
      ensures Content(g, disk', ch)[k] == Content(g, disk, ch)[k]
    {
      var j, r := ContentByte(g, disk, ch, k);
      assert At(g, disk', ch, j, r) == At(g, disk, ch, j, r);
    }
  }

  lemma ContentByte(g: Geometry, disk: Disk, ch: seq<nat>, k: nat) returns (j: nat, r: nat)
    requires g.perCluster > 0 && AllBacked(g, |disk|, ch) && k < |Content(g, disk, ch)|
    ensures j < |ch| && r < ClusterBytes(g) && Offset(g, j, r) == k
    ensures forall d: Disk {:trigger Content(g, d, ch)} | |d| == |disk| :: Content(g, d, ch)[k] == At(g, d, ch, j, r)
  {
    SplitBelow(k, |ch|, ClusterBytes(g));
    var p := Split(k, ClusterBytes(g));
    j, r := p.0, p.1;
  }

  /** The written file reads as before with the data laid over it. */
  lemma FileWritten(g: Geometry, disk: Disk, disk': Disk, ch: seq<nat>, off: nat, data: seq<Byte>)
    requires g.perCluster > 0 && |disk'| == |disk| && AllBacked(g, |disk|, ch)
             && Overlaid(g, disk, disk', ch, off, data)
    requires data != []
    ensures var was, now := Content(g, disk, ch), Content(g, disk', ch);
            off + |data| <= |was| && now == was[..off] + data + was[off + |data|..]
  {
    var was, now := Content(g, disk, ch), Content(g, disk', ch);
    forall k | 0 <= k < |was|
      ensures now[k] == Over(was[k], off, data, k)
    {
      WrittenByte(g, disk, disk', ch, off, data, k);
    }
    Laid(was, now, off, data);
  }

  lemma WrittenByte(g: Geometry, disk: Disk, disk': Disk, ch: seq<nat>, off: nat, data: seq<Byte>, k: nat)
    requires g.perCluster > 0 && |disk'| == |disk| && AllBacked(g, |disk|, ch)
             && Overlaid(g, disk, disk', ch, off, data)
    requires k < |Content(g, disk, ch)|
    ensures Content(g, disk', ch)[k] == Over(Content(g, disk, ch)[k], off, data, k)
  {
    var j, r := ContentByte(g, disk, ch, k);
    assert At(g, disk', ch, j, r) == Over(At(g, disk, ch, j, r), off, data, k);
  }

  lemma Laid(was: seq<Byte>, now: seq<Byte>, off: nat, data: seq<Byte>)
    requires |now| == |was| && off + |data| <= |was|
    requires forall k | 0 <= k < |was| :: now[k] == Over(was[k], off, data, k)
    ensures now == was[..off] + data + was[off + |data|..]
  {
  }

  // ---- reading ----

  lemma {:induction false} SplitUnique(j: nat, m: nat, r: nat)
    requires r < m
    ensures Split(Times(j, m) + r, m) == (j, r)
  {
    if j > 0 {
      SplitUnique(j - 1, m, r);
      assert Times(j, m) + r - m == Times(j - 1, m) + r;
    }
  }

  lemma ContentIs(g: Geometry, disk: Disk, ch: seq<nat>, k: nat, p: (nat, nat))
    requires g.perCluster > 0 && AllBacked(g, |disk|, ch) && k < Offset(g, |ch|, 0) && p == Split(k, ClusterBytes(g))
    ensures p.0 < |ch| && Content(g, disk, ch)[k] == At(g, disk, ch, p.0, p.1)
  {
    SplitBelow(k, |ch|, ClusterBytes(g));
  }

  lemma ContentAt(g: Geometry, disk: Disk, ch: seq<nat>, j: nat, r: nat)
    requires g.perCluster > 0 && AllBacked(g, |disk|, ch) && j < |ch| && r < ClusterBytes(g)
    ensures Offset(g, j, r) < |Content(g, disk, ch)| && Content(g, disk, ch)[Offset(g, j, r)] == At(g, disk, ch, j, r)
  {
    TimesStep(j, |ch|, ClusterBytes(g));
    SplitUnique(j, ClusterBytes(g), r);
    ContentIs(g, disk, ch, Offset(g, j, r), (j, r));
  }

  lemma SectorByte(g: Geometry, disk: Disk, ch: seq<nat>, i: nat, s: nat, b: nat)
    requires g.perCluster > 0 && AllBacked(g, |disk|, ch) && i < |ch| && s < g.perCluster && b < SECTOR
    ensures Backed(g, |disk|, ch[i]) && SectorOf(g, ch[i], s) < |disk|
    ensures Offset(g, i, s * SECTOR) + b < |Content(g, disk, ch)|
    ensures Content(g, disk, ch)[Offset(g, i, s * SECTOR) + b] == disk[SectorOf(g, ch[i], s)][b]
  {
    var r := s * SECTOR + b;
    assert r / SECTOR == s && r % SECTOR == b;
    ContentAt(g, disk, ch, i, r);
  }

  /** Reading on by (part of) the next sector of the chain. */
  lemma ReadOn(g: Geometry, disk: Disk, ch: seq<nat>, i: nat, s: nat, out: seq<Byte>, chunk: nat)
    requires g.perCluster > 0 && AllBacked(g, |disk|, ch) && i < |ch| && s < g.perCluster && 0 < chunk <= SECTOR
    requires |out| == Offset(g, i, s * SECTOR) && out <= Content(g, disk, ch)
    ensures Backed(g, |disk|, ch[i]) && SectorOf(g, ch[i], s) < |disk|
    ensures out + disk[SectorOf(g, ch[i], s)][..chunk] <= Content(g, disk, ch)
  {
    SectorByte(g, disk, ch, i, s, chunk - 1);
    var content, sector := Content(g, disk, ch), disk[SectorOf(g, ch[i], s)];
    forall b | 0 <= b < chunk
      ensures content[|out| + b] == sector[b]
    {
      SectorByte(g, disk, ch, i, s, b);
    }
    Continues(content, out, sector[..chunk]);
  }

  lemma Continues(content: seq<Byte>, out: seq<Byte>, more: seq<Byte>)
    requires out <= content && |out| + |more| <= |content|
    requires forall b | 0 <= b < |more| :: content[|out| + b] == more[b]
    ensures out + more <= content
  {
  }
}
