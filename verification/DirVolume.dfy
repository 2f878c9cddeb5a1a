/** A directory on a mounted volume: the slots the iterator walks are what the contents of the directory's
    cluster chain decode to (struct dir_entry and fat32_dir_iterate, src/fs/fat32/fat32.c). */
module DirVolume {
  import opened Values
  import D = DirSlots
  import opened DirRecords
  import opened FatDisk
  import opened FatChains
  import opened FatContents

  const SLOT: nat := 32

  function Le16(b: seq<Byte>, at: nat): nat
    requires at + 2 <= |b|
  {
    (b[at] as nat) + 0x100 * (b[at + 1] as nat)
  }

  /** A 32-byte directory entry: short name, attributes, first cluster in two halves, size. */
  function Decoded(b: seq<Byte>): D.Slot
    requires |b| == SLOT
  {
    D.Slot(b[..11], b[11], 0x1_0000 * Le16(b, 20) + Le16(b, 26), Le16(b, 28) + 0x1_0000 * Le16(b, 30))
  }

  /** A slot is read back from its fields: name, attributes, eight bytes of no concern, the cluster's high
      half, the time and date of the last write, its low half, and the size. */
  lemma SlotRoundTrip(s: D.Slot, times: seq<Byte>, written: seq<Byte>)
    requires |times| == 8 && |written| == 4 && s.cluster < 0x1_0000_0000 && s.size < 0x1_0000_0000
    ensures Decoded(s.name + [s.attr] + times + Le(s.cluster / 0x1_0000, 2) + written + Le(s.cluster % 0x1_0000, 2)
                    + Le(s.size % 0x1_0000, 2) + Le(s.size / 0x1_0000, 2)) == s
  {
    var b := s.name + [s.attr] + times + Le(s.cluster / 0x1_0000, 2) + written + Le(s.cluster % 0x1_0000, 2)
             + Le(s.size % 0x1_0000, 2) + Le(s.size / 0x1_0000, 2);
    HalfRead(b, 20, s.cluster / 0x1_0000);
    HalfRead(b, 26, s.cluster % 0x1_0000);
    HalfRead(b, 28, s.size % 0x1_0000);
    HalfRead(b, 30, s.size / 0x1_0000);
  }

  lemma HalfRead(b: seq<Byte>, at: nat, x: nat)
    requires at + 2 <= |b| && b[at..at + 2] == Le(x, 2) && x < 0x1_0000
    ensures Le16(b, at) == x
  {
    assert b[at] == b[at..at + 2][0] && b[at + 1] == b[at..at + 2][1];
    assert Le(x, 2) == [x % 256] + Le(x / 256, 1) && Le(x / 256, 1) == [x / 256 % 256] + Le(x / 256 / 256, 0);
  }

  function SlotsOf(sector: Sector): (r: D.Sector)
    ensures forall k | 0 <= k < 16 :: r[k] == Decoded(sector[SLOT * k..SLOT * k + SLOT])
  {
    seq(16, k requires 0 <= k < 16 => Decoded(sector[SLOT * k..SLOT * k + SLOT]))
  }

  /** The sectors the iterator reads, cluster by cluster. */
  function ClusterSlots(g: Geometry, disk: Disk, c: nat): (r: seq<D.Sector>)
    requires Backed(g, |disk|, c)
    ensures |r| == g.perCluster
    ensures forall s | 0 <= s < g.perCluster :: r[s] == SlotsOf(disk[SectorOf(g, c, s)])
  {
    seq(g.perCluster, s requires 0 <= s < g.perCluster => SlotsOf(disk[SectorOf(g, c, s)]))
  }

  function Directory(g: Geometry, disk: Disk, ch: seq<nat>): (r: seq<seq<D.Sector>>)
    requires AllBacked(g, |disk|, ch)
    ensures |r| == |ch| && forall i | 0 <= i < |ch| :: Backed(g, |disk|, ch[i]) && r[i] == ClusterSlots(g, disk, ch[i])
  {
    seq(|ch|, i requires 0 <= i < |ch| => ClusterSlots(g, disk, ch[i]))
  }

  /** Sixteen slots to a sector. */
  lemma {:induction false} FlatSize(g: Geometry, disk: Disk, ch: seq<nat>, n: nat)
    requires AllBacked(g, |disk|, ch) && n <= |ch|
    ensures |D.Flat(Directory(g, disk, ch)[..n])| == Times(n, 16 * g.perCluster)
  {
    var dir := Directory(g, disk, ch);
    if n > 0 {
      FlatSize(g, disk, ch, n - 1);
      assert dir[..n][..n - 1] == dir[..n - 1] && dir[..n][n - 1] == dir[n - 1];
    } else {
      assert dir[..0] == [];
    }
  }

  lemma {:induction false} BytesPerCluster(g: Geometry, n: nat)
    ensures Times(n, ClusterBytes(g)) == SLOT * Times(n, 16 * g.perCluster)
  {
    if n > 0 {
      BytesPerCluster(g, n - 1);
    }
  }

  /** The bytes of slot k of sector s of cluster i. */
  lemma SlotBytes(g: Geometry, disk: Disk, ch: seq<nat>, i: nat, s: nat, k: nat, at: nat)
    requires g.perCluster > 0 && AllBacked(g, |disk|, ch) && i < |ch| && s < g.perCluster && k < 16
    requires at == Offset(g, i, s * SECTOR) + SLOT * k
    ensures Backed(g, |disk|, ch[i]) && at + SLOT <= |Content(g, disk, ch)|
    ensures Content(g, disk, ch)[at..at + SLOT] == disk[SectorOf(g, ch[i], s)][SLOT * k..SLOT * k + SLOT]
  {
    var bytes, sector := Content(g, disk, ch), disk[SectorOf(g, ch[i], s)];
    SectorByte(g, disk, ch, i, s, SLOT * k + (SLOT - 1));
    forall j | at <= j < at + SLOT
      ensures bytes[j] == sector[j - at + SLOT * k]
    {
      SectorByte(g, disk, ch, i, s, j - at + SLOT * k);
    }
  }

  lemma SlotInFlat(g: Geometry, disk: Disk, ch: seq<nat>, i: nat, s: nat, k: nat, n: nat)
    requires AllBacked(g, |disk|, ch) && i < |ch| && s < g.perCluster && k < 16
    requires n == Times(i, 16 * g.perCluster) + 16 * s + k
    ensures n < |D.Flat(Directory(g, disk, ch))| && Backed(g, |disk|, ch[i])
    ensures D.Flat(Directory(g, disk, ch))[n] == SlotsOf(disk[SectorOf(g, ch[i], s)])[k]
  {
    FlatSize(g, disk, ch, i);
    D.SlotAt(Directory(g, disk, ch), i, s, k);
  }

  lemma SlotOffset(g: Geometry, i: nat, s: nat, k: nat, n: nat)
    requires n == Times(i, 16 * g.perCluster) + 16 * s + k
    ensures SLOT * n == Offset(g, i, s * SECTOR) + SLOT * k
  {
    BytesPerCluster(g, i);
  }

  lemma SameSlot(sector: Sector, k: nat, bytes: seq<Byte>)
    requires k < 16 && bytes == sector[SLOT * k..SLOT * k + SLOT]
    ensures SlotsOf(sector)[k] == Decoded(bytes)
  {
  }

  /** The same slot in the flat list and in the bytes. */
  lemma SlotThere(g: Geometry, disk: Disk, ch: seq<nat>, i: nat, s: nat, k: nat, n: nat)
    requires g.perCluster > 0 && AllBacked(g, |disk|, ch) && i < |ch| && s < g.perCluster && k < 16
    requires n == Times(i, 16 * g.perCluster) + 16 * s + k
    ensures n < |D.Flat(Directory(g, disk, ch))| && SLOT * n + SLOT <= |Content(g, disk, ch)|
    ensures D.Flat(Directory(g, disk, ch))[n] == Decoded(Content(g, disk, ch)[SLOT * n..SLOT * n + SLOT])
  {
    var at := SLOT * n;
    SlotOffset(g, i, s, k, n);
    SlotBytes(g, disk, ch, i, s, k, at);
    SlotInFlat(g, disk, ch, i, s, k, n);
    SameSlot(disk[SectorOf(g, ch[i], s)], k, Content(g, disk, ch)[at..at + SLOT]);
  }

  lemma Place(g: Geometry, n: nat, count: nat) returns (i: nat, s: nat, k: nat)
    requires g.perCluster > 0 && n < Times(count, 16 * g.perCluster)
    ensures i < count && s < g.perCluster && k < 16 && n == Times(i, 16 * g.perCluster) + 16 * s + k
  {
    SplitBelow(n, count, 16 * g.perCluster);
    var p := Split(n, 16 * g.perCluster);
    i, s, k := p.0, p.1 / 16, p.1 % 16;
  }

  /** The directory is its contents, decoded 32 bytes at a time. */
  lemma DirectoryIsContent(g: Geometry, disk: Disk, ch: seq<nat>, n: nat)
    requires g.perCluster > 0 && AllBacked(g, |disk|, ch)
    ensures SLOT * |D.Flat(Directory(g, disk, ch))| == |Content(g, disk, ch)|
    ensures n < |D.Flat(Directory(g, disk, ch))| ==>
              D.Flat(Directory(g, disk, ch))[n] == Decoded(Content(g, disk, ch)[SLOT * n..SLOT * n + SLOT])
  {
    WholeSize(g, disk, ch);
    if n < |D.Flat(Directory(g, disk, ch))| {
      var i, s, k := Place(g, n, |ch|);
      SlotThere(g, disk, ch, i, s, k, n);
    }
  }

  lemma WholeSize(g: Geometry, disk: Disk, ch: seq<nat>)
    requires g.perCluster > 0 && AllBacked(g, |disk|, ch)
    ensures |D.Flat(Directory(g, disk, ch))| == Times(|ch|, 16 * g.perCluster)
    ensures SLOT * |D.Flat(Directory(g, disk, ch))| == |Content(g, disk, ch)|
  {
    var dir := Directory(g, disk, ch);
    FlatSize(g, disk, ch, |ch|);
    assert dir[..|ch|] == dir;
    BytesPerCluster(g, |ch|);
  }

  /** Directories with the same contents have the same slots, so the same listing. */
  lemma SameContentSameSlots(g: Geometry, disk: Disk, disk': Disk, ch: seq<nat>)
    requires g.perCluster > 0 && AllBacked(g, |disk|, ch) && AllBacked(g, |disk'|, ch)
    requires Content(g, disk', ch) == Content(g, disk, ch)
    ensures D.Flat(Directory(g, disk', ch)) == D.Flat(Directory(g, disk, ch))
  {
    var a, b := D.Flat(Directory(g, disk, ch)), D.Flat(Directory(g, disk', ch));
    DirectoryIsContent(g, disk, ch, 0);
    DirectoryIsContent(g, disk', ch, 0);
    forall n | 0 <= n < |a|
      ensures b[n] == a[n]
    {
      DirectoryIsContent(g, disk, ch, n);
      DirectoryIsContent(g, disk', ch, n);
    }
  }

  /** Growing and writing a file leaves the listing of every directory whose clusters exist as it was. */
  lemma ListingKept(g: Geometry, disk: Disk, t: Fat, files: Files, disk': Disk, t': Fat, files': Files, f: nat, h: nat,
                    i: nat)
    requires VolumeOk(g, disk', t', files') && f in files && f in files' && Grown(t, files, t', files', f)
    requires Untouched(g, disk, disk', files'[f])
    requires h in files && h != f && AllBacked(g, |disk|, files[h])
    ensures h in files' && AllBacked(g, |disk'|, files'[h])
    ensures D.LiveFrom(D.Flat(Directory(g, disk', files'[h])), i) == D.LiveFrom(D.Flat(Directory(g, disk, files[h])), i)
  {
    OthersKept(g, disk, t, files, disk', t', files', f, h);
    SameContentSameSlots(g, disk, disk', files[h]);
  }
}
