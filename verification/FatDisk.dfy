/** The on-disk layout a mounted FAT32 volume uses (src/fs/fat32/fat32.c): 512-byte sectors, a
    table of little-endian 32-bit entries, then the data clusters. */
module FatDisk {
  import opened Values

  type Sector = s: seq<Byte> | |s| == 512 witness seq(512, i => 0)

  type Disk = seq<Sector>

  const SECTOR: nat := 512

  const ENTRY_RANGE: nat := 0x1000_0000

  /** Any entry from here on ends a chain. */
  const EOC: nat := 0x0FFF_FFF8

  /** What fat32_mount computes from the boot sector. */
  datatype Geometry = Geometry(fatStart: nat, dataStart: nat, perCluster: nat)

  function Entries(g: Geometry): nat
    requires g.fatStart <= g.dataStart
  {
    (g.dataStart - g.fatStart) * 128
  }

  /** The table lies below the data and addresses only cluster numbers that are not end marks. */
  ghost predicate GeometryOk(g: Geometry, sectors: nat) {
    && g.fatStart <= g.dataStart <= sectors <= WORD
    && g.perCluster > 0
    && Entries(g) < EOC
  }

  const WORD: nat := 0x1_0000_0000

  /** The last cluster the table has an entry for ends within 32-bit sector numbers. */
  predicate FitsWord(g: Geometry)
    requires g.fatStart <= g.dataStart
  {
    Entries(g) > 2 ==> g.dataStart + (Entries(g) - 2) * g.perCluster <= WORD
  }

  // ---- table entries ----

  function Le32(s: Sector, o: nat): (r: nat)
    requires o + 4 <= 512
    ensures r < 0x1_0000_0000
  {
    (s[o] as nat) + 0x100 * (s[o + 1] as nat) + 0x1_0000 * (s[o + 2] as nat) + 0x100_0000 * (s[o + 3] as nat)
  }

  lemma LeBytes(v: nat)
    requires v < 0x1_0000_0000
    ensures v / 0x100_0000 < 0x100
    ensures v % 0x100 + 0x100 * (v / 0x100 % 0x100) + 0x1_0000 * (v / 0x1_0000 % 0x100)
            + 0x100_0000 * (v / 0x100_0000) == v
  {
    assert v / 0x1_0000 == v / 0x100 / 0x100 && v / 0x100_0000 == v / 0x1_0000 / 0x100;
  }

  function PutLe32(s: Sector, o: nat, v: nat): (r: Sector)
    requires o + 4 <= 512 && v < 0x1_0000_0000
    ensures Le32(r, o) == v
    ensures forall i | 0 <= i < 512 && !(o <= i < o + 4) :: r[i] == s[i]
  {
    LeBytes(v);
    s[o := v % 0x100][o + 1 := v / 0x100 % 0x100][o + 2 := v / 0x1_0000 % 0x100][o + 3 := v / 0x100_0000]
  }

  function RawEntry(g: Geometry, disk: Disk, c: nat): nat
    requires g.fatStart <= g.dataStart <= |disk| && c < Entries(g)
  {
    Le32(disk[g.fatStart + c / 128], c % 128 * 4)
  }

  type Fat = seq<nat>

  /** t is the allocation table as the code reads it: the low 28 bits of every entry. */
  ghost predicate Holds(g: Geometry, disk: Disk, t: Fat)
    requires g.fatStart <= g.dataStart <= |disk|
  {
    |t| == Entries(g) && forall c {:trigger RawEntry(g, disk, c)} | 0 <= c < |t| ::
      t[c] == RawEntry(g, disk, c) % ENTRY_RANGE
  }

  /** fat_write: the new 28 bits under the old top four. */
  function SetEntry(g: Geometry, disk: Disk, c: nat, v: nat): (r: Disk)
    requires g.fatStart <= g.dataStart <= |disk| && c < Entries(g)
    ensures |r| == |disk|
  {
    var s, raw := g.fatStart + c / 128, RawEntry(g, disk, c);
    disk[s := PutLe32(disk[s], c % 128 * 4, raw / ENTRY_RANGE * ENTRY_RANGE + v % ENTRY_RANGE)]
  }

  lemma EntryElsewhere(g: Geometry, disk: Disk, c: nat, v: nat, d: nat)
    requires g.fatStart <= g.dataStart <= |disk| && c < Entries(g) && d < Entries(g) && c != d
    ensures RawEntry(g, SetEntry(g, disk, c, v), d) == RawEntry(g, disk, d)
  {
    if c / 128 == d / 128 {
      assert c % 128 != d % 128;
      assert c % 128 * 4 + 4 <= d % 128 * 4 || d % 128 * 4 + 4 <= c % 128 * 4;
    }
  }

  lemma EntryHere(g: Geometry, disk: Disk, c: nat, v: nat)
    requires g.fatStart <= g.dataStart <= |disk| && c < Entries(g)
    ensures RawEntry(g, SetEntry(g, disk, c, v), c) % ENTRY_RANGE == v % ENTRY_RANGE
    ensures RawEntry(g, SetEntry(g, disk, c, v), c) / ENTRY_RANGE == RawEntry(g, disk, c) / ENTRY_RANGE
  {
  }

  /** Writing an entry changes that entry's low 28 bits and nothing else on the disk: not its top
      four bits, not another entry, not a sector outside the table. */
  lemma SetEntryChangesOneEntry(g: Geometry, disk: Disk, t: Fat, c: nat, v: nat)
    requires g.fatStart <= g.dataStart <= |disk| && c < Entries(g) && Holds(g, disk, t)
    ensures Holds(g, SetEntry(g, disk, c, v), t[c := v % ENTRY_RANGE])
    ensures forall d | 0 <= d < Entries(g) ::
              RawEntry(g, SetEntry(g, disk, c, v), d) / ENTRY_RANGE == RawEntry(g, disk, d) / ENTRY_RANGE
    ensures forall s | 0 <= s < |disk| && !(g.fatStart <= s < g.dataStart) :: SetEntry(g, disk, c, v)[s] == disk[s]
  {
    var disk' := SetEntry(g, disk, c, v);
    forall d {:trigger RawEntry(g, disk', d)} | 0 <= d < Entries(g)
      ensures RawEntry(g, disk', d) % ENTRY_RANGE == t[c := v % ENTRY_RANGE][d]
      ensures RawEntry(g, disk', d) / ENTRY_RANGE == RawEntry(g, disk, d) / ENTRY_RANGE
    {
      if d == c {
        EntryHere(g, disk, c, v);
      } else {
        EntryElsewhere(g, disk, c, v, d);
      }
    }
  }

  // ---- data clusters ----

  /** n * m, by repeated addition. */
  function Times(n: nat, m: nat): nat {
    if n == 0 then 0 else Times(n - 1, m) + m
  }

  lemma {:induction false} TimesIsProduct(n: nat, m: nat)
    ensures Times(n, m) == n * m
  {
    if n > 0 {
      TimesIsProduct(n - 1, m);
      assert n * m == (n - 1) * m + m;
    }
  }

  lemma {:induction false} TimesStep(a: nat, b: nat, m: nat)
    requires a < b
    ensures Times(a, m) + m <= Times(b, m)
  {
    if a + 1 < b {
      TimesStep(a, b - 1, m);
    }
  }

  /** The sector at an index inside the cluster. */
  function SectorOf(g: Geometry, c: nat, s: nat): nat
    requires c >= 2
  {
    g.dataStart + Times(c - 2, g.perCluster) + s
  }

  /** The cluster's sectors exist. */
  predicate Backed(g: Geometry, sectors: nat, c: nat) {
    c >= 2 && SectorOf(g, c, g.perCluster) <= sectors
  }

  /** The clusters with sectors are the lowest ones. */
  lemma BackedBelow(g: Geometry, sectors: nat, c: nat, d: nat)
    requires 2 <= c <= d && Backed(g, sectors, d)
    ensures Backed(g, sectors, c)
  {
    if c < d {
      TimesStep(c - 2, d - 2, g.perCluster);
    }
  }

  /** Different clusters occupy different sectors. */
  lemma SectorsApart(g: Geometry, c: nat, s: nat, d: nat, r: nat)
    requires c >= 2 && d >= 2 && s < g.perCluster && r < g.perCluster && SectorOf(g, c, s) == SectorOf(g, d, r)
    ensures c == d && s == r
  {
    if c < d {
      TimesStep(c - 2, d - 2, g.perCluster);
    } else if d < c {
      TimesStep(d - 2, c - 2, g.perCluster);
    }
  }

  /** cluster_to_sector, plus a sector index inside the cluster, as the code computes it: in 32 bits. */
  function Sector32(g: Geometry, c: nat, s: nat): nat
    requires c >= 2
  {
    SectorOf(g, c, s) % WORD
  }

  lemma InWord(g: Geometry, c: nat, s: nat)
    requires g.fatStart <= g.dataStart && FitsWord(g) && 2 <= c < Entries(g) && s < g.perCluster
    ensures SectorOf(g, c, s) < WORD && Sector32(g, c, s) == SectorOf(g, c, s)
  {
    TimesStep(c - 2, Entries(g) - 2, g.perCluster);
    TimesIsProduct(Entries(g) - 2, g.perCluster);
  }

  /** The 32-bit arithmetic finds every cluster of the table if and only if the last one ends within it. */
  lemma SectorsExact(g: Geometry)
    requires g.fatStart <= g.dataStart && g.perCluster > 0
    ensures FitsWord(g) <==> forall c, s {:trigger Sector32(g, c, s)} | 2 <= c < Entries(g) && 0 <= s < g.perCluster ::
                               Sector32(g, c, s) == SectorOf(g, c, s)
  {
    if FitsWord(g) {
      forall c, s | 2 <= c < Entries(g) && 0 <= s < g.perCluster
        ensures Sector32(g, c, s) == SectorOf(g, c, s)
      {
        InWord(g, c, s);
      }
    } else {
      TimesIsProduct(Entries(g) - 2, g.perCluster);
      var last, s := Entries(g) - 1, g.perCluster - 1;
      assert SectorOf(g, last, s) == g.dataStart + Times(Entries(g) - 2, g.perCluster) - 1;
      assert Sector32(g, last, s) < WORD <= SectorOf(g, last, s);
    }
  }

  /** Otherwise two clusters may be one on the device: with 128 sectors to a cluster, and a table of half a
      million sectors, cluster 2 and the one 2^25 behind it. */
  lemma WrappedClustersMeet(s: nat)
    requires s < 128
    ensures var g := Geometry(32, 32 + 0x8_0000, 128);
            && Entries(g) < EOC && 0x200_0002 < Entries(g) && !FitsWord(g)
            && Sector32(g, 0x200_0002, s) == Sector32(g, 2, s) == SectorOf(g, 2, s)
  {
    var g := Geometry(32, 32 + 0x8_0000, 128);
    TimesIsProduct(0x200_0000, 128);
    TimesIsProduct(0, 128);
    var at := 32 + 0x8_0000 + s;
    assert SectorOf(g, 0x200_0002, s) == at + WORD && SectorOf(g, 2, s) == at;
    assert (at + WORD) % WORD == at;
  }

  function ClusterBytes(g: Geometry): nat {
    g.perCluster * SECTOR
  }

  predicate AllBacked(g: Geometry, sectors: nat, ch: seq<nat>) {
    forall i | 0 <= i < |ch| :: Backed(g, sectors, ch[i])
  }

  /** Byte r of the j-th cluster of a chain. */
  function At(g: Geometry, disk: Disk, ch: seq<nat>, j: nat, r: nat): Byte
    requires j < |ch| && r < ClusterBytes(g) && Backed(g, |disk|, ch[j])
  {
    disk[SectorOf(g, ch[j], r / SECTOR)][r % SECTOR]
  }

  /** Where in the file that byte is. */
  function Offset(g: Geometry, j: nat, r: nat): nat {
    Times(j, ClusterBytes(g)) + r
  }

  /** Quotient and remainder. */
  function Split(k: nat, m: nat): (p: (nat, nat))
    requires m > 0
    ensures p.1 < m && Times(p.0, m) + p.1 == k
  {
    if k < m then (0, k)
    else
      var (q, r) := Split(k - m, m);
      (q + 1, r)
  }

  lemma SplitBelow(k: nat, n: nat, m: nat)
    requires m > 0 && k < Times(n, m)
    ensures Split(k, m).0 < n
  {
    var q := Split(k, m).0;
    if n < q {
      TimesStep(n, q, m);
    }
  }

  /** The whole content of a cluster chain, slack included. */
  function Content(g: Geometry, disk: Disk, ch: seq<nat>): (bytes: seq<Byte>)
    requires g.perCluster > 0 && AllBacked(g, |disk|, ch)
    ensures |bytes| == Offset(g, |ch|, 0)
  {
    seq(Offset(g, |ch|, 0), k requires 0 <= k < Offset(g, |ch|, 0) =>
      SplitBelow(k, |ch|, ClusterBytes(g));
      var p := Split(k, ClusterBytes(g));
      At(g, disk, ch, p.0, p.1))
  }
}
