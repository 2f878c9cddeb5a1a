/** Chain walking, extension, offset writes and reads on a mounted volume (src/fs/fat32/fat32.c). The
    block device fails exactly for sectors it does not have. */
module FatVolume {
  import opened FatDisk
  import opened FatChains
  import opened FatContents
  import opened Values

  class Volume {
    const g: Geometry
    var disk: Disk
    // the allocation table the disk holds, and every file's chain by its first cluster
    ghost var fat: Fat
    ghost var files: Files

    ghost predicate Valid()
      reads this
    {
      VolumeOk(g, disk, fat, files)
    }

    /** A mounted volume, with the files its directories name. */
    constructor (geometry: Geometry, contents: Disk, ghost table: Fat, ghost chains: Files)
      requires VolumeOk(geometry, contents, table, chains)
      ensures Valid() && g == geometry && disk == contents && fat == table && files == chains
    {
      g, disk, fat, files := geometry, contents, table, chains;
    }

    /** fat_next. */
    method FatNext(cluster: nat) returns (next: nat)
      requires Valid() && cluster < |fat|
      ensures next == fat[cluster]
    {
      var sector, offset := EntrySpot(g, cluster);
      assert RawEntry(g, disk, cluster) == Le32(disk[sector], offset);
      next := Le32(disk[sector], offset) % ENTRY_RANGE;
    }

    /** fat_write: read the sector, replace the low 28 bits, write it back. */
    method FatWrite(cluster: nat, value: nat)
      requires GeometryOk(g, |disk|) && Holds(g, disk, fat) && cluster < |fat| && value < ENTRY_RANGE
      modifies `disk, `fat
      ensures SameData(g, old(disk), disk) && Holds(g, disk, fat) && fat == old(fat)[cluster := value]
    {
      EntryWritten(g, disk, fat, cluster, value);
      var sector, offset := EntrySpot(g, cluster);
      var existing := Le32(disk[sector], offset);
      disk := disk[sector := PutLe32(disk[sector], offset, existing / ENTRY_RANGE * ENTRY_RANGE + value % ENTRY_RANGE)];
      fat := fat[cluster := value];
    }

    /** fat_alloc_cluster: the lowest free entry, marked as an end of chain; 0 if none is free. The scan
        runs on into the padding of the table and its further copies, so the cluster returned exists
        if and only if some free entry stands for a cluster that does. */
    method AllocCluster() returns (c: nat)
      requires Valid()
      modifies `disk, `fat
      ensures c == 0 ==> unchanged(this) && FreeClusters(fat) == {}
      ensures c != 0 ==> 2 <= c < |old(fat)| && old(fat)[c] == 0 && (forall d | 2 <= d < c :: old(fat)[d] != 0)
      ensures c != 0 ==> SameData(g, old(disk), disk) && Holds(g, disk, fat) && fat == old(fat)[c := FRESH_END]
      ensures c != 0 ==> (Backed(g, |disk|, c) <==> Usable(g, |disk|, old(fat)) != {})
    {
      c := 2;
      while true
        invariant 2 <= c && unchanged(this)
        invariant forall d | 2 <= d < c && d < |fat| :: fat[d] != 0
        decreases |fat| - c
      {
        var sector, offset := EntrySpot(g, c);
        if sector >= g.dataStart {
          return 0;
        }
        assert RawEntry(g, disk, c) == Le32(disk[sector], offset);
        if Le32(disk[sector], offset) % ENTRY_RANGE == 0 {
          LowestExists(g, |disk|, fat, c);
          FatWrite(c, FRESH_END);
          return;
        }
        c := c + 1;
      }
    }

    /** One round of fat_extend_chain. */
    method ExtendOne(cur: nat, ghost f: nat, ghost disk0: Disk, ghost fat0: Fat, ghost files0: Files) returns (nc: nat)
      requires Extended(g, disk0, fat0, files0, disk, fat, files, f) && cur == files[f][|files[f]| - 1]
      modifies this
      ensures nc == 0 ==> unchanged(this) && FreeClusters(fat) == {}
      ensures nc != 0 ==> Extended(g, disk0, fat0, files0, disk, fat, files, f) && files[f] == old(files)[f] + [nc]
    {
      nc := AllocCluster();
      if nc != 0 {
        ghost var disk1 := disk;
        FatWrite(cur, nc);
        SameDataTwice(g, old(disk), disk1, disk);
        ExtendStep(g, disk0, fat0, files0, old(disk), old(fat), files, f, nc, disk, fat);
        files := files[f := files[f] + [nc]];
      }
    }

    /** The closing end mark. */
    method MarkEnd(cur: nat, ghost f: nat, ghost disk0: Disk, ghost fat0: Fat, ghost files0: Files)
      requires Extended(g, disk0, fat0, files0, disk, fat, files, f) && cur == files[f][|files[f]| - 1]
      modifies `disk, `fat
      ensures Extended(g, disk0, fat0, files0, disk, fat, files, f)
    {
      FatWrite(cur, EOC);
      EndStep(g, disk0, fat0, files0, old(disk), old(fat), files, f, disk, fat);
    }

    /** fat_extend_chain. */
    method ExtendChain(last: nat, count: nat, ghost f: nat) returns (firstNew: nat)
      requires Valid() && f in files && last == files[f][|files[f]| - 1]
      modifies this
      ensures Extended(g, old(disk), old(fat), old(files), disk, fat, files, f)
      ensures |files[f]| <= |old(files)[f]| + count
      ensures |files[f]| < |old(files)[f]| + count ==> FreeClusters(fat) == {}
      ensures firstNew == if |files[f]| == |old(files)[f]| then 0 else files[f][|old(files)[f]|]
      ensures count == 0 ==> unchanged(this)
    {
      firstNew := 0;
      var cur, i := last, 0;
      NotYetExtended(g, disk, fat, files, f);
      while i < count
        invariant 0 <= i <= count && Extended(g, old(disk), old(fat), old(files), disk, fat, files, f)
        invariant |files[f]| == |old(files)[f]| + i && cur == files[f][|files[f]| - 1]
        invariant i == 0 ==> unchanged(this)
        invariant firstNew == if i == 0 then 0 else files[f][|old(files)[f]|]
      {
        var nc := ExtendOne(cur, f, old(disk), old(fat), old(files));
        if nc == 0 {
          return;
        }
        if firstNew == 0 {
          firstNew := nc;
        }
        cur := nc;
        i := i + 1;
      }
      if firstNew != 0 {
        MarkEnd(cur, f, old(disk), old(fat), old(files));
      }
    }

    /** The walk of fat_seek_cluster: `want` clusters down the chain. */
    method WalkTo(first: nat, want: nat, create: bool) returns (ok: bool, cluster: nat)
      requires Valid() && first in files
      modifies this
      ensures ok ==> Walked(g, old(disk), old(fat), old(files), disk, fat, files, first, want, cluster)
      ensures !ok ==> Stuck(g, old(disk), old(fat), old(files), disk, fat, files, first, want, create)
      ensures !create ==> unchanged(this)
    {
      ok, cluster := true, first;
      NotYetExtended(g, disk, fat, files, first);
      var i := 0;
      while i < want
        invariant 0 <= i <= want && Walked(g, old(disk), old(fat), old(files), disk, fat, files, first, i, cluster)
        invariant !create ==> unchanged(this)
      {
        cluster, ok := NextOrGrow(cluster, i, create, first, old(disk), old(fat), old(files));
        if !ok {
          StuckFrom(g, old(disk), old(fat), old(files), disk, fat, files, first, i + 1, want, create);
          return;
        }
        i := i + 1;
      }
    }

    /** The body of that walk: the next cluster, allocated if it is missing. */
    method NextOrGrow(cluster: nat, ghost i: nat, create: bool, ghost f: nat, ghost disk0: Disk, ghost fat0: Fat,
                      ghost files0: Files)
      returns (next: nat, found: bool)
      requires Walked(g, disk0, fat0, files0, disk, fat, files, f, i, cluster)
      modifies this
      ensures found ==> Walked(g, disk0, fat0, files0, disk, fat, files, f, i + 1, next)
      ensures !found ==> Stuck(g, disk0, fat0, files0, disk, fat, files, f, i + 1, create)
      ensures !create ==> unchanged(this)
    {
      found := true;
      next := FatNext(cluster);
      assert i < |files[f]| - 1 ==> Follows(fat, files[f], i);
      if next >= EOC {
        if !create {
          return next, false;
        }
        next := ExtendChain(cluster, 1, f);
        ExtendedMore(g, disk0, fat0, files0, old(disk), old(fat), old(files), disk, fat, files, f);
        found := next != 0;
      }
    }

    /** fat_seek_cluster: the cluster holding byte `offset`, growing the file to it if `create`. */
    method SeekCluster(first: nat, offset: nat, create: bool) returns (ok: bool, cluster: nat, inner: nat, ghost j: nat)
      requires Valid() && first in files
      modifies this
      ensures ok ==> Walked(g, old(disk), old(fat), old(files), disk, fat, files, first, j, cluster)
      ensures !ok ==> Stuck(g, old(disk), old(fat), old(files), disk, fat, files, first, j, create)
      ensures inner < ClusterBytes(g) && Offset(g, j, inner) == offset
      ensures !create ==> unchanged(this)
    {
      var want, rest := Locate(g, offset);
      inner, j := rest, want;
      ok, cluster := WalkTo(first, want, create);
    }

    /** The sector loop of fat32_write_at: one cluster's share of the data. It fails only where the
        cluster has no sectors. */
    method FillCluster(cluster: nat, inner0: nat, data: seq<Byte>, sent: nat, ghost j: nat, ghost f: nat,
                       offset: nat, ghost disk0: Disk, ghost fat0: Fat, ghost files0: Files)
                         returns (ok: bool, done: nat)
      requires sent < |data| && Touched(g, disk0, fat0, files0, disk, fat, files, f) && FitsWord(g)
      requires j < |files[f]| && cluster == files[f][j] && inner0 < ClusterBytes(g)
               && Offset(g, j, inner0) == offset + sent
      modifies `disk
      ensures Touched(g, disk0, fat0, files0, disk, fat, files, f) && |disk| == |old(disk)|
      ensures sent <= done <= |data| && (ok ==> sent < done)
      ensures Backed(g, |disk|, cluster) && Wrote(g, disk0, old(disk), files[f], offset, data, sent)
              ==> ok && Wrote(g, disk0, disk, files[f], offset, data, done)
      ensures ok && WholeClusters(g, |disk|) ==> Backed(g, |disk|, cluster)
    {
      var base := ClusterToSector(g, cluster);
      InWord(g, cluster, 0);
      var inner := inner0;
      ok, done := true, sent;
      ghost var good := Backed(g, |disk|, cluster) && Wrote(g, disk0, disk, files[f], offset, data, sent);
      while inner < g.perCluster * SECTOR && done < |data|
        invariant sent <= done <= |data| && inner <= ClusterBytes(g) && Offset(g, j, inner) == offset + done
        invariant done == sent ==> inner == inner0
        invariant Touched(g, disk0, fat0, files0, disk, fat, files, f) && |disk| == |old(disk)|
        invariant good ==> Wrote(g, disk0, disk, files[f], offset, data, done)
        invariant done > sent && WholeClusters(g, |disk|) ==> Backed(g, |disk|, cluster)
      {
        var chunk := ChunkSize(g, inner, |data| - done);
        SectorThere(g, |disk|, cluster, inner / SECTOR);
        ok := FillSector(base, inner, data, done, chunk, j, f, offset, disk0, fat0, files0);
        if !ok {
          return;
        }
        inner, done := inner + chunk, done + chunk;
      }
    }

    /** One round of it. */
    method FillSector(base: nat, inner: nat, data: seq<Byte>, done: nat, chunk: nat, ghost j: nat, ghost f: nat,
                      ghost offset: nat, ghost disk0: Disk, ghost fat0: Fat, ghost files0: Files) returns (ok: bool)
      requires 0 < chunk <= |data| - done && inner % SECTOR + chunk <= SECTOR && inner + chunk <= ClusterBytes(g)
      requires Touched(g, disk0, fat0, files0, disk, fat, files, f) && FitsWord(g)
      requires j < |files[f]| && base == SectorOf(g, files[f][j], 0) && Offset(g, j, inner) == offset + done
      modifies `disk
      ensures Touched(g, disk0, fat0, files0, disk, fat, files, f) && |disk| == |old(disk)|
      ensures ok <==> base + inner / SECTOR < |disk|
      ensures Backed(g, |disk|, files[f][j]) && Wrote(g, disk0, old(disk), files[f], offset, data, done)
              ==> ok && Wrote(g, disk0, disk, files[f], offset, data, done + chunk)
    {
      var bytes := data[done..done + chunk];
      var sector := (base + inner / SECTOR) % WORD;
      InWord(g, files[f][j], inner / SECTOR);
      SectorThere(g, |disk|, files[f][j], inner / SECTOR);
      if sector < |disk| {
        TouchSector(g, disk0, fat0, files0, disk, fat, files, f, j, inner / SECTOR,
          Patch(disk[sector], inner % SECTOR, bytes));
        if Backed(g, |disk|, files[f][j]) && Wrote(g, disk0, disk, files[f], offset, data, done) {
          WroteChunk(g, disk0, disk, fat, files, f, offset, data, done, chunk, j, inner);
        }
      }
      ok := WriteSector(sector, inner % SECTOR, bytes);
    }

    /** A partial sector is read, patched and written back; a whole one is simply written. */
    method WriteSector(sector: nat, at: nat, bytes: seq<Byte>) returns (ok: bool)
      requires at + |bytes| <= SECTOR
      modifies `disk
      ensures ok <==> sector < |old(disk)|
      ensures disk == if ok then old(disk)[sector := Patch(old(disk)[sector], at, bytes)] else old(disk)
    {
      ok := sector < |disk|;
      if !ok {
        return;
      }
      if at != 0 || |bytes| != SECTOR {
        disk := disk[sector := Patch(disk[sector], at, bytes)];
      } else {
        assert Patch(disk[sector], at, bytes) == bytes;
        disk := disk[sector := bytes];
      }
    }

    /** fat32_write_at. It succeeds, and the data is in the file, whenever the clusters it needs are
        there or can be had; and on a device that ends at a cluster boundary only then. */
    method WriteAt(first: nat, offset: nat, data: seq<Byte>) returns (ok: bool, newSize: nat)
      requires Valid() && FitsWord(g) && (first == 0 || first in files) && offset + |data| < WORD
      modifies this
      ensures Valid() && |disk| == |old(disk)|
      ensures first == 0 ==> !ok && unchanged(this)
      ensures first != 0 ==> Touched(g, old(disk), old(fat), old(files), disk, fat, files, first)
                             && NoneToSpare(g, |old(files)[first]|, |files[first]|, offset + |data|)
      ensures first != 0 && Enough(g, |disk|, old(fat), old(files)[first], offset, |data|)
              ==> ok && Overlaid(g, old(disk), disk, files[first], offset, data)
      ensures first != 0 && ok && WholeClusters(g, |disk|) ==>
              Enough(g, |disk|, old(fat), old(files)[first], offset, |data|)
      ensures ok ==> newSize == offset + |data|
    {
      newSize := 0;
      if first == 0 {
        ok := false;
        return;
      }
      var sent := 0;
      WroteNothing(g, disk, fat, files, first, offset, data);
      while sent < |data|
        invariant 0 <= sent <= |data| && |disk| == |old(disk)|
        invariant InProgress(g, old(disk), old(fat), old(files), disk, fat, files, first, offset, data, sent)
      {
        label L:
        var found, cluster, inner, j := SeekCluster(first, offset + sent, true);
        if !found {
          StuckShort(g, old(disk), old(fat), old(files), old@L(disk), old@L(fat), old@L(files), disk, fat, files, first,
                     offset, data, sent, j, inner);
          ok := false;
          return;
        }
        WalkedOn(g, old(disk), old(fat), old(files), old@L(disk), old@L(fat), old@L(files), disk, fat, files, first,
                 offset, data, sent, j, inner, cluster);
        ghost var before, at := disk, sent;
        ok, sent := FillCluster(cluster, inner, data, sent, j, first, offset, old(disk), old(fat), old(files));
        FilledOn(g, old(disk), old(fat), old(files), before, disk, fat, files, first, offset, data, at, sent, j, inner,
          ok);
        if !ok {
          return;
        }
      }
      ok, newSize := true, offset + sent;
      AllSent(g, old(disk), old(fat), old(files), disk, fat, files, first, offset, data);
    }

    /** fat32_read: the file's first bytes, as many as asked for, as fit the buffer and as the chain has,
        if the clusters they are in exist. */
    method Read(first: nat, size: nat, bufLen: nat) returns (ok: bool, out: seq<Byte>)
      requires Valid() && FitsWord(g) && (first in files || size == 0 || bufLen == 0)
      ensures if first in files then ReadOk(g, disk, files[first], Min(size, bufLen), ok, out) else ok && out == []
    {
      var limit := Min(size, bufLen);
      ok, out := true, [];
      if limit == 0 {
        return;
      }
      var cluster: nat := first;
      ghost var ch := files[first];
      ghost var i: nat := 0;
      assert Chain(fat, ch) && ch[0] < EOC;
      ghost var needed := Needed(g, ch, limit);
      while |out| < limit && cluster < EOC
        invariant ReadSoFar(g, disk, ch, needed, i, out, limit)
        invariant i <= |ch| && AtLink(ch, i, cluster)
        decreases |ch| - i
      {
        StillNeeded(g, ch, limit, i);
        ghost var before := out;
        ok, out := ReadCluster(cluster, out, limit, needed, i);
        if !ok {
          ReadFails(g, disk, ch, limit, i, out);
          return;
        }
        ReadOneMore(g, disk, ch, needed, i, before, out, limit);
        NextLink(fat, ch, i);
        cluster := FatNext(cluster);
        i := i + 1;
      }
      ReadDone(g, disk, ch, i, out, limit);
    }

    /** The sector loop of fat32_read. */
    method ReadCluster(cluster: nat, before: seq<Byte>, limit: nat, ghost needed: seq<nat>, ghost i: nat)
      returns (ok: bool, out: seq<Byte>)
      requires GeometryOk(g, |disk|) && FitsWord(g) && i < |needed| && 2 <= cluster == needed[i] < Entries(g)
      requires |before| < limit && |before| == Offset(g, i, 0)
      ensures ok ==> |out| == Min(limit, Offset(g, i + 1, 0))
      ensures AllBacked(g, |disk|, needed) && before <= Content(g, disk, needed) ==> ok
                                                                                     && out <= Content(g, disk, needed)
      ensures ok <==> ClusterThere(g, |disk|, cluster, i, limit)
    {
      var base := ClusterToSector(g, cluster);
      InWord(g, cluster, 0);
      ok, out := true, before;
      var s := 0;
      while s < g.perCluster && |out| < limit
        invariant 0 <= s <= g.perCluster && |out| == Min(limit, Offset(g, i, s * SECTOR))
        invariant AllBacked(g, |disk|, needed) && before <= Content(g, disk, needed) ==> out <= Content(g, disk, needed)
        invariant forall k | 0 <= k < s :: SectorOf(g, cluster, k) < |disk|
      {
        SectorThere(g, |disk|, cluster, s);
        InWord(g, cluster, s);
        var sector := (base + s) % WORD;
        assert sector == SectorOf(g, cluster, s);
        if sector >= |disk| {
          assert !Backed(g, |disk|, needed[i]);
          return false, out;
        }
        var chunk := Min(limit - |out|, SECTOR);
        if AllBacked(g, |disk|, needed) && before <= Content(g, disk, needed) {
          ReadOn(g, disk, needed, i, s, out, chunk);
        }
        out := out + disk[sector][..chunk];
        s := s + 1;
      }
    }

    /** A write and a later read, on a file whose clusters exist. If the clusters the write needs are
        there or free and exist, it succeeds and the read returns the written bytes in their place. In
        any case every other file whose clusters exist keeps its chain and its content. */
    method WriteThenRead(first: nat, offset: nat, data: seq<Byte>, bufLen: nat) returns (ok: bool, out: seq<Byte>)
      requires Valid() && FitsWord(g) && first in files && first != 0 && data != []
      requires offset + |data| < WORD && offset + |data| <= bufLen
      modifies this
      ensures Valid() && first in files && files == old(files)[first := files[first]]
      ensures |disk| == |old(disk)|
      ensures AllBacked(g, |disk|, old(files)[first]) ==>
                var room := Affordable(g, |disk|, old(fat), old(files)[first], offset + |data|);
                && (room ==> ok && ReadsBack(g, old(disk), old(files)[first], offset, data, out))
                && (ok && WholeClusters(g, |disk|) ==> room)
      ensures forall h | h in old(files) && h != first && AllBacked(g, |disk|, old(files)[h]) ::
                files[h] == old(files)[h] && Content(g, disk, files[h]) == Content(g, old(disk), old(files)[h])
    {
      var size;
      ok, size := WriteAt(first, offset, data);
      out := [];
      ghost var d, t, fs, ch := disk, fat, files, old(files)[first];
      AllOthersKept(g, old(disk), old(fat), old(files), d, t, fs, first);
      ghost var room := AllBacked(g, |d|, ch) && Affordable(g, |d|, old(fat), ch, offset + |data|);
      if AllBacked(g, |d|, ch) {
        BackedEnough(g, |d|, old(fat), ch, offset, |data|);
      }
      if ok {
        var read;
        read, out := Read(first, size, bufLen);
        if room {
          BackedEnough(g, |d|, old(fat), ch, offset, |data|);
          assert Overlaid(g, old(disk), d, fs[first], offset, data);
          AfterWrite(g, old(disk), old(fat), old(files), d, t, fs, first, offset, data, Min(size, bufLen), read, out);
        }
      }
    }
  }

  /** The data is at its place, and what is before it is what was there before. */
  ghost predicate ReadsBack(g: Geometry, disk: Disk, ch: seq<nat>, off: nat, data: seq<Byte>, out: seq<Byte>)
    requires g.perCluster > 0 && AllBacked(g, |disk|, ch)
  {
    && |out| == off + |data| && out[off..] == data
    && (off <= |Content(g, disk, ch)| ==> out[..off] <= Content(g, disk, ch))
  }

  /** How many clusters n bytes take. */
  ghost function ClustersFor(g: Geometry, n: nat): nat
    requires g.perCluster > 0
  {
    if n == 0 then 0 else Split(n - 1, ClusterBytes(g)).0 + 1
  }

  lemma ClustersBound(g: Geometry, end: nat, n: nat)
    requires g.perCluster > 0 && end > 0
    ensures ClustersFor(g, end) <= n <==> end <= Offset(g, n, 0)
  {
    var m, q := ClusterBytes(g), Split(end - 1, ClusterBytes(g)).0;
    if end <= Offset(g, n, 0) {
      SplitBelow(end - 1, n, m);
    } else if q < n {
      TimesStep(q, n, m);
    }
  }

  // ---- when there is room ----

  /** The device has no part of a cluster behind the last whole one. */
  ghost predicate WholeClusters(g: Geometry, sectors: nat) {
    forall c: nat {:trigger Backed(g, sectors, c)} | c >= 2 :: SectorOf(g, c, 0) < sectors ==> Backed(g, sectors, c)
  }

  lemma SectorThere(g: Geometry, sectors: nat, c: nat, s: nat)
    requires c >= 2 && s < g.perCluster
    ensures Backed(g, sectors, c) ==> SectorOf(g, c, 0) + s < sectors
    ensures WholeClusters(g, sectors) && SectorOf(g, c, 0) + s < sectors ==> Backed(g, sectors, c)
  {
  }

  /** With one sector to a cluster there is never such a part. */
  lemma OneSectorIsWhole(g: Geometry, sectors: nat)
    requires g.perCluster == 1
    ensures WholeClusters(g, sectors)
  {
  }

  lemma LowestExists(g: Geometry, sectors: nat, t: Fat, c: nat)
    requires 2 <= c < |t| && t[c] == 0 && forall d | 2 <= d < c :: t[d] != 0
    ensures Backed(g, sectors, c) <==> Usable(g, sectors, t) != {}
  {
    if Backed(g, sectors, c) {
      assert c in Usable(g, sectors, t);
    }
    if Usable(g, sectors, t) != {} {
      var d :| d in Usable(g, sectors, t);
      BackedBelow(g, sectors, c, d);
    }
  }

  /** Two copies of a one-sector table over a single cluster that is taken: the scan finds a zero entry
      behind the last cluster, and fat_alloc_cluster hands out a cluster that does not exist. */
  lemma PaddingIsHandedOut(t: Fat)
    requires |t| == 256 && t[2] == EOC && t[3] == 0
    ensures var g := Geometry(1, 3, 1);
            && Entries(g) == |t| && GeometryOk(g, 4) && FilesOk(t, map[2 := [2]])
            && Usable(g, 4, t) == {} && FreeClusters(t) != {} && !Backed(g, 4, 3)
  {
    var g := Geometry(1, 3, 1);
    assert Times(1, 1) == 1;
    assert 3 in FreeClusters(t);
    forall c | c in FreeClusters(t)
      ensures !Backed(g, 4, c)
    {
      if c > 3 {
        TimesStep(1, c - 2, 1);
      }
    }
  }

  /** Some byte of the range is in a cluster of the chain that does not exist. */
  ghost predicate Missing(g: Geometry, sectors: nat, ch: seq<nat>, off: nat, len: nat) {
    exists j, r {:trigger Offset(g, j, r)} :: 0 <= j < |ch| && 0 <= r < ClusterBytes(g)
      && off <= Offset(g, j, r) < off + len && !Backed(g, sectors, ch[j])
  }

  /** The chain and the free clusters that exist are enough for that many bytes. */
  ghost predicate Affordable(g: Geometry, sectors: nat, t: Fat, ch: seq<nat>, end: nat)
    requires g.perCluster > 0
  {
    ClustersFor(g, end) <= |ch| + |Usable(g, sectors, t)|
  }

  /** What a write needs before it starts. */
  ghost predicate Enough(g: Geometry, sectors: nat, t: Fat, ch: seq<nat>, off: nat, len: nat)
    requires g.perCluster > 0
  {
    len == 0 || (!Missing(g, sectors, ch, off, len) && Affordable(g, sectors, t, ch, off + len))
  }

  lemma BackedEnough(g: Geometry, sectors: nat, t: Fat, ch: seq<nat>, off: nat, len: nat)
    requires g.perCluster > 0 && len > 0 && AllBacked(g, sectors, ch)
    ensures Enough(g, sectors, t, ch, off, len) <==> Affordable(g, sectors, t, ch, off + len)
  {
  }

  // ---- a write in progress ----

  /** From the first volume to the second, file f has gained free clusters, and no cluster outside its
      chain that exists has changed. */
  ghost predicate Touched(g: Geometry, disk: Disk, t: Fat, files: Files, disk': Disk, t': Fat, files': Files, f: nat) {
    && VolumeOk(g, disk, t, files) && VolumeOk(g, disk', t', files') && |disk'| == |disk|
    && f in files && f in files' && Grown(t, files, t', files', f) && Untouched(g, disk, disk', files'[f])
  }

  /** The first `sent` bytes of the data are in the file. */
  ghost predicate Wrote(g: Geometry, disk: Disk, disk': Disk, ch: seq<nat>, off: nat, data: seq<Byte>, sent: nat) {
    sent <= |data| && |disk'| == |disk| && Overlaid(g, disk, disk', ch, off, data[..sent])
  }

  /** ... unless a cluster they should be in does not exist. */
  ghost predicate InProgress(g: Geometry, disk: Disk, t: Fat, files: Files, disk': Disk, t': Fat, files': Files,
                             f: nat, off: nat, data: seq<Byte>, sent: nat) {
    && Touched(g, disk, t, files, disk', t', files', f) && sent <= |data|
    && NoneToSpare(g, |files[f]|, |files'[f]|, off + |data|)
    && (Wrote(g, disk, disk', files'[f], off, data, sent) || Missing(g, |disk|, files'[f], off, |data|))
    && (WholeClusters(g, |disk|) ==> Wrote(g, disk, disk', files'[f], off, data, sent))
  }

  lemma WroteNothing(g: Geometry, disk: Disk, t: Fat, files: Files, f: nat, off: nat, data: seq<Byte>)
    requires VolumeOk(g, disk, t, files) && f in files
    ensures InProgress(g, disk, t, files, disk, t, files, f, off, data, 0)
  {
    assert files == files[f := files[f]];
    assert data[..0] == [];
  }

  /** Writing any sector of a cluster of the file. */
  lemma TouchSector(g: Geometry, disk0: Disk, t0: Fat, files0: Files, disk: Disk, t: Fat, files: Files, f: nat, j: nat,
                    k: nat, sec: Sector)
    requires Touched(g, disk0, t0, files0, disk, t, files, f) && j < |files[f]| && k < g.perCluster
    requires files[f][j] >= 2 && SectorOf(g, files[f][j], k) < |disk|
    ensures Touched(g, disk0, t0, files0, disk[SectorOf(g, files[f][j], k) := sec], t, files, f)
  {
    var ch := files[f];
    var at := SectorOf(g, ch[j], k);
    FatSurvives(g, disk, t, at, sec);
    assert ch[j] in ch;
    forall c, s {:trigger SectorOf(g, c, s)} | Backed(g, |disk|, c) && c !in ch && 0 <= s < g.perCluster
      ensures SectorOf(g, c, s) != at
    {
      OtherSector(g, c, s, ch[j], k);
    }
  }

  /** One more chunk of the data, inside one sector. */
  lemma WroteChunk(g: Geometry, disk0: Disk, disk: Disk, t: Fat, files: Files, f: nat, off: nat, data: seq<Byte>,
                   done: nat, chunk: nat, j: nat, inner: nat)
    requires VolumeOk(g, disk, t, files) && f in files && Wrote(g, disk0, disk, files[f], off, data, done)
    requires j < |files[f]| && Backed(g, |disk|, files[f][j]) && done + chunk <= |data|
    requires inner < ClusterBytes(g) && inner % SECTOR + chunk <= SECTOR && Offset(g, j, inner) == off + done
    ensures SectorOf(g, files[f][j], inner / SECTOR) < |disk|
    ensures var at := SectorOf(g, files[f][j], inner / SECTOR);
            var disk' := disk[at := Patch(disk[at], inner % SECTOR, data[done..done + chunk])];
            Wrote(g, disk0, disk', files[f], off, data, done + chunk)
  {
    var ch, bytes := files[f], data[done..done + chunk];
    ChainsAreAcyclic(t, ch);
    PatchOverlays(g, disk, ch, j, inner, bytes);
    var at := SectorOf(g, ch[j], inner / SECTOR);
    OverlaidMore(g, disk0, disk, disk[at := Patch(disk[at], inner % SECTOR, bytes)], ch, off, data[..done], bytes);
    assert data[..done] + bytes == data[..done + chunk];
  }

  // ---- the rounds of a write ----

  lemma MissingLater(g: Geometry, sectors: nat, ch: seq<nat>, ch': seq<nat>, off: nat, len: nat)
    requires ch <= ch' && Missing(g, sectors, ch, off, len)
    ensures Missing(g, sectors, ch', off, len)
  {
    var j, r :| 0 <= j < |ch| && 0 <= r < ClusterBytes(g) && off <= Offset(g, j, r) < off + len
      && !Backed(g, sectors, ch[j]);
    assert ch'[j] == ch[j];
  }

  lemma WalkedOn(g: Geometry, disk: Disk, t: Fat, files: Files, disk1: Disk, t1: Fat, files1: Files, disk2: Disk,
                 t2: Fat, files2: Files,
                 f: nat, off: nat, data: seq<Byte>, sent: nat, j: nat, inner: nat, c: nat)
    requires sent < |data| && InProgress(g, disk, t, files, disk1, t1, files1, f, off, data, sent)
    requires Walked(g, disk1, t1, files1, disk2, t2, files2, f, j, c) && Offset(g, j, inner) == off + sent
    ensures InProgress(g, disk, t, files, disk2, t2, files2, f, off, data, sent)
  {
    TouchedGrows(g, disk, t, files, disk1, t1, files1, disk2, t2, files2, f, off, data, sent);
    LastOneUsed(g, |files[f]|, |files1[f]|, |files2[f]|, j, inner, off + |data|);
  }

  lemma TouchedGrows(g: Geometry, disk: Disk, t: Fat, files: Files, disk1: Disk, t1: Fat, files1: Files, disk2: Disk,
                     t2: Fat, files2: Files,
                     f: nat, off: nat, data: seq<Byte>, sent: nat)
    requires InProgress(g, disk, t, files, disk1, t1, files1, f, off, data, sent)
    requires Extended(g, disk1, t1, files1, disk2, t2, files2, f)
    ensures Touched(g, disk, t, files, disk2, t2, files2, f)
    ensures Wrote(g, disk, disk1, files1[f], off, data, sent) ==> Wrote(g, disk, disk2, files2[f], off, data, sent)
    ensures Missing(g, |disk|, files1[f], off, |data|) ==> Missing(g, |disk|, files2[f], off, |data|)
  {
    GrownMore(t, files, t1, files1, t2, files2, f);
    ChainsAreAcyclic(t2, files2[f]);
    UntouchedThrough(g, disk, disk1, disk2, files1[f], files2[f]);
    if Wrote(g, disk, disk1, files1[f], off, data, sent) {
      BytesGrow(g, disk, disk1, disk2, files1[f], files2[f], off, data[..sent]);
    }
    if Missing(g, |disk|, files1[f], off, |data|) {
      MissingLater(g, |disk|, files1[f], files2[f], off, |data|);
    }
  }

  lemma UntouchedThrough(g: Geometry, disk: Disk, disk1: Disk, disk2: Disk, ch: seq<nat>, ch': seq<nat>)
    requires Untouched(g, disk, disk1, ch) && SameData(g, disk1, disk2) && ch <= ch'
    ensures Untouched(g, disk, disk2, ch')
  {
    PrefixMembers(ch, ch');
  }

  lemma StuckShort(g: Geometry, disk: Disk, t: Fat, files: Files, disk1: Disk, t1: Fat, files1: Files, disk2: Disk,
                   t2: Fat, files2: Files,
                   f: nat, off: nat, data: seq<Byte>, sent: nat, j: nat, inner: nat)
    requires sent < |data| && InProgress(g, disk, t, files, disk1, t1, files1, f, off, data, sent)
    requires Stuck(g, disk1, t1, files1, disk2, t2, files2, f, j, true) && Offset(g, j, inner) == off + sent
    ensures Touched(g, disk, t, files, disk2, t2, files2, f) && NoneToSpare(g, |files[f]|, |files2[f]|, off + |data|)
    ensures !Affordable(g, |disk|, t, files[f], off + |data|)
  {
    TouchedGrows(g, disk, t, files, disk1, t1, files1, disk2, t2, files2, f, off, data, sent);
    ShortOf(g, |files2[f]|, j, inner);
    LastOneShort(g, |files[f]|, |files2[f]|, off + sent, off + |data|);
    NoneLeft(g, |disk|, t, files, t2, files2, f, off + |data|);
  }

  /** A file that has taken every free cluster and is still short. */
  lemma NoneLeft(g: Geometry, sectors: nat, t: Fat, files: Files, t': Fat, files': Files, f: nat, end: nat)
    requires g.perCluster > 0 && f in files && f in files' && Grown(t, files, t', files', f) && |t| < EOC
    requires FilesOk(t, files) && FilesOk(t', files') && FreeClusters(t') == {} && Offset(g, |files'[f]|, 0) < end
    ensures !Affordable(g, sectors, t, files[f], end)
  {
    FreeConserved(t, files, t', files', f);
    SubsetSize(Usable(g, sectors, t), FreeClusters(t));
    ClustersBound(g, end, |files'[f]|);
  }

  /** A missing cluster means that there was not enough. */
  lemma MissingMeans(g: Geometry, disk: Disk, t: Fat, files: Files, disk': Disk, t': Fat, files': Files, f: nat,
                     off: nat, len: nat)
    requires Touched(g, disk, t, files, disk', t', files', f) && NoneToSpare(g, |files[f]|, |files'[f]|, off + len)
    requires Missing(g, |disk|, files'[f], off, len)
    ensures !Enough(g, |disk|, t, files[f], off, len)
  {
    var ch := files'[f];
    var j, r :| 0 <= j < |ch| && 0 <= r < ClusterBytes(g) && off <= Offset(g, j, r) < off + len
      && !Backed(g, |disk|, ch[j]);
    if j < |files[f]| {
      assert ch[j] == files[f][j];
      assert Missing(g, |disk|, files[f], off, len);
    } else {
      GainExists(g, |disk|, t, files, t', files', f);
      ClustersBound(g, off + len, |ch| - 1);
    }
  }

  lemma FilledOn(g: Geometry, disk: Disk, t: Fat, files: Files, disk1: Disk, disk2: Disk, t2: Fat, files2: Files,
                 f: nat, off: nat, data: seq<Byte>, sent: nat, done: nat, j: nat, inner: nat, ok: bool)
    requires sent < |data| && sent <= done <= |data| && InProgress(g, disk, t, files, disk1, t2, files2, f, off, data,
             sent)
    requires Touched(g, disk, t, files, disk2, t2, files2, f)
    requires j < |files2[f]| && inner < ClusterBytes(g) && Offset(g, j, inner) == off + sent
    requires Backed(g, |disk|, files2[f][j]) && Wrote(g, disk, disk1, files2[f], off, data, sent)
             ==> ok && Wrote(g, disk, disk2, files2[f], off, data, done)
    requires ok && WholeClusters(g, |disk|) ==> Backed(g, |disk|, files2[f][j])
    ensures ok ==> InProgress(g, disk, t, files, disk2, t2, files2, f, off, data, done)
    ensures !ok ==> !Enough(g, |disk|, t, files[f], off, |data|)
  {
    if !Backed(g, |disk|, files2[f][j]) {
      assert Missing(g, |disk|, files2[f], off, |data|);
    }
    if Missing(g, |disk|, files2[f], off, |data|) {
      MissingMeans(g, disk, t, files, disk2, t2, files2, f, off, |data|);
    }
  }

  lemma AllSent(g: Geometry, disk: Disk, t: Fat, files: Files, disk': Disk, t': Fat, files': Files, f: nat, off: nat,
                data: seq<Byte>)
    requires InProgress(g, disk, t, files, disk', t', files', f, off, data, |data|)
    ensures Enough(g, |disk|, t, files[f], off, |data|) ==> Overlaid(g, disk, disk', files'[f], off, data)
    ensures WholeClusters(g, |disk|) ==> Enough(g, |disk|, t, files[f], off, |data|)
  {
    assert data[..|data|] == data;
    if Missing(g, |disk|, files'[f], off, |data|) {
      MissingMeans(g, disk, t, files, disk', t', files', f, off, |data|);
    }
    if Wrote(g, disk, disk', files'[f], off, data, |data|) && data != [] {
      WroteMeans(g, disk, t, files, disk', t', files', f, off, data);
    }
  }

  /** Data that was written had the room it needed. */
  lemma WroteMeans(g: Geometry, disk: Disk, t: Fat, files: Files, disk': Disk, t': Fat, files': Files, f: nat, off: nat,
                   data: seq<Byte>)
    requires Touched(g, disk, t, files, disk', t', files', f) && NoneToSpare(g, |files[f]|, |files'[f]|, off + |data|)
    requires data != [] && Overlaid(g, disk, disk', files'[f], off, data)
    ensures Enough(g, |disk|, t, files[f], off, |data|)
  {
    var ch, n, end := files'[f], |files[f]|, off + |data|;
    if Missing(g, |disk|, files[f], off, |data|) {
      MissingLater(g, |disk|, files[f], ch, off, |data|);
    }
    if |ch| > n {
      var last := |ch| - 1;
      var r := end - 1 - Offset(g, last, 0);
      assert Offset(g, |ch|, 0) == Offset(g, last, 0) + ClusterBytes(g);
      assert Offset(g, last, r) == end - 1;
      LastIsIn(g, |disk|, ch, off, |data|, last, r);
    }
    LastExists(g, |disk|, t, files, t', files', f);
    GainExists(g, |disk|, t, files, t', files', f);
    ClustersBound(g, end, |ch|);
  }

  lemma LastIsIn(g: Geometry, sectors: nat, ch: seq<nat>, off: nat, len: nat, j: nat, r: nat)
    requires InChain(g, sectors, ch, off, len) && j < |ch| && r < ClusterBytes(g) && off <= Offset(g, j, r) < off + len
    ensures Backed(g, sectors, ch[j])
  {
  }

  lemma AllOthersKept(g: Geometry, disk: Disk, t: Fat, files: Files, disk': Disk, t': Fat, files': Files, f: nat)
    requires Touched(g, disk, t, files, disk', t', files', f)
    ensures files' == files[f := files'[f]]
    ensures forall h | h in files && h != f && AllBacked(g, |disk|, files[h]) ::
              files'[h] == files[h] && Content(g, disk', files'[h]) == Content(g, disk, files[h])
  {
    forall h | h in files && h != f && AllBacked(g, |disk|, files[h])
      ensures files'[h] == files[h] && Content(g, disk', files'[h]) == Content(g, disk, files[h])
    {
      OthersKept(g, disk, t, files, disk', t', files', f, h);
    }
  }

  /** A read of the file up to the end of the data, after a write that had room. */
  lemma AfterWrite(g: Geometry, disk: Disk, t: Fat, files: Files, disk': Disk, t': Fat, files': Files, f: nat,
                   off: nat, data: seq<Byte>, limit: nat, read: bool, out: seq<Byte>)
    requires Touched(g, disk, t, files, disk', t', files', f) && NoneToSpare(g, |files[f]|, |files'[f]|, off + |data|)
    requires data != [] && limit == off + |data| && ReadOk(g, disk', files'[f], limit, read, out)
    requires AllBacked(g, |disk|, files[f]) && Affordable(g, |disk|, t, files[f], off + |data|)
    requires Overlaid(g, disk, disk', files'[f], off, data)
    ensures ReadsBack(g, disk, files[f], off, data, out)
  {
    NowBacked(g, disk, t, files, disk', t', files', f, off + |data|);
    NeededBacked(g, |disk|, files'[f], limit);
    WrittenReads(g, disk, disk', files[f], files'[f], off, data, limit, out);
  }

  lemma WrittenReads(g: Geometry, disk: Disk, disk': Disk, ch0: seq<nat>, ch: seq<nat>, off: nat, data: seq<Byte>,
                     limit: nat, out: seq<Byte>)
    requires g.perCluster > 0 && |disk'| == |disk| && data != [] && Overlaid(g, disk, disk', ch, off, data) && ch0 <= ch
    requires AllBacked(g, |disk|, ch0) && AllBacked(g, |disk|, ch) && AllBacked(g, |disk|, Needed(g, ch, limit))
    requires limit == off + |data| && out <= Content(g, disk', Needed(g, ch, limit))
             && |out| == Min(limit, Offset(g, |ch|, 0))
    ensures ReadsBack(g, disk, ch0, off, data, out)
  {
    FileWritten(g, disk, disk', ch, off, data);
    ContentPrefix(g, disk', Needed(g, ch, limit), ch);
    ContentPrefix(g, disk, ch0, ch);
    var was := Content(g, disk, ch);
    ReadBack(was[..off], data, was[off + |data|..], out);
  }

  lemma NowBacked(g: Geometry, disk: Disk, t: Fat, files: Files, disk': Disk, t': Fat, files': Files, f: nat, end: nat)
    requires Touched(g, disk, t, files, disk', t', files', f) && NoneToSpare(g, |files[f]|, |files'[f]|, end) && end > 0
    requires AllBacked(g, |disk|, files[f]) && Affordable(g, |disk|, t, files[f], end)
    ensures AllBacked(g, |disk|, files'[f])
  {
    var ch := files'[f];
    if |ch| > |files[f]| {
      ClustersBound(g, end, |ch| - 1);
    }
    GainExists(g, |disk|, t, files, t', files', f);
    forall i | 0 <= i < |ch|
      ensures Backed(g, |disk|, ch[i])
    {
      if i < |files[f]| {
        assert ch[i] == files[f][i];
      }
    }
  }

  // ---- what a read needs ----

  /** i links down the chain: its next cluster, or the end mark. */
  ghost predicate AtLink(ch: seq<nat>, i: nat, cluster: nat) {
    if i < |ch| then cluster == ch[i] && cluster < EOC else cluster >= EOC
  }

  lemma NextLink(t: Fat, ch: seq<nat>, i: nat)
    requires Chain(t, ch) && |t| < EOC && i < |ch|
    ensures ch[i] < |t| && AtLink(ch, i + 1, t[ch[i]])
  {
    assert i < |ch| - 1 ==> Follows(t, ch, i);
  }

  /** The sectors of cluster i of a chain that the first `limit` bytes reach. */
  ghost predicate ClusterThere(g: Geometry, sectors: nat, cluster: nat, i: nat, limit: nat)
    requires cluster >= 2
  {
    forall s {:trigger SectorOf(g, cluster, s)} | 0 <= s < g.perCluster && Offset(g, i, s * SECTOR) < limit ::
      SectorOf(g, cluster, s) < sectors
  }

  /** Every sector the first `limit` bytes of the chain's first n clusters are in exists. */
  ghost predicate SectorsThere(g: Geometry, sectors: nat, ch: seq<nat>, n: nat, limit: nat)
    requires n <= |ch|
  {
    forall i | 0 <= i < n :: ch[i] >= 2 && ClusterThere(g, sectors, ch[i], i, limit)
  }

  /** A read of `limit` bytes succeeds if and only if the sectors they are in exist, so whenever their
      clusters do; then it returns the first bytes of the file, as many as there are. */
  ghost predicate ReadOk(g: Geometry, disk: Disk, ch: seq<nat>, limit: nat, ok: bool, out: seq<Byte>)
    requires g.perCluster > 0
  {
    var needed := Needed(g, ch, limit);
    && (AllBacked(g, |disk|, needed) ==> ok && out <= Content(g, disk, needed))
    && (ok <==> SectorsThere(g, |disk|, ch, |ch|, limit))
    && (ok ==> |out| == Min(limit, Offset(g, |ch|, 0)))
  }

  /** The first i clusters have been read, or the limit has been reached. */
  ghost predicate ReadSoFar(g: Geometry, disk: Disk, ch: seq<nat>, needed: seq<nat>, i: nat, out: seq<Byte>, limit: nat)
    requires g.perCluster > 0
  {
    && i <= |ch| && |out| == Min(limit, Offset(g, i, 0))
    && (AllBacked(g, |disk|, needed) ==> out <= Content(g, disk, needed))
    && SectorsThere(g, |disk|, ch, i, limit)
  }

  lemma ReadOneMore(g: Geometry, disk: Disk, ch: seq<nat>, needed: seq<nat>, i: nat, before: seq<Byte>, out: seq<Byte>,
                    limit: nat)
    requires g.perCluster > 0 && ReadSoFar(g, disk, ch, needed, i, before, limit) && i < |ch|
             && |out| == Min(limit, Offset(g, i + 1, 0))
    requires AllBacked(g, |disk|, needed) && before <= Content(g, disk, needed) ==> out <= Content(g, disk, needed)
    requires ch[i] >= 2 && ClusterThere(g, |disk|, ch[i], i, limit)
    ensures ReadSoFar(g, disk, ch, needed, i + 1, out, limit)
  {
    assert ch[..i + 1] == ch[..i] + [ch[i]];
  }

  /** The clusters the first `limit` bytes are in. */
  ghost function Needed(g: Geometry, ch: seq<nat>, limit: nat): seq<nat>
    requires g.perCluster > 0
  {
    ch[..Min(ClustersFor(g, limit), |ch|)]
  }

  lemma NeededBacked(g: Geometry, sectors: nat, ch: seq<nat>, limit: nat)
    requires g.perCluster > 0 && AllBacked(g, sectors, ch)
    ensures AllBacked(g, sectors, Needed(g, ch, limit))
  {
  }

  lemma StillNeeded(g: Geometry, ch: seq<nat>, limit: nat, i: nat)
    requires g.perCluster > 0 && i < |ch| && Offset(g, i, 0) < limit
    ensures i < |Needed(g, ch, limit)| && Needed(g, ch, limit)[i] == ch[i]
  {
    ClustersBound(g, limit, i);
  }

  lemma ReadAll(g: Geometry, ch: seq<nat>, limit: nat, i: nat)
    requires g.perCluster > 0 && limit > 0 && i <= |ch| && (i == |ch| || Offset(g, i, 0) >= limit)
    ensures Needed(g, ch, limit) <= ch[..i] && Min(limit, Offset(g, i, 0)) == Min(limit, Offset(g, |ch|, 0))
  {
    if i < |ch| {
      ClustersBound(g, limit, i);
      TimesStep(i, |ch|, ClusterBytes(g));
    }
  }

  lemma ReadFails(g: Geometry, disk: Disk, ch: seq<nat>, limit: nat, i: nat, out: seq<Byte>)
    requires g.perCluster > 0 && i < |ch| && ch[i] >= 2 && !ClusterThere(g, |disk|, ch[i], i, limit)
    requires !AllBacked(g, |disk|, Needed(g, ch, limit))
    ensures ReadOk(g, disk, ch, limit, false, out)
  {
    assert !SectorsThere(g, |disk|, ch, |ch|, limit);
  }

  lemma ReadDone(g: Geometry, disk: Disk, ch: seq<nat>, i: nat, out: seq<Byte>, limit: nat)
    requires g.perCluster > 0 && limit > 0 && ReadSoFar(g, disk, ch, Needed(g, ch, limit), i, out, limit)
    requires (forall j | 0 <= j < |ch| :: ch[j] >= 2) && (i == |ch| || Offset(g, i, 0) >= limit)
    ensures ReadOk(g, disk, ch, limit, true, out)
  {
    ReadAll(g, ch, limit, i);
    ReadEnds(g, |disk|, ch, i, limit);
  }

  /** Behind the limit no sector is asked for. */
  lemma ReadEnds(g: Geometry, sectors: nat, ch: seq<nat>, i: nat, limit: nat)
    requires i <= |ch| && SectorsThere(g, sectors, ch, i, limit) && (i == |ch| || Offset(g, i, 0) >= limit)
    requires forall j | 0 <= j < |ch| :: ch[j] >= 2
    ensures SectorsThere(g, sectors, ch, |ch|, limit)
  {
    forall j | i <= j < |ch|
      ensures ClusterThere(g, sectors, ch[j], j, limit)
    {
      if i < j {
        TimesStep(i, j, ClusterBytes(g));
      }
    }
  }

  /** A longer chain begins with the same bytes. */
  lemma ContentPrefix(g: Geometry, disk: Disk, ch: seq<nat>, ch': seq<nat>)
    requires g.perCluster > 0 && ch <= ch' && AllBacked(g, |disk|, ch) && AllBacked(g, |disk|, ch')
    ensures Content(g, disk, ch) <= Content(g, disk, ch')
  {
    if |ch| < |ch'| {
      TimesStep(|ch|, |ch'|, ClusterBytes(g));
    }
    forall k | 0 <= k < |Content(g, disk, ch)|
      ensures Content(g, disk, ch)[k] == Content(g, disk, ch')[k]
    {
      var p := Split(k, ClusterBytes(g));
      ContentIs(g, disk, ch, k, p);
      ContentIs(g, disk, ch', k, p);
    }
  }

  function Min(a: nat, b: nat): nat {
    if a < b then a else b
  }

  lemma ReadBack(a: seq<Byte>, data: seq<Byte>, b: seq<Byte>, out: seq<Byte>)
    requires out <= a + data + b && |out| == |a| + |data|
    ensures out[|a|..] == data && out[..|a|] == a
  {
    assert out == (a + data + b)[..|a| + |data|];
  }

  /** The walk has reached the i-th cluster of the file, growing it no further than that. */
  ghost predicate Walked(g: Geometry, disk: Disk, t: Fat, files: Files, disk': Disk, t': Fat, files': Files, f: nat,
                         i: nat, c: nat) {
    && Extended(g, disk, t, files, disk', t', files', f)
    && i < |files'[f]| && c == files'[f][i]
    && (|files'[f]| > |files[f]| ==> |files'[f]| == i + 1)
  }

  /** The file has no i-th cluster, and if it was to grow there is no free one left. */
  ghost predicate Stuck(g: Geometry, disk: Disk, t: Fat, files: Files, disk': Disk, t': Fat, files': Files, f: nat,
                        i: nat, create: bool) {
    && Extended(g, disk, t, files, disk', t', files', f)
    && |files'[f]| <= i
    && (create ==> FreeClusters(t') == {})
  }

  lemma StuckFrom(g: Geometry, disk: Disk, t: Fat, files: Files, disk': Disk, t': Fat, files': Files, f: nat, i: nat,
                  want: nat, create: bool)
    requires Stuck(g, disk, t, files, disk', t', files', f, i, create) && i <= want
    ensures Stuck(g, disk, t, files, disk', t', files', f, want, create)
  {
  }

  /** From the first volume to the second, file f has gained free clusters and no data sector has
      changed. */
  ghost predicate Extended(g: Geometry, disk: Disk, t: Fat, files: Files, disk': Disk, t': Fat, files': Files, f: nat) {
    && VolumeOk(g, disk', t', files') && SameData(g, disk, disk')
    && f in files && f in files' && Grown(t, files, t', files', f)
  }

  lemma NotYetExtended(g: Geometry, disk: Disk, t: Fat, files: Files, f: nat)
    requires VolumeOk(g, disk, t, files) && f in files
    ensures Extended(g, disk, t, files, disk, t, files, f)
  {
    assert files == files[f := files[f]];
  }

  lemma SameDataTwice(g: Geometry, disk: Disk, disk1: Disk, disk2: Disk)
    requires SameData(g, disk, disk1) && SameData(g, disk1, disk2)
    ensures SameData(g, disk, disk2)
  {
  }

  lemma ExtendedMore(g: Geometry, disk: Disk, t: Fat, files: Files, disk1: Disk, t1: Fat, files1: Files, disk2: Disk,
                     t2: Fat, files2: Files, f: nat)
    requires Extended(g, disk, t, files, disk1, t1, files1, f) && Extended(g, disk1, t1, files1, disk2, t2, files2, f)
    ensures Extended(g, disk, t, files, disk2, t2, files2, f)
  {
    SameDataTwice(g, disk, disk1, disk2);
    GrownMore(t, files, t1, files1, t2, files2, f);
  }

  lemma ExtendStep(g: Geometry, disk0: Disk, t0: Fat, files0: Files, disk: Disk, t: Fat, files: Files, f: nat, c: nat,
                   disk': Disk, t': Fat)
    requires Extended(g, disk0, t0, files0, disk, t, files, f) && 2 <= c < |t| && t[c] == 0
             && forall d | 2 <= d < c :: t[d] != 0
    requires files[f][|files[f]| - 1] < |t|
    requires t' == t[c := FRESH_END][files[f][|files[f]| - 1] := c] && SameData(g, disk, disk') && Holds(g, disk', t')
    ensures Extended(g, disk0, t0, files0, disk', t', files[f := files[f] + [c]], f)
  {
    GrowFat(t, files, f, c);
    GrownMore(t0, files0, t, files, t', files[f := files[f] + [c]], f);
  }

  lemma EndStep(g: Geometry, disk0: Disk, t0: Fat, files0: Files, disk: Disk, t: Fat, files: Files, f: nat, disk': Disk,
                t': Fat)
    requires Extended(g, disk0, t0, files0, disk, t, files, f) && files[f][|files[f]| - 1] < |t|
    requires t' == t[files[f][|files[f]| - 1] := EOC] && SameData(g, disk, disk') && Holds(g, disk', t')
    ensures Extended(g, disk0, t0, files0, disk', t', files, f)
  {
    RewriteFatEnd(t, files, f, EOC);
    GrownMore(t0, files0, t, files, t', files, f);
  }

  /** The sector and offset of a cluster's table entry. */
  method EntrySpot(g: Geometry, cluster: nat) returns (sector: nat, offset: nat)
    ensures sector == g.fatStart + cluster / 128 && offset == cluster % 128 * 4
  {
    var fatOffset := cluster * 4;
    sector, offset := g.fatStart + fatOffset / SECTOR, fatOffset % SECTOR;
  }

  /** cluster_to_sector. */
  method ClusterToSector(g: Geometry, cluster: nat) returns (sector: nat)
    requires cluster >= 2
    ensures sector == Sector32(g, cluster, 0)
  {
    sector := (g.dataStart + (cluster - 2) * g.perCluster) % WORD;
    TimesIsProduct(cluster - 2, g.perCluster);
  }

  /** offset / bytes_per_cluster and offset % bytes_per_cluster. */
  method Locate(g: Geometry, offset: nat) returns (want: nat, rest: nat)
    requires g.perCluster > 0
    ensures rest < ClusterBytes(g) && Offset(g, want, rest) == offset
  {
    want, rest := offset / (g.perCluster * SECTOR), offset % (g.perCluster * SECTOR);
    TimesIsProduct(want, g.perCluster * SECTOR);
  }

  lemma ShortOf(g: Geometry, n: nat, want: nat, rest: nat)
    requires n <= want
    ensures Offset(g, n, 0) <= Offset(g, want, rest)
  {
    if n < want {
      TimesStep(n, want, ClusterBytes(g));
    }
  }

  /** How much of the data goes into the sector that byte `inner` of a cluster is in. */
  method ChunkSize(g: Geometry, inner: nat, remaining: nat) returns (chunk: nat)
    requires inner < ClusterBytes(g) && remaining > 0
    ensures 0 < chunk <= remaining && inner % SECTOR + chunk <= SECTOR && inner + chunk <= ClusterBytes(g)
  {
    chunk := SECTOR - inner % SECTOR;
    if chunk > remaining {
      chunk := remaining;
    }
  }

  /** If the file grew, its last cluster is one the data needs. */
  ghost predicate NoneToSpare(g: Geometry, before: nat, now: nat, end: nat) {
    now > before ==> Offset(g, now - 1, 0) < end
  }

  lemma LastOneUsed(g: Geometry, before: nat, n: nat, now: nat, j: nat, inner: nat, end: nat)
    requires NoneToSpare(g, before, n, end) && n <= now && (now > n ==> now == j + 1) && Offset(g, j, inner) < end
    ensures NoneToSpare(g, before, now, end)
  {
  }

  lemma LastOneShort(g: Geometry, before: nat, now: nat, at: nat, end: nat)
    requires Offset(g, now, 0) <= at < end
    ensures NoneToSpare(g, before, now, end)
  {
    if now > before {
      TimesStep(now - 1, now, ClusterBytes(g));
    }
  }
}
