/** A FAT32 subdirectory as 32-byte slots, and the iterator that walks them
    (fat32_dir_iterate, src/fs/fat32/fat32.c). */
module DirSlots {
  import opened Values

  type ShortName = s: seq<Byte> | |s| == 11 witness seq(11, i => 32)

  datatype Slot = Slot(name: ShortName, attr: Byte, cluster: nat, size: nat)

  const ATTR_LFN: nat := 0x0F

  // ---- what a slot means ----

  /** 0x00: this slot and everything behind it has never been used. */
  predicate IsEnd(s: Slot) {
    s.name[0] == 0x00
  }

  /** Neither deleted, nor a long-name fragment, nor the volume label. */
  predicate IsLive(s: Slot) {
    s.name[0] != 0x00 && s.name[0] != 0xE5 && s.attr != ATTR_LFN && s.attr / 8 % 2 == 0
  }

  predicate IsDir(s: Slot) {
    s.attr / 16 % 2 == 1
  }

  /** What readdir() is to report for a slot, with the cookie that resumes behind it. */
  datatype Rec = Rec(ino: nat, cookie: nat, isDir: bool, name: seq<Byte>)

  function RecOf(s: Slot, i: nat): Rec {
    Rec(s.cluster + (if IsDir(s) then 0x8000_0000_0000_0000 else 0), i + 1, IsDir(s), UpToNul(Display(s.name)))
  }

  /** An inode number tells first cluster and kind, so a file and a directory never share one. */
  lemma InodeTells(s: Slot, i: nat)
    requires s.cluster < 0x1_0000_0000
    ensures RecOf(s, i).ino % 0x8000_0000_0000_0000 == s.cluster
    ensures RecOf(s, i).ino >= 0x8000_0000_0000_0000 <==> s.attr / 16 % 2 == 1
    ensures RecOf(s, i).isDir <==> s.attr / 16 % 2 == 1
  {
  }

  function UpToSpace(s: seq<Byte>): (r: seq<Byte>)
    ensures |r| <= |s|
  {
    if s == [] || s[0] == 32 then [] else [s[0]] + UpToSpace(s[1..])
  }

  function UpToNul(s: seq<Byte>): (r: seq<Byte>)
    ensures r <= s && 0 !in r
  {
    if s == [] || s[0] == 0 then [] else [s[0]] + UpToNul(s[1..])
  }

  /** NAME.EXT without the padding. */
  function Display(name: ShortName): (r: seq<Byte>)
    ensures |r| <= 12
  {
    UpToSpace(name[..8]) + if name[8] == 32 then [] else [46] + UpToSpace(name[8..])
  }

  function Spaces(n: nat): (r: seq<Byte>)
    ensures |r| == n
  {
    seq(n, i => 32)
  }

  /** A short name padded with spaces is shown as it is meant. */
  lemma DisplayUnpads(base: seq<Byte>, ext: seq<Byte>)
    requires |base| <= 8 && |ext| <= 3 && 32 !in base && 32 !in ext
    ensures Display(base + Spaces(8 - |base|) + ext + Spaces(3 - |ext|)) == base + if ext == [] then [] else [46] + ext
  {
    var name := base + Spaces(8 - |base|) + ext + Spaces(3 - |ext|);
    assert name[..8] == base + Spaces(8 - |base|) && name[8..] == ext + Spaces(3 - |ext|);
    UpToPadding(base, 8 - |base|);
    UpToPadding(ext, 3 - |ext|);
  }

  lemma {:induction false} UpToPadding(s: seq<Byte>, n: nat)
    requires 32 !in s
    ensures UpToSpace(s + Spaces(n)) == s
  {
    if s == [] {
      assert s + Spaces(n) == Spaces(n);
    } else {
      assert (s + Spaces(n))[1..] == s[1..] + Spaces(n);
      UpToPadding(s[1..], n);
    }
  }

  /** The live entries from slot i on, in slot order, up to the end mark. */
  function LiveFrom(slots: seq<Slot>, i: nat): (r: seq<Rec>)
    decreases |slots| - i
  {
    if i >= |slots| || IsEnd(slots[i]) then []
    else if IsLive(slots[i]) then [RecOf(slots[i], i)] + LiveFrom(slots, i + 1)
    else LiveFrom(slots, i + 1)
  }

  // ---- clusters and sectors ----

  type Sector = s: seq<Slot> | |s| == 16 witness seq(16, i => Slot(seq(11, k => 32), 0, 0, 0))

  ghost function FlatSectors(sectors: seq<Sector>): (r: seq<Slot>)
    ensures |r| == 16 * |sectors|
  {
    if sectors == [] then [] else FlatSectors(sectors[..|sectors| - 1]) + sectors[|sectors| - 1]
  }

  /** The slots of a directory whose cluster chain holds these sectors. */
  ghost function Flat(dir: seq<seq<Sector>>): seq<Slot> {
    if dir == [] then [] else Flat(dir[..|dir| - 1]) + FlatSectors(dir[|dir| - 1])
  }

  lemma {:induction false} SectorAt(sectors: seq<Sector>, s: nat, k: nat)
    requires s < |sectors| && k < 16
    ensures FlatSectors(sectors)[16 * s + k] == sectors[s][k]
  {
    var last := |sectors| - 1;
    if s < last {
      SectorAt(sectors[..last], s, k);
    }
  }

  lemma {:induction false} FlatPrefix(dir: seq<seq<Sector>>, ci: nat)
    requires ci < |dir|
    ensures Flat(dir[..ci]) + FlatSectors(dir[ci]) <= Flat(dir)
    ensures Flat(dir[..ci + 1]) == Flat(dir[..ci]) + FlatSectors(dir[ci])
  {
    assert dir[..ci + 1][..ci] == dir[..ci];
    if ci + 1 < |dir| {
      var last := |dir| - 1;
      FlatPrefix(dir[..last], ci);
      assert dir[..last][..ci] == dir[..ci];
    } else {
      assert dir[..ci + 1] == dir;
    }
  }

  lemma SlotAt(dir: seq<seq<Sector>>, ci: nat, s: nat, k: nat)
    requires ci < |dir| && s < |dir[ci]| && k < 16
    ensures var n := |Flat(dir[..ci])| + 16 * s + k;
            n < |Flat(dir)| && Flat(dir)[n] == dir[ci][s][k]
  {
    FlatPrefix(dir, ci);
    SectorAt(dir[ci], s, k);
  }

  // ---- the iterator ----

  /** Nothing to report in [i, j). */
  ghost predicate Skipped(slots: seq<Slot>, i: nat, j: nat) {
    forall k {:trigger slots[k]} | i <= k < j && k < |slots| :: !IsEnd(slots[k]) && !IsLive(slots[k])
  }

  lemma {:induction false} SkipLive(slots: seq<Slot>, i: nat, j: nat)
    requires i <= j <= |slots| && Skipped(slots, i, j)
    ensures LiveFrom(slots, i) == LiveFrom(slots, j)
    decreases j - i
  {
    if i < j {
      SkipLive(slots, i + 1, j);
    }
  }

  datatype Step = Found(slot: Slot, next: nat) | Finished(next: nat)

  /** What one call of the iterator promises: the next live entry and the cursor behind it, or that
      there is none, now or from the cursor it leaves. */
  ghost predicate StepOk(slots: seq<Slot>, start: nat, r: Step) {
    match r
    case Found(s, next) =>
      start < next <= |slots| && LiveFrom(slots, start) == [RecOf(s, next - 1)] + LiveFrom(slots, next)
    case Finished(next) => LiveFrom(slots, start) == [] && LiveFrom(slots, next) == [] && next <= |slots|
  }

  method Iterate(dir: seq<seq<Sector>>, start: nat) returns (r: Step)
    ensures StepOk(Flat(dir), start, r)
  {
    ghost var slots := Flat(dir);
    var slot, ci := 0, 0;
    while ci < |dir|
      invariant 0 <= ci <= |dir| && slot == |Flat(dir[..ci])| <= |slots| && Skipped(slots, start, slot)
    {
      FlatPrefix(dir, ci);
      var s := 0;
      while s < |dir[ci]|
        invariant 0 <= s <= |dir[ci]| && Skipped(slots, start, slot + 16 * s)
      {
        var first := slot + s * 16;
        if first + 16 > start {
          var found, step := ScanSector(dir, ci, s, slot, start);
          if found {
            return step;
          }
        }
        s := s + 1;
      }
      slot := slot + |dir[ci]| * 16;
      ci := ci + 1;
    }
    assert dir[..ci] == dir;
    if start <= |slots| {
      SkipLive(slots, start, |slots|);
    }
    r := Finished(slot);
  }

  /** The slots of one sector that the caller has not seen. */
  method ScanSector(dir: seq<seq<Sector>>, ci: nat, s: nat, slot: nat, start: nat) returns (found: bool, r: Step)
    requires ci < |dir| && s < |dir[ci]| && slot == |Flat(dir[..ci])| && Skipped(Flat(dir), start, slot + 16 * s)
    ensures found ==> StepOk(Flat(dir), start, r)
    ensures !found ==> Skipped(Flat(dir), start, slot + 16 * s + 16)
  {
    ghost var slots := Flat(dir);
    r := Finished(0);
    var k := 0;
    while k < 16
      invariant 0 <= k <= 16 && Skipped(slots, start, slot + 16 * s + k)
    {
      var here := slot + 16 * s + k;
      SlotAt(dir, ci, s, k);
      if here >= start {
        var e := dir[ci][s][k];
        if e.name[0] == 0x00 {
          SkipLive(slots, start, here);
          return true, Finished(here);
        }
        if e.name[0] != 0xE5 && e.attr != ATTR_LFN && e.attr / 8 % 2 == 0 {
          SkipLive(slots, start, here);
          return true, Found(e, here + 1);
        }
      }
      k := k + 1;
    }
    found := false;
  }
}
