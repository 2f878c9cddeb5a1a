/** pmm_init, pmm_allocate_page(s) and pmm_free_page(s) (src/mm/pmm/pmm.c) over the bitmap in place. */
module PageAllocator {
  import opened PageBitmap

  function AlignUp(a: nat): (r: nat)
    ensures a <= r < a + PAGE_SIZE && r % PAGE_SIZE == 0
  {
    (a + PAGE_SIZE - 1) / PAGE_SIZE * PAGE_SIZE
  }

  /** Pages taken by the kernel image and the bitmap placed behind it. */
  function Reserved(memStart: nat, pages: nat, kernelEnd: nat): nat
    requires memStart <= kernelEnd
  {
    (AlignUp(AlignUp(kernelEnd) + (pages + 63) / 64 * 8) - memStart) / PAGE_SIZE
  }

  /** The reserved pages hold the kernel and a bitmap of one bit a page right behind it, and the last of them
      holds some of that. */
  lemma ReservedExactly(memStart: nat, pages: nat, kernelEnd: nat, p: nat)
    requires memStart < kernelEnd && memStart % PAGE_SIZE == 0
    ensures var end := memStart + Reserved(memStart, pages, kernelEnd) * PAGE_SIZE;
            && kernelEnd <= end && (p < pages ==> AlignUp(kernelEnd) + p / 64 * 8 + 8 <= end)
            && (pages == 0 ==> end - PAGE_SIZE < kernelEnd)
            && (pages > 0 ==> end - PAGE_SIZE < AlignUp(kernelEnd) + (pages - 1) / 64 * 8 + 8)
  {
    var words := (pages + 63) / 64;
    WholePages(AlignUp(AlignUp(kernelEnd) + words * 8), memStart);
    assert p < pages ==> p / 64 + 1 <= words;
    assert pages > 0 ==> (pages - 1) / 64 + 1 == words;
  }

  lemma WholePages(a: nat, b: nat)
    requires b <= a && a % PAGE_SIZE == 0 && b % PAGE_SIZE == 0
    ensures b + (a - b) / PAGE_SIZE * PAGE_SIZE == a
  {
  }

  class PageAllocator {
    const bitmap: array<Word>
    const totalPages: nat
    const reservedPages: nat
    const memStart: nat
    const memEnd: nat
    var usedPages: nat
    // one flag a page
    ghost var used: seq<bool>

    ghost predicate Valid()
      reads this, bitmap
    {
      && Represents(bitmap[..], used)
      && totalPages == |used| && usedPages == Count(used)
      && reservedPages <= totalPages && (forall p | 0 <= p < reservedPages :: used[p])
      && 0 < memStart && memStart % PAGE_SIZE == 0 && memEnd == memStart + totalPages * PAGE_SIZE
    }

    /** pmm_init. */
    constructor (start: nat, size: nat, kernelEnd: nat)
      requires 0 < start <= kernelEnd && start % PAGE_SIZE == 0 && size % PAGE_SIZE == 0
      requires Reserved(start, size / PAGE_SIZE, kernelEnd) <= size / PAGE_SIZE
      ensures Valid() && fresh(bitmap) && totalPages == size / PAGE_SIZE && memStart == start
      ensures reservedPages == Reserved(start, size / PAGE_SIZE, kernelEnd)
      ensures usedPages == reservedPages && forall p | 0 <= p < totalPages :: used[p] <==> p < reservedPages
    {
      memStart, memEnd := start, start + size;
      totalPages := size / PAGE_SIZE;
      reservedPages := Reserved(start, size / PAGE_SIZE, kernelEnd);
      usedPages := Reserved(start, size / PAGE_SIZE, kernelEnd);
      bitmap := new Word[(size / PAGE_SIZE + 63) / 64](_ => seq(64, i => false));
      used := seq(size / PAGE_SIZE, i => false);
      new;
      if totalPages % 64 != 0 {
        bitmap[bitmap.Length - 1] := Padding(totalPages % 64);
      }
      InitRepresents(bitmap[..], totalPages);
      NoneUsed(totalPages);
      MarkRange(0, reservedPages, true);
      MarkCounts(seq(totalPages, i => false), 0, reservedPages);
    }

    /** The loops that set or clear a range of pages one by one. */
    method MarkRange(s: nat, count: nat, flag: bool)
      requires Represents(bitmap[..], used) && s + count <= |used|
      modifies bitmap, `used
      ensures Represents(bitmap[..], used) && used == Mark(old(used), s, count, flag)
    {
      var i := 0;
      assert used == Mark(used, s, 0, flag);
      while i < count
        invariant 0 <= i <= count && Represents(bitmap[..], used) && used == Mark(old(used), s, i, flag)
      {
        MarkOneMore(old(used), s, i, flag);
        SetFlag(s + i, flag);
        i := i + 1;
      }
    }

    /** bitmap_set and bitmap_clear. */
    method SetFlag(p: nat, flag: bool)
      requires Represents(bitmap[..], used) && p < |used|
      modifies bitmap, `used
      ensures Represents(bitmap[..], used) && used == old(used)[p := flag]
      ensures old(used)[p] != flag ==> Count(used) == if flag then Count(old(used)) + 1 else Count(old(used)) - 1
    {
      SetRepresents(bitmap[..], used, p, flag);
      if used[p] != flag {
        CountSet(used, p, flag);
      }
      bitmap[p / 64] := bitmap[p / 64][p % 64 := flag];
      used := used[p := flag];
      assert bitmap[..] == old(bitmap[..])[p / 64 := old(bitmap[p / 64])[p % 64 := flag]];
    }

    /** bitmap_test. */
    method Test(p: nat) returns (flag: bool)
      requires Represents(bitmap[..], used) && p < 64 * bitmap.Length
      ensures flag == (p < |used| ==> used[p])
    {
      assert BitAt(bitmap[..], p) == (p < |used| ==> used[p]);
      flag := bitmap[p / 64][p % 64];
    }

    /** pmm_allocate_page: the lowest free page, or 0 exactly when none is free. */
    method AllocatePage() returns (addr: nat)
      requires Valid()
      modifies this, bitmap
      ensures Valid()
      ensures var p := LowestFree(old(used), 0);
              if p < totalPages then addr == memStart + p * PAGE_SIZE && used == old(used)[p := true]
              else addr == 0 && used == old(used)
    {
      var i := 0;
      while i < bitmap.Length
        invariant 0 <= i <= bitmap.Length && unchanged(this) && unchanged(bitmap)
        invariant forall p | 0 <= p < 64 * i && p < totalPages :: used[p]
      {
        if bitmap[i] == FULL {
          FullWord(bitmap[..], used, i);
          i := i + 1;
        } else {
          addr := FromWord(i);
          return;
        }
      }
      addr := 0;
    }

    /** The inner loop: the first clear bit of a word that has one. The padding bits keep it inside
        the pages that exist, so the loop's own range check never fires. */
    method FromWord(i: nat) returns (addr: nat)
      requires Valid() && i < bitmap.Length && bitmap[i] != FULL
      requires forall p | 0 <= p < 64 * i && p < totalPages :: used[p]
      modifies this, bitmap
      ensures Valid()
      ensures var p := LowestFree(old(used), 0);
              p < totalPages && addr == memStart + p * PAGE_SIZE && used == old(used)[p := true]
    {
      ghost var some := NotFull(bitmap[..], used, i);
      var bit := 0;
      var taken := Test(64 * i);
      while taken
        invariant 0 <= bit < 64 && unchanged(this) && unchanged(bitmap) && Valid() && 64 * i + bit <= some
        invariant taken == used[64 * i + bit]
        invariant forall p | 0 <= p < 64 * i + bit :: used[p]
        decreases 64 - bit
      {
        bit := bit + 1;
        assert 64 * i + bit < totalPages;
        taken := Test(64 * i + bit);
      }
      ghost var p := 64 * i + bit;
      assert LowestFree(used, 0) == p;
      SetFlag(64 * i + bit, true);
      usedPages := usedPages + 1;
      addr := memStart + (64 * i + bit) * PAGE_SIZE;
    }

    /** pmm_allocate_pages: the leftmost run of `count` free pages, or 0 exactly when there is none. */
    method AllocatePages(count: nat) returns (addr: nat, ghost s: nat)
      requires Valid()
      modifies this, bitmap
      ensures Valid()
      ensures count == 0 ==> addr == 0 && used == old(used)
      ensures count > 0 && addr == 0 ==> used == old(used) && forall k :: !FreeRun(used, k, count)
      ensures addr != 0 ==> addr == memStart + s * PAGE_SIZE && FreeRun(old(used), s, count)
                            && (forall k | 0 <= k < s :: !FreeRun(old(used), k, count))
                               && used == Mark(old(used), s, count, true)
    {
      s := 0;
      if count == 0 {
        addr := 0;
      } else if count == 1 {
        s := LowestFree(used, 0);
        addr := AllocatePage();
        OneIsARun(old(used));
      } else {
        var start := FindRun(count);
        s := start;
        if start == totalPages {
          addr := 0;
        } else {
          MarkCounts(used, start, count);
          MarkRange(start, count, true);
          usedPages := usedPages + count;
          addr := memStart + start * PAGE_SIZE;
        }
      }
    }

    /** The contiguous scan, which starts behind the reserved pages. */
    method FindRun(count: nat) returns (start: nat)
      requires Valid() && count > 0
      ensures start == totalPages ==> forall k :: !FreeRun(used, k, count)
      ensures start < totalPages ==> FreeRun(used, start, count)
                                     && forall k | 0 <= k < start :: !FreeRun(used, k, count)
      ensures start <= totalPages
    {
      var length, pfn := 0, reservedPages;
      start := 0;
      StartsUsed(used, reservedPages, count);
      while pfn < totalPages
        invariant reservedPages <= pfn <= totalPages && length < count && length <= pfn - reservedPages
        invariant length > 0 ==> start == pfn - length
        invariant forall k | pfn - length <= k < pfn :: !used[k]
        invariant pfn - length > 0 ==> used[pfn - length - 1]
        invariant forall k | 0 <= k < pfn - length :: !FreeRun(used, k, count)
      {
        var taken := Test(pfn);
        if !taken {
          if length == 0 {
            start := pfn;
          }
          length := length + 1;
          if length == count {
            return;
          }
        } else {
          Broken(used, pfn - length, pfn, count);
          length := 0;
        }
        pfn := pfn + 1;
      }
      TooShort(used, pfn - length, count);
      start := totalPages;
    }

    /** pmm_free_page. Addresses outside the region, unaligned, reserved or not allocated are refused. */
    method FreePage(addr: nat)
      requires Valid()
      modifies this, bitmap
      ensures Valid()
      ensures used == Freed(Bounds(), old(used), addr)
    {
      if addr < memStart || addr >= memEnd {
        return;
      }
      if addr % PAGE_SIZE != 0 {
        return;
      }
      var pfn := (addr - memStart) / PAGE_SIZE;
      if pfn < reservedPages {
        return;
      }
      var taken := Test(pfn);
      if !taken {
        return;
      }
      CountPositive(used, pfn);
      SetFlag(pfn, false);
      usedPages := usedPages - 1;
    }

    function Bounds(): Region {
      Region(memStart, memEnd, reservedPages)
    }

    /** pmm_free_pages. */
    method FreePages(addr: nat, count: nat)
      requires Valid()
      modifies this, bitmap
      ensures Valid() && used == FreedPages(Bounds(), old(used), addr, count)
    {
      var i := 0;
      while i < count
        invariant 0 <= i <= count && Valid() && used == FreedPages(Bounds(), old(used), addr, i)
      {
        FreePage(addr + i * PAGE_SIZE);
        i := i + 1;
      }
    }

    /** Allocating pages and freeing them again restores the bitmap word for word. */
    method AllocateThenFree(count: nat) returns (addr: nat, ghost s: nat, ghost between: seq<bool>)
      requires Valid()
      modifies this, bitmap
      ensures Valid() && bitmap[..] == old(bitmap[..]) && usedPages == old(usedPages)
      ensures count > 0 && addr == 0 ==> forall k :: !FreeRun(old(used), k, count)
      ensures addr != 0 ==> addr == memStart + s * PAGE_SIZE && FreeRun(old(used), s, count)
                            && between == Mark(old(used), s, count, true)
    {
      addr, s := AllocatePages(count);
      between := used;
      if addr != 0 {
        assert !old(used)[s];
        FreedRun(Bounds(), old(used), s, count, count);
        MarkUndone(old(used), s, count);
        FreePages(addr, count);
      }
      RepresentsOnce(bitmap[..], old(bitmap[..]), used);
    }
  }

  datatype Region = Region(start: nat, end: nat, reserved: nat)

  /** What freeing an address does to the flags: nothing, unless it is that of a page handed out. */
  function Freed(r: Region, v: seq<bool>, addr: nat): (w: seq<bool>)
    ensures |w| == |v|
  {
    if r.start <= addr < r.end && addr % PAGE_SIZE == 0 then
      var p := (addr - r.start) / PAGE_SIZE;
      if r.reserved <= p < |v| then v[p := false] else v
    else v
  }

  function FreedPages(r: Region, v: seq<bool>, addr: nat, count: nat): (w: seq<bool>)
    ensures |w| == |v|
  {
    if count == 0 then v else Freed(r, FreedPages(r, v, addr, count - 1), addr + (count - 1) * PAGE_SIZE)
  }

  lemma {:induction false} FreedRun(r: Region, v: seq<bool>, s: nat, count: nat, n: nat)
    requires r.start % PAGE_SIZE == 0 && r.end == r.start + |v| * PAGE_SIZE && r.reserved <= s && s + count <= |v|
             && n <= count
    ensures FreedPages(r, Mark(v, s, count, true), r.start + s * PAGE_SIZE, n) ==
            Mark(Mark(v, s, count, true), s, n, false)
  {
    var m := Mark(v, s, count, true);
    if n == 0 {
      assert Mark(m, s, 0, false) == m;
    } else {
      FreedRun(r, v, s, count, n - 1);
      MarkOneMore(m, s, n - 1, false);
    }
  }

  /** No run starts at a used page. */
  lemma StartsUsed(v: seq<bool>, n: nat, count: nat)
    requires n <= |v| && count > 0 && forall k | 0 <= k < n :: v[k]
    ensures forall k | 0 <= k < n :: !FreeRun(v, k, count)
  {
    forall k | 0 <= k < n
      ensures !FreeRun(v, k, count)
    {
      assert v[k];
    }
  }

  lemma OneIsARun(v: seq<bool>)
    ensures forall k | 0 <= k <= |v| :: FreeRun(v, k, 1) <==> k < |v| && !v[k]
    ensures LowestFree(v, 0) < |v| ==> v[LowestFree(v, 0) := true] == Mark(v, LowestFree(v, 0), 1, true)
  {
  }

  /** A used page at `at` breaks every run that would cover it. */
  lemma Broken(v: seq<bool>, from: nat, at: nat, count: nat)
    requires at < |v| && v[at] && from <= at < from + count
    requires forall k | 0 <= k < from :: !FreeRun(v, k, count)
    ensures forall k | 0 <= k <= at :: !FreeRun(v, k, count)
  {
  }

  lemma TooShort(v: seq<bool>, from: nat, count: nat)
    requires |v| < from + count && forall k | 0 <= k < from :: !FreeRun(v, k, count)
    ensures forall k :: !FreeRun(v, k, count)
  {
  }

  lemma {:induction false} CountPositive(v: seq<bool>, p: nat)
    requires p < |v| && v[p]
    ensures Count(v) > 0
  {
    if p < |v| - 1 {
      CountPositive(v[..|v| - 1], p);
    }
  }

  // ---- initial state ----

  /** ~((1 << n) - 1) */
  function Padding(n: nat): Word {
    seq(64, b => b >= n)
  }

  lemma InitRepresents(words: seq<Word>, pages: nat)
    requires |words| == (pages + 63) / 64
    requires forall i | 0 <= i < |words| :: words[i] == if i == |words| - 1
             && pages % 64 != 0 then Padding(pages % 64) else seq(64, b => false)
    ensures Represents(words, seq(pages, i => false))
  {
    var v: seq<bool> := seq(pages, i => false);
    forall p {:trigger BitAt(words, p)} | 0 <= p < 64 * |words|
      ensures BitAt(words, p) == (p < |v| ==> v[p])
    {
    }
  }

  lemma {:induction false} NoneUsed(n: nat)
    ensures Count(seq(n, i => false)) == 0
  {
    if n > 0 {
      var v: seq<bool> := seq(n, i => false);
      assert v[..n - 1] == seq(n - 1, i => false);
      NoneUsed(n - 1);
    }
  }
}
