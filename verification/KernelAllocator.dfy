/** kmalloc and kfree (src/mm/heap/heap.c) on the list in place. */
module KernelAllocator {
  import opened MallocBlocks
  import opened KernelHeapBlocks
  import opened KernelHeapLinks

  const MAX_REGIONS: nat := 16
  const EXPAND_MIN_PAGES: nat := 64
  const INITIAL_PAGES: nat := 256
  const SIZE_LIMIT: nat := 0x1_0000_0000_0000_0000

  /** Only live blocks carry the ALLOC magic, stale headers of absorbed blocks included. */
  ghost predicate Stamped(hs: Headers, live: set<Block>) {
    forall a {:trigger hs[a]} | a in hs && hs[a].magic == MAGIC_ALLOC :: HeaderLive(live, a)
  }

  ghost predicate HeaderLive(live: set<Block>, a: nat) {
    exists b :: b in live && b.addr == a
  }

  /** No two list-consecutive free blocks are adjacent in memory. */
  ghost predicate FullyMerged(bs: seq<Block>) {
    forall i {:trigger Mergeable(bs, i)} | 0 <= i < |bs| - 1 :: !Mergeable(bs, i)
  }

  /** No mergeable pair starts before i. */
  ghost predicate MergedUpTo(bs: seq<Block>, i: nat) {
    forall k {:trigger Mergeable(bs, k)} | 0 <= k < i && k + 1 < |bs| :: !Mergeable(bs, k)
  }

  ghost predicate MergedFrom(before: seq<Block>, bs: seq<Block>, i: nat) {
    i < |bs| <= |before| && Live(bs) == Live(before) && UsedBytes(bs) == UsedBytes(before)
  }

  /** Pages heap_expand asks for, in 64-bit arithmetic. */
  function ExpandPages(size: nat): (p: nat)
    ensures p >= EXPAND_MIN_PAGES
  {
    var p := ((size + HEADER) % SIZE_LIMIT + PAGE_SIZE - 1) % SIZE_LIMIT / PAGE_SIZE;
    if p < EXPAND_MIN_PAGES then EXPAND_MIN_PAGES else p
  }

  /** An expansion makes room for the request that asked for it exactly when rounding the request up
      to pages does not overflow. */
  lemma ExpansionFits(size: nat, va: nat)
    requires size <= SIZE_LIMIT - ALIGN
    ensures NewBlock(size, va).size >= size <==> !Wraps(size)
  {
    if !Wraps(size) {
      assert (size + HEADER) % SIZE_LIMIT == size + HEADER;
      assert (size + HEADER + PAGE_SIZE - 1) % SIZE_LIMIT == size + HEADER + PAGE_SIZE - 1;
    } else {
      assert ((size + HEADER) % SIZE_LIMIT + PAGE_SIZE - 1) % SIZE_LIMIT < 2 * PAGE_SIZE;
    }
  }

  /** Pages fresh from the page allocator belong to no region yet. */
  ghost predicate Grantable(rs: seq<Region>, va: nat, pages: nat) {
    va != 0 ==> va % PAGE_SIZE == 0 && forall x: nat | va <= x < va + pages * PAGE_SIZE :: !InRegions(rs, x)
  }

  /** What a successful kmalloc did: one more live block, the first that fits, and little more than
      was asked for. */
  ghost predicate Given(before: seq<Block>, after: seq<Block>, need: nat, p: nat, b: Block) {
    && Payload(b) == p && need <= b.size <= need + HEADER + MIN_SPLIT && Aligned(b) && !b.free
    && Live(after) == Live(before) + {b} && b !in Live(before) && UsedBytes(after) == UsedBytes(before) + b.size
    && (FirstFit(before, need, 0) < |before| ==> b.addr == before[FirstFit(before, need, 0)].addr)
  }

  /** Rounding the request up to pages overflows. */
  predicate Wraps(need: nat) {
    need + HEADER + PAGE_SIZE - 1 >= SIZE_LIMIT
  }

  /** Nothing fits and the heap cannot be made to fit. */
  predicate NoRoom(bs: seq<Block>, regions: nat, need: nat, va: nat) {
    FirstFit(bs, need, 0) == |bs| && (va == 0 || regions >= MAX_REGIONS || Wraps(need))
  }

  /** When kmalloc returns null. */
  predicate Refused(bs: seq<Block>, regions: nat, size: nat, va: nat) {
    size == 0 || size > SIZE_LIMIT - ALIGN || NoRoom(bs, regions, AlignUp(size), va)
  }

  function NewBlock(need: nat, va: nat): Block {
    Block(va, ExpandPages(need) * PAGE_SIZE - HEADER, true)
  }

  function NewRegion(need: nat, va: nat): Region {
    Region(va, ExpandPages(need) * PAGE_SIZE)
  }

  /** The list after that many expansions. */
  ghost predicate Expanded(before: seq<Block>, bs: seq<Block>, need: nat, va0: nat, va1: nat, times: nat) {
    bs == before + (if times == 0 then [] else if times == 1 then [NewBlock(need, va0)]
      else [NewBlock(need, va0), NewBlock(need, va1)])
  }

  /** The state of kmalloc after that many failed attempts. */
  ghost predicate Retrying(before: seq<Block>, bs: seq<Block>, regions: nat, need: nat, va0: nat, va1: nat,
                           times: nat) {
    && Expanded(before, bs, need, va0, va1, times)
    && (times > 0 ==> va0 != 0 && regions < MAX_REGIONS && FirstFit(before, need, 0) == |before|)
    && (times > 1 ==> Wraps(need))
  }

  class Heap {
    var head: nat
    var hs: Headers
    var regions: seq<Region>
    ghost var blocks: seq<Block>

    ghost predicate Valid()
      reads this
    {
      Shape(hs, blocks, regions, head) && Stamped(hs, Live(blocks))
    }

    /** heap_init, when the page allocator grants the first region. */
    constructor (va: nat)
      requires va > 0 && va % PAGE_SIZE == 0
      ensures Valid() && blocks == [Block(va, INITIAL_PAGES * PAGE_SIZE - HEADER, true)]
              && regions == [Region(va, INITIAL_PAGES * PAGE_SIZE)]
    {
      head := va;
      hs := map[va := Header(INITIAL_PAGES * PAGE_SIZE - HEADER, MAGIC_FREE, true, 0)];
      regions := [Region(va, INITIAL_PAGES * PAGE_SIZE)];
      blocks := [Block(va, INITIAL_PAGES * PAGE_SIZE - HEADER, true)];
      new;
      FirstRegion(va, INITIAL_PAGES * PAGE_SIZE - HEADER);
    }

    /** First fit from the head. */
    method FindFit(size: nat) returns (b: nat, ghost i: nat)
      requires Valid()
      ensures i == FirstFit(blocks, size, 0) && b == AddrAt(blocks, i)
    {
      b, i := head, 0;
      while b != 0
        invariant i <= |blocks| && b == AddrAt(blocks, i) && FirstFit(blocks, size, 0) == FirstFit(blocks, size, i)
        decreases |blocks| - i
      {
        assert Recorded(hs, blocks, i);
        if hs[b].isFree && hs[b].size >= size {
          return;
        }
        b, i := hs[b].next, i + 1;
      }
      NoAddress(blocks, i);
    }

    /** Split the block found if enough is left over. */
    method SplitOff(b: nat, size: nat, ghost i: nat)
      requires Valid() && i < |blocks| && b == blocks[i].addr && Fits(blocks[i], size) && size % ALIGN == 0 && size > 0
      modifies `hs, `blocks
      ensures Valid() && i < |blocks| && blocks[i].addr == b && blocks[i].free
              && size <= blocks[i].size <= size + HEADER + MIN_SPLIT
      ensures Live(blocks) == Live(old(blocks)) && UsedBytes(blocks) == UsedBytes(old(blocks))
    {
      assert Recorded(hs, blocks, i);
      var remaining := hs[b].size - size;
      if remaining > HEADER + MIN_SPLIT {
        SplitRefines(hs, blocks, regions, head, i, size);
        SplitSums(blocks, i, size);
        SplitLive(blocks, i, size);
        var s := b + HEADER + size;
        hs := hs[s := Header(remaining - HEADER, MAGIC_FREE, true, hs[b].next)];
        hs := hs[b := hs[b].(size := size, next := s)];
        blocks := Split(blocks, i, size);
      }
    }

    /** Split, then mark the block allocated. */
    method Take(b: nat, size: nat, ghost i: nat)
      requires Valid() && i < |blocks| && b == blocks[i].addr && Fits(blocks[i], size) && size % ALIGN == 0 && size > 0
      modifies `hs, `blocks
      ensures Valid() && i < |blocks| && blocks[i].addr == b && size <= blocks[i].size <= size + HEADER + MIN_SPLIT
              && !blocks[i].free
      ensures Live(blocks) == Live(old(blocks)) + {blocks[i]} && blocks[i] !in Live(old(blocks))
      ensures UsedBytes(blocks) == UsedBytes(old(blocks)) + blocks[i].size
    {
      SplitOff(b, size, i);
      MarkRefines(hs, blocks, regions, head, i, false);
      MarkSums(blocks, i, false);
      TakeLive(blocks, regions, i);
      hs := hs[b := hs[b].(isFree := false, magic := MAGIC_ALLOC)];
      blocks := blocks[i := blocks[i].(free := false)];
    }

    method FindTail() returns (tail: nat)
      requires Valid()
      ensures tail == blocks[|blocks| - 1].addr
    {
      tail := head;
      ghost var i := 0;
      assert Recorded(hs, blocks, 0);
      while hs[tail].next != 0
        invariant 0 <= i < |blocks| && tail == blocks[i].addr && Recorded(hs, blocks, i)
        decreases |blocks| - i
      {
        tail := hs[tail].next;
        i := i + 1;
        assert Recorded(hs, blocks, i);
      }
      NotLast(blocks, i);
    }

    /** heap_expand: `va` is what the page allocator returned. */
    method Expand(size: nat, va: nat) returns (ok: bool)
      requires Valid() && Grantable(regions, va, ExpandPages(size))
      modifies `hs, `regions, `blocks
      ensures Valid() && ok == (va != 0 && |old(regions)| < MAX_REGIONS)
      ensures !ok ==> blocks == old(blocks) && regions == old(regions)
      ensures ok ==> blocks == old(blocks) + [NewBlock(size, va)]
                     && regions == old(regions) + [NewRegion(size, va)]
    {
      if va == 0 {
        return false;
      }
      PageAligned(va, ExpandPages(size));
      ok := Append(va, ExpandPages(size) * PAGE_SIZE, NewBlock(size, va));
    }

    /** Link the new region's one block behind the tail, and unlink it again if the table is full. */
    method Append(va: nat, bytes: nat, ghost b: Block) returns (ok: bool)
      requires Valid() && bytes > HEADER && b == Block(va, bytes - HEADER, true) && Aligned(b)
      requires forall x: nat | Within(b, x) :: !InRegions(regions, x)
      modifies `hs, `regions, `blocks
      ensures Valid() && ok == (|old(regions)| < MAX_REGIONS)
      ensures blocks == (if ok then old(blocks) + [b] else old(blocks))
              && regions == (if ok then old(regions) + [Region(va, bytes)] else old(regions))
    {
      AppendStores(hs, blocks, regions, head, b);
      hs := hs[va := Header(bytes - HEADER, MAGIC_FREE, true, 0)];
      var tail := FindTail();
      hs := hs[tail := hs[tail].(next := va)];
      ok := |regions| < MAX_REGIONS;
      if ok {
        regions := regions + [Region(va, bytes)];
        blocks := blocks + [b];
      } else {
        hs := hs[tail := hs[tail].(next := 0)];
      }
    }

    /** One attempt of kmalloc. */
    method TryTake(need: nat) returns (p: nat, ghost nb: Block)
      requires Valid() && need % ALIGN == 0 && need > 0
      modifies `hs, `blocks
      ensures Valid() && (p == 0 <==> FirstFit(old(blocks), need, 0) == |old(blocks)|)
      ensures if p == 0 then blocks == old(blocks) else Given(old(blocks), blocks, need, p, nb)
    {
      p, nb := 0, Block(0, 0, false);
      var b, i := FindFit(need);
      if b == 0 {
        NoAddress(blocks, i);
        return;
      }
      assert i < |blocks|;
      Take(b, need, i);
      p, nb := b + HEADER, blocks[i];
    }

    /** kmalloc: try, expand on failure, try once more. `va0` and `va1` are what the page allocator
        would return to the two expansions. */
    method Kmalloc(size: nat, va0: nat, va1: nat) returns (p: nat, ghost nb: Block)
      requires Valid() && size < SIZE_LIMIT
      requires var pages := ExpandPages(AlignUp(size));
               Grantable(regions, va0, pages) && Grantable(regions + [Region(va0, pages * PAGE_SIZE)], va1, pages)
      modifies `hs, `regions, `blocks
      ensures Valid() && (p == 0 <==> Refused(old(blocks), |old(regions)|, size, va0))
      ensures p != 0 ==> Given(old(blocks), blocks, AlignUp(size), p, nb)
      ensures p == 0 ==> Live(blocks) == Live(old(blocks)) && UsedBytes(blocks) == UsedBytes(old(blocks))
      ensures p == 0 && !Wraps(AlignUp(size)) ==> blocks == old(blocks) && regions == old(regions)
    {
      p, nb := 0, Block(0, 0, false);
      if size == 0 || size > SIZE_LIMIT - ALIGN {
        return;
      }
      var need := AlignUp(size);
      AlignUpBound(size);
      p, nb := TakeOrExpand(need, va0, va1);
    }

    /** The two attempts. */
    method TakeOrExpand(need: nat, va0: nat, va1: nat) returns (p: nat, ghost nb: Block)
      requires Valid() && 0 < need <= SIZE_LIMIT - ALIGN && need % ALIGN == 0
      requires Grantable(regions, va0, ExpandPages(need))
               && Grantable(regions + [NewRegion(need, va0)], va1, ExpandPages(need))
      modifies `hs, `regions, `blocks
      ensures Valid() && (p == 0 <==> NoRoom(old(blocks), |old(regions)|, need, va0))
      ensures p != 0 ==> Given(old(blocks), blocks, need, p, nb)
      ensures p == 0 ==> Live(blocks) == Live(old(blocks)) && UsedBytes(blocks) == UsedBytes(old(blocks))
      ensures p == 0 && !Wraps(need) ==> blocks == old(blocks) && regions == old(regions)
    {
      p, nb := 0, Block(0, 0, false);
      ghost var bs0, n := blocks, |regions|;
      var attempt := 0;
      while attempt < 2
        invariant 0 <= attempt <= 2 && Valid() && p == 0
        invariant attempt == 0 ==> blocks == bs0 && regions == old(regions)
        invariant attempt == 1 ==> regions == old(regions) + [NewRegion(need, va0)]
        invariant Retrying(bs0, blocks, n, need, va0, va1, attempt)
      {
        ghost var bs := blocks;
        p, nb := TryTake(need);
        if p != 0 {
          RetryGives(bs0, bs, blocks, n, need, va0, va1, attempt, p, nb);
          return;
        }
        var ok := Expand(need, if attempt == 0 then va0 else va1);
        if !ok {
          RetryFails(bs0, bs, n, need, va0, va1, attempt);
          return;
        }
        RetryStep(bs0, bs, n, need, va0, va1, attempt);
        attempt := attempt + 1;
      }
      ExpandedLive(bs0, blocks, need, va0, va1, attempt);
    }

    /** The walk that merges free neighbours. */
    method Coalesce()
      requires Valid()
      modifies `hs, `blocks
      ensures Valid() && FullyMerged(blocks) && Live(blocks) == Live(old(blocks))
              && UsedBytes(blocks) == UsedBytes(old(blocks))
    {
      var current := head;
      ghost var i := 0;
      while current != 0
        invariant Valid() && i <= |blocks| && current == AddrAt(blocks, i) && MergedUpTo(blocks, i)
        invariant Live(blocks) == Live(old(blocks)) && UsedBytes(blocks) == UsedBytes(old(blocks))
        decreases |blocks| - i
      {
        MergeAt(current, i);
        assert Recorded(hs, blocks, i);
        current := hs[current].next;
        i := i + 1;
      }
      NoAddress(blocks, i);
    }

    /** The inner loop: absorb free neighbours as long as they are adjacent. */
    method MergeAt(current: nat, ghost i: nat)
      requires Valid() && i < |blocks| && current == blocks[i].addr && MergedUpTo(blocks, i)
      modifies `hs, `blocks
      ensures Valid() && MergedFrom(old(blocks), blocks, i) && MergedUpTo(blocks, i + 1) && current == blocks[i].addr
    {
      while true
        invariant Valid() && MergedFrom(old(blocks), blocks, i) && MergedUpTo(blocks, i) && current == blocks[i].addr
        decreases |blocks|
      {
        assert Recorded(hs, blocks, i);
        var next := hs[current].next;
        if !hs[current].isFree || next == 0 {
          LastOrUsed(blocks, i);
          return;
        }
        HasNext(blocks, i);
        assert Recorded(hs, blocks, i + 1);
        if !hs[next].isFree || current + HEADER + hs[current].size != next {
          return;
        }
        MergeRefines(hs, blocks, regions, head, i);
        MergeStep(old(blocks), blocks, i);
        hs := hs[current := hs[current].(size := hs[current].size + HEADER + hs[next].size, next := hs[next].next)];
        blocks := Merge(blocks, i);
      }
    }

    /** kfree. A null pointer, a pointer outside the regions and any pointer that is not to a live
        block are refused, also when the block it once was has been merged away. The pointer is one
        behind some header the allocator wrote. */
    method Kfree(p: nat)
      requires Valid() && (p != 0 ==> p >= HEADER && (InRegions(regions, p - HEADER) ==> p - HEADER in hs))
      modifies `hs, `blocks
      ensures Valid()
      ensures forall b | b in Live(old(blocks)) && Payload(b) == p :: Returned(old(blocks), blocks, b)
      ensures (forall b | b in Live(old(blocks)) :: Payload(b) != p) ==> blocks == old(blocks) && hs == old(hs)
    {
      if p == 0 {
        return;
      }
      var h := p - HEADER;
      var inside := AddrInAnyRegion(h);
      if !inside {
        LiveInside(blocks, regions, h);
        return;
      }
      if hs[h].magic != MAGIC_ALLOC || hs[h].isFree {
        LiveStamped(hs, blocks, h);
        return;
      }
      ghost var i := LiveIndex(blocks, regions, h);
      Release(h, i);
      Coalesce();
    }

    method Release(h: nat, ghost i: nat)
      requires Valid() && i < |blocks| && blocks[i].addr == h && !blocks[i].free
      modifies `hs, `blocks
      ensures Valid() && Live(blocks) == Live(old(blocks)) - {old(blocks)[i]}
              && UsedBytes(blocks) + old(blocks)[i].size == UsedBytes(old(blocks))
    {
      MarkRefines(hs, blocks, regions, head, i, true);
      MarkSums(blocks, i, true);
      FreeLive(blocks, regions, i);
      hs := hs[h := hs[h].(isFree := true, magic := MAGIC_FREE)];
      blocks := blocks[i := blocks[i].(free := true)];
    }

    /** What kmalloc gave out, kfree takes back: the live blocks and the bytes in use are as before. */
    method KmallocThenKfree(size: nat, va0: nat, va1: nat)
      returns (p: nat, ghost nb: Block, ghost between: seq<Block>)
      requires Valid() && size < SIZE_LIMIT
      requires var pages := ExpandPages(AlignUp(size));
               Grantable(regions, va0, pages) && Grantable(regions + [Region(va0, pages * PAGE_SIZE)], va1, pages)
      modifies `hs, `regions, `blocks
      ensures Valid() && Live(blocks) == Live(old(blocks)) && UsedBytes(blocks) == UsedBytes(old(blocks))
      ensures p == 0 <==> Refused(old(blocks), |old(regions)|, size, va0)
      ensures p != 0 ==> Given(old(blocks), between, AlignUp(size), p, nb)
    {
      p, nb := Kmalloc(size, va0, va1);
      between := blocks;
      if p != 0 {
        LiveStamped(hs, blocks, nb.addr);
      }
      assert p == 0 ==> forall b | b in Live(between) :: Payload(b) != p;
      assert p != 0 ==> nb in Live(between) && Payload(nb) == p;
      Kfree(p);
    }

    method AddrInAnyRegion(a: nat) returns (yes: bool)
      ensures yes == InRegions(regions, a)
    {
      var i := 0;
      while i < |regions|
        invariant 0 <= i <= |regions| && forall k | 0 <= k < i :: !InRegion(regions[k], a)
      {
        if InRegion(regions[i], a) {
          return true;
        }
        i := i + 1;
      }
      return false;
    }

    /** heap_used_bytes and heap_free_bytes. */
    method Counters() returns (used: nat, free: nat)
      requires Valid()
      ensures used == UsedBytes(blocks) && free == FreeBytes(blocks)
      ensures used + free + HEADER * |blocks| == TotalBytes(regions)
    {
      used, free := 0, 0;
      var c := head;
      ghost var i := 0;
      while c != 0
        invariant i <= |blocks| && c == AddrAt(blocks, i) && used == UsedBytes(blocks[..i])
                  && free == FreeBytes(blocks[..i])
        decreases |blocks| - i
      {
        assert Recorded(hs, blocks, i);
        assert blocks[..i + 1][..i] == blocks[..i];
        if hs[c].isFree {
          free := free + hs[c].size;
        } else {
          used := used + hs[c].size;
        }
        c, i := hs[c].next, i + 1;
      }
      NoAddress(blocks, i);
      assert blocks[..i] == blocks;
    }
  }

  // ---- small facts ----

  /** Two live payloads never overlap. */
  lemma LivePayloadsApart(bs: seq<Block>, rs: seq<Region>, b: Block, c: Block, x: nat)
    requires Partition(bs, rs) && b in Live(bs) && c in Live(bs) && Payload(b) <= x < End(b) && Payload(c) <= x < End(c)
    ensures b == c && InRegions(rs, x)
  {
    var i :| 0 <= i < |bs| && bs[i] == b;
    var j :| 0 <= j < |bs| && bs[j] == c;
    assert i != j ==> Clear(bs[i], bs[j]);
    assert Within(bs[i], x);
    assert Covered(bs, x);
  }

  /** What kfree did with a live block. */
  ghost predicate Returned(before: seq<Block>, after: seq<Block>, b: Block) {
    FullyMerged(after) && Live(after) == Live(before) - {b} && UsedBytes(after) + b.size == UsedBytes(before)
  }

  lemma LiveInside(bs: seq<Block>, rs: seq<Region>, a: nat)
    requires Partition(bs, rs)
    ensures HeaderLive(Live(bs), a) ==> InRegions(rs, a)
  {
    if b :| b in Live(bs) && b.addr == a {
      var i :| 0 <= i < |bs| && bs[i] == b;
      assert Within(bs[i], a);
      assert Covered(bs, a);
    }
  }

  /** A live block's header says so. */
  lemma LiveStamped(hs: Headers, bs: seq<Block>, a: nat)
    requires Linked(hs, bs)
    ensures HeaderLive(Live(bs), a) ==> a in hs && hs[a].magic == MAGIC_ALLOC && !hs[a].isFree
  {
    if b :| b in Live(bs) && b.addr == a {
      var i :| 0 <= i < |bs| && bs[i] == b;
      assert Recorded(hs, bs, i);
    }
  }

  lemma LiveIndex(bs: seq<Block>, rs: seq<Region>, a: nat) returns (i: nat)
    requires Partition(bs, rs) && HeaderLive(Live(bs), a)
    ensures i < |bs| && bs[i].addr == a && !bs[i].free && forall b | b in Live(bs) && b.addr == a :: b == bs[i]
  {
    var c :| c in Live(bs) && c.addr == a;
    i :| 0 <= i < |bs| && bs[i] == c;
    forall b | b in Live(bs) && b.addr == a
      ensures b == c
    {
      var k :| 0 <= k < |bs| && bs[k] == b;
      if k != i {
        Apart(bs, rs, i, k);
      }
    }
  }

  lemma FirstRegion(va: nat, size: nat)
    requires va > 0 && va % ALIGN == 0 && size > 0 && size % ALIGN == 0
    ensures Shape(map[va := Header(size, MAGIC_FREE, true, 0)], [Block(va, size, true)], [Region(va, size + HEADER)],
            va)
  {
    var bs, rs := [Block(va, size, true)], [Region(va, size + HEADER)];
    forall x: nat {:trigger Covered(bs, x)}
      ensures Covered(bs, x) <==> InRegions(rs, x)
    {
      assert Within(bs[0], x) <==> InRegion(rs[0], x);
    }
  }

  lemma PageAligned(va: nat, pages: nat)
    requires va % PAGE_SIZE == 0 && pages > 0
    ensures va % ALIGN == 0 && (pages * PAGE_SIZE - HEADER) % ALIGN == 0 && pages * PAGE_SIZE > HEADER
  {
    assert va == va / PAGE_SIZE * 256 * ALIGN;
    assert pages * PAGE_SIZE - HEADER == (pages * 256 - 2) * ALIGN;
  }

  lemma ExtraHeader(hs: Headers, bs: seq<Block>, rs: seq<Region>, head: nat, a: nat, h: Header)
    requires Shape(hs, bs, rs, head) && !InRegions(rs, a)
    ensures Shape(hs[a := h], bs, rs, head)
  {
    var hs' := hs[a := h];
    forall k | 0 <= k < |bs|
      ensures Recorded(hs', bs, k)
    {
      assert Recorded(hs, bs, k);
      assert Within(bs[k], bs[k].addr);
      assert Covered(bs, bs[k].addr);
    }
  }

  /** The stores of an expansion: the new header alone changes nothing, the tail's next appends the
      block, and clearing it again takes the append back. */
  lemma AppendStores(hs: Headers, bs: seq<Block>, rs: seq<Region>, head: nat, b: Block)
    requires Shape(hs, bs, rs, head) && Stamped(hs, Live(bs)) && b.free && Aligned(b)
             && forall x: nat | Within(b, x) :: !InRegions(rs, x)
    ensures var last, hs1 := bs[|bs| - 1].addr, hs[b.addr := Header(b.size, MAGIC_FREE, true, 0)];
            && last in hs1 && Shape(hs1, bs, rs, head) && Stamped(hs1, Live(bs))
            && var hs2 := hs1[last := hs1[last].(next := b.addr)];
               && Shape(hs2, bs + [b], rs + [Region(b.addr, b.size + HEADER)], head) && Stamped(hs2, Live(bs + [b]))
               && hs2[last := hs2[last].(next := 0)] == hs1
  {
    AppendRefines(hs, bs, rs, head, b);
    AppendLive(bs, b);
    assert Within(b, b.addr);
    ExtraHeader(hs, bs, rs, head, b.addr, Header(b.size, MAGIC_FREE, true, 0));
    assert Recorded(hs, bs, |bs| - 1);
  }

  lemma SplitLive(bs: seq<Block>, i: nat, keep: nat)
    requires i < |bs| && bs[i].free && keep + HEADER <= bs[i].size
    ensures Live(Split(bs, i, keep)) == Live(bs)
  {
    assert bs == bs[..i] + [bs[i]] + bs[i + 1..];
  }

  lemma AppendLive(bs: seq<Block>, b: Block)
    requires b.free
    ensures Live(bs + [b]) == Live(bs)
  {
  }

  lemma MergeLive(bs: seq<Block>, i: nat)
    requires i + 1 < |bs| && bs[i].free && bs[i + 1].free
    ensures Live(Merge(bs, i)) == Live(bs)
  {
    assert bs == bs[..i] + [bs[i], bs[i + 1]] + bs[i + 2..];
  }

  lemma TakeLive(bs: seq<Block>, rs: seq<Region>, i: nat)
    requires Partition(bs, rs) && i < |bs| && bs[i].free
    ensures Live(bs[i := bs[i].(free := false)]) == Live(bs) + {bs[i].(free := false)}
            && bs[i].(free := false) !in Live(bs)
  {
    Replaced(bs, rs, i, bs[i].(free := false));
    if bs[i].(free := false) in bs {
      var k :| 0 <= k < |bs| && bs[k] == bs[i].(free := false);
      Apart(bs, rs, i, k);
    }
  }

  lemma FreeLive(bs: seq<Block>, rs: seq<Region>, i: nat)
    requires Partition(bs, rs) && i < |bs| && !bs[i].free
    ensures Live(bs[i := bs[i].(free := true)]) == Live(bs) - {bs[i]}
  {
    Replaced(bs, rs, i, bs[i].(free := true));
  }

  lemma Replaced(bs: seq<Block>, rs: seq<Region>, i: nat, b: Block)
    requires Partition(bs, rs) && i < |bs|
    ensures forall x :: x in bs[i := b] <==> x == b || (x in bs && x != bs[i])
  {
    forall x | x in bs && x != bs[i]
      ensures x in bs[i := b]
    {
      var k :| 0 <= k < |bs| && bs[k] == x;
      assert bs[i := b][k] == x;
    }
    assert bs[i := b][i] == b;
    forall k | 0 <= k < |bs| && k != i
      ensures bs[k] != bs[i]
    {
      Apart(bs, rs, i, k);
    }
  }

  lemma ExpandedLive(before: seq<Block>, bs: seq<Block>, need: nat, va0: nat, va1: nat, times: nat)
    requires Expanded(before, bs, need, va0, va1, times)
    ensures Live(bs) == Live(before) && UsedBytes(bs) == UsedBytes(before)
  {
    var added := bs[|before|..];
    assert bs == before + added && forall b | b in added :: b.free;
    SumsConcat(before, added);
    SumsOfTwo(NewBlock(need, va0), NewBlock(need, va1));
    assert UsedBytes(added) == 0;
  }

  /** A successful attempt, seen from the start. */
  lemma RetryGives(before: seq<Block>, bs: seq<Block>, after: seq<Block>, regions: nat, need: nat, va0: nat, va1: nat,
                   times: nat, p: nat, b: Block)
    requires Retrying(before, bs, regions, need, va0, va1, times) && Given(bs, after, need, p, b)
    requires times < 2 && FirstFit(bs, need, 0) < |bs| && need <= SIZE_LIMIT - ALIGN
    ensures Given(before, after, need, p, b) && !NoRoom(before, regions, need, va0)
  {
    ExpandedLive(before, bs, need, va0, va1, times);
    assert times == 0 ==> bs == before;
    ExpansionFits(need, va0);
  }

  /** A failed expansion after a failed attempt. */
  lemma RetryFails(before: seq<Block>, bs: seq<Block>, regions: nat, need: nat, va0: nat, va1: nat, times: nat)
    requires Retrying(before, bs, regions, need, va0, va1, times) && need <= SIZE_LIMIT - ALIGN
    requires times < 2 && FirstFit(bs, need, 0) == |bs| && (times == 0 ==> va0 == 0 || regions >= MAX_REGIONS)
    ensures NoRoom(before, regions, need, va0) && (times > 0 ==> Wraps(need)) && Live(bs) == Live(before)
            && UsedBytes(bs) == UsedBytes(before)
  {
    ExpandedLive(before, bs, need, va0, va1, times);
    if times == 0 {
      assert bs == before;
    } else {
      ExpansionFits(need, va0);
      assert !Fits(bs[|before|], need);
    }
  }

  lemma AlignUpBound(size: nat)
    requires 0 < size <= SIZE_LIMIT - ALIGN
    ensures 0 < AlignUp(size) <= SIZE_LIMIT - ALIGN
  {
  }

  /** One more expansion after a failed attempt. After the first, only a request that wrapped is
      still without a block. */
  lemma RetryStep(before: seq<Block>, bs: seq<Block>, regions: nat, need: nat, va0: nat, va1: nat, times: nat)
    requires Retrying(before, bs, regions, need, va0, va1, times) && times < 2 && need <= SIZE_LIMIT - ALIGN
    requires FirstFit(bs, need, 0) == |bs| && (times == 0 ==> va0 != 0 && regions < MAX_REGIONS)
    ensures Retrying(before, bs + [NewBlock(need, if times == 0 then va0 else va1)], regions, need, va0, va1, times + 1)
  {
    if times == 0 {
      assert bs == before;
    } else {
      ExpansionFits(need, va0);
      assert !Fits(bs[|before|], need);
    }
  }

  lemma HasNext(bs: seq<Block>, i: nat)
    requires i < |bs| && AddrAt(bs, i + 1) != 0
    ensures i + 1 < |bs| && bs[i + 1].addr == AddrAt(bs, i + 1)
  {
  }

  lemma LastOrUsed(bs: seq<Block>, i: nat)
    requires AllAligned(bs) && i < |bs| && (!bs[i].free || AddrAt(bs, i + 1) == 0)
    ensures i + 1 < |bs| ==> !Mergeable(bs, i)
  {
  }

  /** Merging at i leaves the pairs before it as they were, and every live block. */
  lemma MergeStep(before: seq<Block>, bs: seq<Block>, i: nat)
    requires MergedFrom(before, bs, i) && MergedUpTo(bs, i) && i + 1 < |bs| && Mergeable(bs, i)
    ensures var r := Merge(bs, i); MergedFrom(before, r, i) && MergedUpTo(r, i) && |r| < |bs| && r[i].addr == bs[i].addr
  {
    var r := Merge(bs, i);
    MergeSums(bs, i);
    MergeLive(bs, i);
    forall k {:trigger Mergeable(r, k)} | 0 <= k < i && k + 1 < |r|
      ensures !Mergeable(r, k)
    {
      assert !Mergeable(bs, k);
    }
  }

  lemma NoAddress(bs: seq<Block>, i: nat)
    requires AllAligned(bs) && i <= |bs| && AddrAt(bs, i) == 0
    ensures i == |bs|
  {
  }

  lemma NotLast(bs: seq<Block>, i: nat)
    requires AllAligned(bs) && i < |bs| && AddrAt(bs, i + 1) == 0
    ensures i == |bs| - 1
  {
  }
}
