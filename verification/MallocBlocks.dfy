/** The block list of a heap (user/lib/malloc.c, src/mm/heap/heap.c) as a sequence, what splitting and
    merging do to it, and which block a request is served from. */
module MallocBlocks {

  const HEADER: nat := 32
  const ALIGN: nat := 16
  const MIN_PAYLOAD: nat := 16
  const MAGIC_ALLOC: nat := 0xA110CED
  const MAGIC_FREE: nat := 0xFEEDF1EE

  datatype Block = Block(addr: nat, size: nat, free: bool)

  function Payload(b: Block): nat {
    b.addr + HEADER
  }

  function End(b: Block): nat {
    b.addr + HEADER + b.size
  }

  // ---- the list ----

  /** Header and payload of each block are followed at once by the next block. */
  ghost predicate Adjoin(bs: seq<Block>, i: nat)
    requires i + 1 < |bs|
  {
    End(bs[i]) == bs[i + 1].addr
  }

  /** The blocks tile the arena from lo to brk. */
  ghost predicate Tiled(bs: seq<Block>, lo: nat, brk: nat) {
    && (bs == [] ==> lo == brk)
    && (bs != [] ==> bs[0].addr == lo && End(bs[|bs| - 1]) == brk)
    && (forall i {:trigger Adjoin(bs, i)} | 0 <= i < |bs| - 1 :: Adjoin(bs, i))
  }

  ghost predicate BlockOk(b: Block) {
    b.addr > 0 && b.addr % ALIGN == 0 && b.size % ALIGN == 0 && b.size >= MIN_PAYLOAD
  }

  ghost predicate AllOk(bs: seq<Block>) {
    forall i | 0 <= i < |bs| :: BlockOk(bs[i])
  }

  ghost predicate BothFree(bs: seq<Block>, i: nat)
    requires i + 1 < |bs|
  {
    bs[i].free && bs[i + 1].free
  }

  /** No two neighbours are both free. */
  ghost predicate Coalesced(bs: seq<Block>) {
    forall i {:trigger BothFree(bs, i)} | 0 <= i < |bs| - 1 :: !BothFree(bs, i)
  }

  lemma {:induction false} Ordered(bs: seq<Block>, lo: nat, brk: nat, i: nat, j: nat)
    requires Tiled(bs, lo, brk) && i < j < |bs|
    ensures End(bs[i]) <= bs[j].addr
    decreases j - i
  {
    assert Adjoin(bs, j - 1);
    if i < j - 1 {
      Ordered(bs, lo, brk, i, j - 1);
    }
  }

  lemma Inside(bs: seq<Block>, lo: nat, brk: nat, i: nat)
    requires Tiled(bs, lo, brk) && i < |bs|
    ensures lo <= bs[i].addr && End(bs[i]) <= brk
  {
    if i > 0 {
      Ordered(bs, lo, brk, 0, i);
    }
    if i < |bs| - 1 {
      Ordered(bs, lo, brk, i, |bs| - 1);
    }
  }

  /** Two blocks of the arena do not overlap, headers included. */
  lemma BlocksApart(bs: seq<Block>, lo: nat, brk: nat, i: nat, j: nat)
    requires Tiled(bs, lo, brk) && i < |bs| && j < |bs| && i != j
    ensures End(bs[i]) <= bs[j].addr || End(bs[j]) <= bs[i].addr
    ensures bs[i].addr != bs[j].addr
  {
    if i < j {
      Ordered(bs, lo, brk, i, j);
    } else {
      Ordered(bs, lo, brk, j, i);
    }
  }

  // ---- split, merge, append ----

  function Merge(bs: seq<Block>, i: nat): (r: seq<Block>)
    requires i + 1 < |bs|
    ensures |r| == |bs| - 1
  {
    bs[..i] + [bs[i].(size := bs[i].size + HEADER + bs[i + 1].size)] + bs[i + 2..]
  }

  lemma MergeKeepsShape(bs: seq<Block>, lo: nat, brk: nat, i: nat)
    requires Tiled(bs, lo, brk) && AllOk(bs) && i + 1 < |bs|
    ensures Tiled(Merge(bs, i), lo, brk) && AllOk(Merge(bs, i))
  {
    var r := Merge(bs, i);
    assert Adjoin(bs, i);
    forall k | 0 <= k < |r| - 1
      ensures Adjoin(r, k)
    {
      assert Adjoin(bs, if k < i then k else k + 1);
    }
  }

  function Split(bs: seq<Block>, i: nat, keep: nat): (r: seq<Block>)
    requires i < |bs| && keep + HEADER <= bs[i].size
    ensures |r| == |bs| + 1
  {
    bs[..i] + [bs[i].(size := keep), Block(Payload(bs[i]) + keep, bs[i].size - keep - HEADER, true)] + bs[i + 1..]
  }

  lemma SplitKeepsShape(bs: seq<Block>, lo: nat, brk: nat, i: nat, keep: nat)
    requires Tiled(bs, lo, brk) && AllOk(bs) && i < |bs|
    requires keep % ALIGN == 0 && keep >= MIN_PAYLOAD && bs[i].size >= keep + HEADER + MIN_PAYLOAD
    ensures Tiled(Split(bs, i, keep), lo, brk) && AllOk(Split(bs, i, keep))
  {
    var r := Split(bs, i, keep);
    assert BlockOk(bs[i]);
    forall k | 0 <= k < |r| - 1
      ensures Adjoin(r, k)
    {
      if k < i {
        assert Adjoin(bs, k);
      } else if k > i {
        assert Adjoin(bs, k - 1);
      }
    }
    forall k | 0 <= k < |r|
      ensures BlockOk(r[k])
    {
      if k > i + 1 {
        assert r[k] == bs[k - 1];
      }
    }
  }

  /** Merging back what was split off. */
  lemma MergeUndoesSplit(bs: seq<Block>, i: nat, keep: nat)
    requires i < |bs| && keep + HEADER <= bs[i].size
    ensures Merge(Split(bs, i, keep), i) == bs
  {
  }

  lemma AppendKeepsShape(bs: seq<Block>, lo: nat, brk: nat, b: Block)
    requires Tiled(bs, lo, brk) && AllOk(bs) && BlockOk(b) && b.addr == brk
    ensures Tiled(bs + [b], lo, End(b)) && AllOk(bs + [b])
  {
    forall k | 0 <= k < |bs|
      ensures Adjoin(bs + [b], k)
    {
      if k < |bs| - 1 {
        assert Adjoin(bs, k);
      }
    }
  }

  // ---- block_release ----

  /** Marked free and merged with whichever neighbours are free. */
  function Released(bs: seq<Block>, i: nat): seq<Block>
    requires i < |bs|
  {
    var marked := bs[i := bs[i].(free := true)];
    var forward := if i + 1 < |bs| && marked[i + 1].free then Merge(marked, i) else marked;
    if i > 0 && forward[i - 1].free then Merge(forward, i - 1) else forward
  }

  /** Freeing restores the rule that no two neighbours are both free. */
  lemma ReleaseCoalesces(bs: seq<Block>, i: nat)
    requires i < |bs| && Coalesced(bs[..i]) && Coalesced(bs[i + 1..])
    ensures Coalesced(Released(bs, i))
  {
    var marked := bs[i := bs[i].(free := true)];
    var forward := if i + 1 < |bs| && marked[i + 1].free then Merge(marked, i) else marked;
    ForwardCoalesced(bs, i);
    var r := Released(bs, i);
    if i > 0 && forward[i - 1].free {
      forall k | 0 <= k < |r| - 1
        ensures !BothFree(r, k)
      {
        if k < i - 2 {
          assert !BothFree(bs[..i], k);
        } else if k == i - 2 {
          assert !BothFree(bs[..i], i - 2);
        } else {
          assert r[k + 1] == forward[k + 2];
          assert k > i - 1 ==> r[k] == forward[k + 1];
        }
      }
    } else {
      forall k | 0 <= k < |r| - 1
        ensures !BothFree(r, k)
      {
        if k < i - 1 {
          assert !BothFree(bs[..i], k);
        }
      }
    }
  }

  lemma ForwardCoalesced(bs: seq<Block>, i: nat)
    requires i < |bs| && Coalesced(bs[i + 1..])
    ensures var marked := bs[i := bs[i].(free := true)];
            var forward := if i + 1 < |bs| && marked[i + 1].free then Merge(marked, i) else marked;
            forall k | i <= k < |forward| - 1 :: !(forward[k].free && forward[k + 1].free)
  {
    var marked := bs[i := bs[i].(free := true)];
    var tail := bs[i + 1..];
    if i + 1 < |bs| && marked[i + 1].free {
      var forward := Merge(marked, i);
      forall k | i <= k < |forward| - 1
        ensures !(forward[k].free && forward[k + 1].free)
      {
        assert !BothFree(tail, k - i);
        assert forward[k + 1] == tail[k + 1 - i];
        assert k > i ==> forward[k] == tail[k - i];
      }
    } else {
      forall k | i <= k < |marked| - 1
        ensures !(marked[k].free && marked[k + 1].free)
      {
        if k > i {
          assert !BothFree(tail, k - i - 1);
        }
      }
    }
  }

  // ---- taking a free block ----

  /** The remainder of a split free block has no free neighbour once the front is taken. */
  lemma TakeSplitCoalesced(bs: seq<Block>, i: nat, keep: nat)
    requires Coalesced(bs) && i < |bs| && bs[i].free && keep + HEADER <= bs[i].size
    ensures var s := Split(bs, i, keep); Coalesced(s[i := s[i].(free := false)])
  {
    var s := Split(bs, i, keep);
    var r := s[i := s[i].(free := false)];
    forall k | 0 <= k < |r| - 1
      ensures !BothFree(r, k)
    {
      if k < i - 1 {
        assert !BothFree(bs, k);
      } else if k > i {
        assert !BothFree(bs, k - 1);
      }
    }
  }

  lemma TakeCoalesced(bs: seq<Block>, i: nat)
    requires Coalesced(bs) && i < |bs|
    ensures Coalesced(bs[i := bs[i].(free := false)])
  {
    var r := bs[i := bs[i].(free := false)];
    forall k | 0 <= k < |r| - 1
      ensures !BothFree(r, k)
    {
      assert !BothFree(bs, k);
    }
  }

  lemma AppendCoalesced(bs: seq<Block>, b: Block)
    requires Coalesced(bs) && !b.free
    ensures Coalesced(bs + [b])
  {
    forall k | 0 <= k < |bs|
      ensures !BothFree(bs + [b], k)
    {
      if k < |bs| - 1 {
        assert !BothFree(bs, k);
      }
    }
  }

  /** Both sides of a block of a coalesced list are coalesced. */
  lemma SidesCoalesced(bs: seq<Block>, i: nat)
    requires Coalesced(bs) && i < |bs|
    ensures Coalesced(bs[..i]) && Coalesced(bs[i + 1..])
  {
    var left, right := bs[..i], bs[i + 1..];
    forall k | 0 <= k < |left| - 1
      ensures !BothFree(left, k)
    {
      assert !BothFree(bs, k);
    }
    forall k | 0 <= k < |right| - 1
      ensures !BothFree(right, k)
    {
      assert !BothFree(bs, i + 1 + k);
    }
  }

  /** The same for the block a live block's tail is split into. */
  lemma SplitSidesCoalesced(bs: seq<Block>, i: nat, keep: nat)
    requires Coalesced(bs) && i < |bs| && !bs[i].free && keep + HEADER <= bs[i].size
    ensures Coalesced(Split(bs, i, keep)[..i + 1]) && Coalesced(Split(bs, i, keep)[i + 2..])
  {
    var s := Split(bs, i, keep);
    SidesCoalesced(bs, i);
    assert s[i + 2..] == bs[i + 1..];
    var left := s[..i + 1];
    forall k | 0 <= k < |left| - 1
      ensures !BothFree(left, k)
    {
      assert !BothFree(bs, k) || k == i - 1;
    }
  }

  /** Freeing a block straight after it was taken from the pool restores the list exactly: the
      remainder is merged back, and nothing else. */
  lemma ReleaseUndoesTake(bs: seq<Block>, i: nat, keep: nat)
    requires Coalesced(bs) && i < |bs| && bs[i].free
    ensures Released(bs[i := bs[i].(free := false)], i) == bs
    ensures keep + HEADER <= bs[i].size ==> var s := Split(bs, i, keep); Released(s[i := s[i].(free := false)], i) == bs
  {
    if i > 0 {
      assert !BothFree(bs, i - 1);
    }
    if i + 1 < |bs| {
      assert !BothFree(bs, i);
    }
    if keep + HEADER <= bs[i].size {
      var s := Split(bs, i, keep);
      var taken := s[i := s[i].(free := false)];
      assert taken[i := taken[i].(free := true)] == s;
      MergeUndoesSplit(bs, i, keep);
    }
  }

  // ---- requests ----

  ghost function Live(bs: seq<Block>): set<Block> {
    set b | b in bs && !b.free
  }

  /** ALIGN_UP, for requests it does not wrap on. */
  function AlignUp(n: nat): (r: nat)
    ensures r % ALIGN == 0 && n <= r < n + ALIGN
  {
    (n + (ALIGN - 1)) / ALIGN * ALIGN
  }

  predicate Fits(b: Block, need: nat) {
    b.free && b.size >= need
  }

  /** Index of the first block that is free and large enough, from i on; |bs| if there is none. */
  function FirstFit(bs: seq<Block>, need: nat, i: nat): (k: nat)
    requires i <= |bs|
    ensures i <= k <= |bs| && (k < |bs| ==> Fits(bs[k], need)) && forall j | i <= j < k :: !Fits(bs[j], need)
    decreases |bs| - i
  {
    if i == |bs| || Fits(bs[i], need) then i else FirstFit(bs, need, i + 1)
  }
}
