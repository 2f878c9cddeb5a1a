/** malloc, free and realloc over one contiguous brk arena (user/lib/malloc.c). */
module Malloc {
  import opened MallocBlocks
  import opened MallocHeaders
  import opened MallocMemory
  import opened Values

  class Heap {
    /** Where the kernel's break stands when the program starts, and how it answers each request to
        move it. */
    const start: nat
    const grants: nat -> bool
    var requests: nat

    var heapHead: nat
    var heapTail: nat
    var heapBrk: nat
    var heapReady: bool
    var heapBytes: nat

    // memory: the bytes of the arena, and the headers as last stored
    var mem: seq<Byte>
    var hdr: Headers
    // headers no later store has overwritten, and the blocks they describe
    ghost var intact: set<nat>
    ghost var blocks: seq<Block>

    /** The blocks lie where the list says and their headers can be read. */
    ghost predicate Placed()
      reads this
    {
      Tiled(blocks, start, start + |mem|) && Tracked(hdr, intact, blocks)
    }

    ghost predicate Listed()
      reads this
    {
      Placed() && Shape(hdr, blocks, start, start + |mem|, heapHead, heapTail)
    }

    ghost predicate Valid()
      reads this
    {
      && Listed() && Coalesced(blocks)
      && start > 0 && start % ALIGN == 0 && heapBytes == |mem|
      && (if heapReady then heapBrk == start + |mem| else blocks == [])
    }

    constructor (firstBreak: nat, kernel: nat -> bool)
      requires firstBreak > 0 && firstBreak % ALIGN == 0
      ensures Valid() && blocks == []
    {
      start, grants, requests := firstBreak, kernel, 0;
      heapHead, heapTail, heapBrk, heapReady, heapBytes := 0, 0, 0, false, 0;
      mem, hdr, intact, blocks := [], map[], {}, [];
    }

    /** A store over a header's 32 bytes. What the arena then holds there is not specified. */
    method StoreHeader(a: nat, h: Header)
      requires start <= a && a + HEADER <= start + |mem|
      modifies `mem, `hdr, `intact
      ensures hdr == old(hdr)[a := h] && intact == Spared(old(intact), a, HEADER) + {a}
      ensures SameOutside(old(mem), mem, a - start, HEADER)
    {
      assert |seq(HEADER, i => 0)| == HEADER;
      var raw: seq<Byte> :| |raw| == HEADER;
      mem := mem[..a - start] + raw + mem[a - start + HEADER..];
      hdr := hdr[a := h];
      intact := Spared(intact, a, HEADER) + {a};
    }

    method StoreAt(a: nat, h: Header, ghost i: nat)
      requires Placed() && i < |blocks| && a == blocks[i].addr
      modifies `mem, `hdr, `intact
      ensures Placed() && hdr == old(hdr)[a := h] && |mem| == |old(mem)| && AllKept(start, old(mem), mem, blocks)
      ensures intact == Spared(old(intact), a, HEADER) + {a}
    {
      Inside(blocks, start, start + |mem|, i);
      StoreHeader(a, h);
      HeaderStored(old(hdr), old(intact), old(mem), mem, blocks, start, start + |mem|, i, h);
    }

    /** Reading a block's header. */
    function At(a: nat): Header
      requires a in hdr && a in intact
      reads this
    {
      hdr[a]
    }

    /** The block at a takes over the free block behind it. */
    method MergeNext(a: nat, ghost i: nat)
      requires Listed() && i + 1 < |blocks| && a == blocks[i].addr && blocks[i].free && blocks[i + 1].free
      modifies `mem, `hdr, `intact, `heapTail, `blocks
      ensures Listed() && blocks == Merge(old(blocks), i) && |mem| == |old(mem)|
      ensures Live(blocks) == Live(old(blocks)) && Keeps(start, old(mem), mem, Live(blocks))
    {
      MergeReads(hdr, intact, blocks, start, start + |mem|, i);
      MergeRefines(hdr, blocks, start, start + |mem|, heapHead, heapTail, i);
      LiveMerge(blocks, i);
      var n := At(a).next;
      var next := At(n).next;
      StoreMerge(a, n, next, i);
      if next == 0 {
        heapTail := a;
      }
      MergeTracked(hdr, intact, blocks, i);
      AllLiveKept(start, old(mem), mem, blocks);
      blocks := Merge(blocks, i);
    }

    method StoreMerge(a: nat, n: nat, next: nat, ghost i: nat)
      requires Listed() && i + 1 < |blocks| && a == blocks[i].addr && n == blocks[i + 1].addr
               && next == AddrAt(blocks, i + 2)
      modifies `mem, `hdr, `intact
      ensures Placed() && |mem| == |old(mem)| && AllKept(start, old(mem), mem, blocks)
      ensures hdr == MergeStores(old(hdr), a, n)
    {
      MergeReads(hdr, intact, blocks, start, start + |mem|, i);
      MergeStoresAre(hdr, a, n, next);
      StoreAt(a, At(a).(size := At(a).size + HEADER + At(n).size, next := next), i);
      ghost var mem1 := mem;
      if next != 0 {
        StoreAt(next, At(next).(prev := a), i + 2);
        AllKeptTwice(start, old(mem), mem1, mem, blocks);
      }
      ghost var mem2 := mem;
      StoreAt(n, At(n).(magic := 0), i + 1);
      AllKeptTwice(start, old(mem), mem2, mem, blocks);
    }

    /** is_free and magic of one block. */
    method SetFree(b: nat, free: bool, ghost i: nat)
      requires Listed() && i < |blocks| && b == blocks[i].addr
      modifies `mem, `hdr, `intact, `blocks
      ensures Listed() && blocks == old(blocks)[i := old(blocks)[i].(free := free)]
      ensures |mem| == |old(mem)| && AllKept(start, old(mem), mem, old(blocks))
    {
      AddrsAt(blocks, i);
      MarkRefines(hdr, blocks, start, start + |mem|, heapHead, heapTail, i, free);
      StoreAt(b, Marked(At(b), free), i);
      MarkTracked(hdr, intact, blocks, i, free);
      blocks := blocks[i := blocks[i].(free := free)];
    }

    /** block_release. */
    method Release(b: nat, ghost i: nat) returns (r: nat)
      requires Listed() && i < |blocks| && b == blocks[i].addr
      requires Coalesced(blocks[..i]) && Coalesced(blocks[i + 1..])
      modifies `mem, `hdr, `intact, `heapTail, `blocks
      ensures Listed() && Coalesced(blocks) && |mem| == |old(mem)|
      ensures blocks == Released(old(blocks), i)
      ensures Live(blocks) == Live(old(blocks)) - {old(blocks)[i]} && Keeps(start, old(mem), mem, Live(blocks))
    {
      ReleaseCoalesces(blocks, i);
      LiveMark(blocks, start, start + |mem|, i);
      AddrsAt(blocks, i);
      SetFree(b, true, i);
      AllLiveKept(start, old(mem), mem, old(blocks));
      AddrsAt(blocks, i);
      assert Recorded(hdr, blocks, i);
      if At(b).next != 0 {
        AddrsAt(blocks, i + 1);
        assert Recorded(hdr, blocks, i + 1);
        if At(At(b).next).isFree {
          MergeNext(b, i);
        }
      }
      AddrsAt(blocks, i);
      assert Recorded(hdr, blocks, i);
      r := b;
      if At(b).prev != 0 {
        AddrsAt(blocks, i - 1);
        assert Recorded(hdr, blocks, i - 1);
        if At(At(b).prev).isFree {
          r := At(b).prev;
          MergeNext(r, i - 1);
        }
      }
    }

    method StoreBackAndSize(b: nat, keep: nat, next: nat, ghost i: nat)
      requires Placed() && i < |blocks| && b == blocks[i].addr && next == AddrAt(blocks, i + 1)
      requires b in hdr && b in intact && (next != 0 ==> next in hdr && next in intact && next != b)
      requires var s := b + HEADER + keep;
               s in intact && Clear(s, HEADER, b, HEADER) && (next != 0 ==> Clear(s, HEADER, next, HEADER))
      modifies `mem, `hdr, `intact
      ensures Placed() && |mem| == |old(mem)| && b + HEADER + keep in intact && AllKept(start, old(mem), mem, blocks)
      ensures var s := b + HEADER + keep;
              var hs2 := if next != 0 then old(hdr)[next := old(hdr)[next].(prev := s)] else old(hdr);
              b in hs2 && hdr == hs2[b := hs2[b].(next := s, size := keep)]
    {
      if next != 0 {
        StoreAt(next, At(next).(prev := b + HEADER + keep), i + 1);
      }
      ghost var mem1 := mem;
      AddrsAt(blocks, i);
      StoreAt(b, At(b).(next := b + HEADER + keep, size := keep), i);
      AllKeptTwice(start, old(mem), mem1, mem, blocks);
    }

    /** The stores of a split, in the order the code makes them. */
    method StoreSplit(b: nat, keep: nat, next: nat, ghost i: nat)
      requires Listed() && i < |blocks| && b == blocks[i].addr && keep + HEADER <= blocks[i].size
               && next == AddrAt(blocks, i + 1)
      modifies `mem, `hdr, `intact
      ensures Placed() && |mem| == |old(mem)| && b + HEADER + keep in intact
      ensures Get(old(hdr), b).size == blocks[i].size && hdr == SplitStores(old(hdr), b, keep)
      ensures SplitKeeps(start, old(mem), mem, blocks, i, keep)
    {
      SplitReads(hdr, intact, blocks, start, start + |mem|, i, keep);
      SplitStoresAre(hdr, b, keep);
      var s := b + HEADER + keep;
      StoreHeader(s, Header(At(b).size - keep - HEADER, next, b, MAGIC_FREE, true));
      ghost var mem1 := mem;
      StoreTracked(old(hdr), old(intact), blocks, s, hdr[s]);
      StoreBackAndSize(b, keep, next, i);
      SplitKept(start, old(mem), mem1, mem, blocks, start + |mem|, i, keep);
    }

    /** Cut the payload of a block after `keep` bytes and make a free block of the rest. */
    method SplitOff(b: nat, keep: nat, ghost i: nat)
      requires Listed() && i < |blocks| && b == blocks[i].addr
      requires keep % ALIGN == 0 && keep >= MIN_PAYLOAD && blocks[i].size >= keep + HEADER + MIN_PAYLOAD
      modifies `mem, `hdr, `intact, `heapTail, `blocks
      ensures Listed() && blocks == Split(old(blocks), i, keep) && |mem| == |old(mem)|
      ensures SplitKeeps(start, old(mem), mem, old(blocks), i, keep)
    {
      SplitReads(hdr, intact, blocks, start, start + |mem|, i, keep);
      SplitRefines(hdr, blocks, start, start + |mem|, heapHead, heapTail, i, keep);
      var next := At(b).next;
      StoreSplit(b, keep, next, i);
      if next == 0 {
        heapTail := b + HEADER + keep;
      }
      SplitTracked(hdr, intact, blocks, i, keep);
      blocks := Split(blocks, i, keep);
    }

    /** Bytes stored into one block's payload, by memset, memcpy or the program. */
    method StoreBytes(p: nat, bytes: seq<Byte>, ghost i: nat)
      requires Listed() && i < |blocks| && Payload(blocks[i]) <= p && p + |bytes| <= End(blocks[i])
      modifies `mem, `intact
      ensures Listed() && |mem| == |old(mem)| && Keeps(start, old(mem), mem, Live(blocks) - {blocks[i]})
      ensures start <= p && p + |bytes| <= start + |mem|
              && mem == old(mem)[..p - start] + bytes + old(mem)[p - start + |bytes|..]
    {
      Inside(blocks, start, start + |mem|, i);
      mem := mem[..p - start] + bytes + mem[p - start + |bytes|..];
      PayloadStored(hdr, intact, old(mem), mem, blocks, start, start + |mem|, i, p, |bytes|);
      intact := Spared(intact, p, |bytes|);
      OthersLiveKept(start, old(mem), mem, blocks, i);
    }

    /** The first-fit search. */
    method FindFit(need: nat) returns (b: nat, ghost i: nat)
      requires Listed()
      ensures i == FirstFit(blocks, need, 0) && b == AddrAt(blocks, i)
    {
      b, i := heapHead, 0;
      while b != 0
        invariant i <= |blocks| && b == AddrAt(blocks, i) && FirstFit(blocks, need, 0) == FirstFit(blocks, need, i)
        decreases |blocks| - i
      {
        AddrsAt(blocks, i);
        assert Recorded(hdr, blocks, i);
        if At(b).isFree && At(b).size >= need {
          return;
        }
        b, i := At(b).next, i + 1;
      }
      NoAddress(blocks, i);
    }

    /** Take a free block that fits: split it if the rest is worth keeping. */
    method Take(b: nat, need: nat, ghost i: nat)
      requires Listed() && Coalesced(blocks) && i < |blocks| && b == blocks[i].addr && blocks[i].free
      requires need % ALIGN == 0 && need >= MIN_PAYLOAD && blocks[i].size >= need
      modifies `mem, `hdr, `intact, `heapTail, `blocks
      ensures Listed() && Coalesced(blocks) && |mem| == |old(mem)|
      ensures blocks == Taken(old(blocks), i, need) && i < |blocks|
      ensures Live(blocks) == Live(old(blocks)) + {blocks[i]} && blocks[i] !in Live(old(blocks))
      ensures Keeps(start, old(mem), mem, Live(old(blocks)))
    {
      AddrsAt(blocks, i);
      assert Recorded(hdr, blocks, i);
      TakenIs(blocks, i, need);
      if At(b).size >= need + HEADER + MIN_PAYLOAD {
        TakeSplitCoalesced(blocks, i, need);
        LiveSplit(blocks, start, start + |mem|, i, need);
        SplitOff(b, need, i);
        SplitLiveKept(start, old(mem), mem, old(blocks), i, need);
      } else {
        TakeCoalesced(blocks, i);
      }
      MarkTaken(b, i, old(mem), Live(old(blocks)));
    }

    /** The taken block's header. */
    method MarkTaken(b: nat, ghost i: nat, ghost mem0: seq<Byte>, ghost live: set<Block>)
      requires Listed() && i < |blocks| && b == blocks[i].addr && blocks[i].free
      requires Live(blocks) == live && Keeps(start, mem0, mem, live)
      modifies `mem, `hdr, `intact, `blocks
      ensures Listed() && |mem| == |old(mem)| && blocks == old(blocks)[i := old(blocks)[i].(free := false)]
      ensures Live(blocks) == live + {blocks[i]} && blocks[i] !in live && Keeps(start, mem0, mem, live)
    {
      ghost var mem1, blocks1 := mem, blocks;
      LiveMark(blocks, start, start + |mem|, i);
      SetFree(b, false, i);
      AllLiveKept(start, mem1, mem, blocks1);
      KeepsTwice(start, mem0, mem1, mem, live);
    }

    /** sys_brk: the kernel moves the break, or leaves it and reports where it stands. */
    method SysBrk(want: nat) returns (got: nat)
      modifies `requests
      ensures got == if grants(old(requests)) then want else heapBrk
    {
      got := if grants(requests) then want else heapBrk;
      requests := requests + 1;
    }

    /** heap_grow. The new bytes are whatever the kernel provides. */
    method Grow(n: nat) returns (base: nat)
      requires start > 0 && n > 0 && heapBytes == |mem| && (heapReady ==> heapBrk == start + |mem|)
               && (!heapReady ==> mem == [])
      modifies `requests, `heapReady, `heapBrk, `heapBytes, `mem
      ensures heapReady && heapBrk == start + |mem| && heapBytes == |mem|
      ensures base == 0 <==> !grants(old(requests))
      ensures base == 0 ==> mem == old(mem)
      ensures base != 0 ==> base == start + |old(mem)| && |mem| == |old(mem)| + n && old(mem) <= mem
    {
      if !heapReady {
        heapBrk := start;
        heapReady := true;
        if heapBrk == 0 {
          return 0;
        }
      }
      var want := heapBrk + n;
      var got := SysBrk(want);
      if got != want {
        return 0;
      }
      base := heapBrk;
      heapBrk := got;
      heapBytes := heapBytes + n;
      assert |seq(n, i => 0)| == n;
      var added: seq<Byte> :| |added| == n;
      mem := mem + added;
    }

    /** The new block's header and its place at the end of the list. */
    method Append(nb: nat, need: nat, ghost mem0: seq<Byte>)
      requires Tiled(blocks, start, nb) && Tracked(hdr, intact, blocks)
               && Shape(hdr, blocks, start, nb, heapHead, heapTail) && Coalesced(blocks)
      requires nb == start + |mem0| && mem0 <= mem && |mem| == |mem0| + HEADER + need
      requires nb > 0 && nb % ALIGN == 0 && need % ALIGN == 0 && need >= MIN_PAYLOAD
      modifies `mem, `hdr, `intact, `heapHead, `heapTail, `blocks
      ensures Listed() && Coalesced(blocks) && |mem| == |old(mem)| && blocks == old(blocks) + [Block(nb, need, false)]
      ensures Keeps(start, mem0, mem, Live(old(blocks)))
    {
      ghost var b := Block(nb, need, false);
      AppendRefines(hdr, blocks, start, nb, heapHead, heapTail, b);
      AppendCoalesced(blocks, b);
      StoreHeader(nb, Header(need, 0, heapTail, MAGIC_ALLOC, false));
      AppendStoreTracked(old(hdr), old(intact), blocks, start, nb, b, hdr[nb]);
      GrownKeeps(start, mem0, old(mem), mem, blocks);
      AllLiveKept(start, mem0, mem, blocks);
      blocks := blocks + [b];
      ghost var mem1 := mem;
      if heapTail != 0 {
        StoreOldTail(nb);
      } else {
        heapHead := nb;
      }
      heapTail := nb;
      AllLiveKept(start, mem1, mem, blocks);
      LiveAppend(old(blocks), b);
      KeepsTwice(start, mem0, mem1, mem, Live(old(blocks)));
    }

    method StoreOldTail(nb: nat)
      requires Placed() && |blocks| > 1 && heapTail == blocks[|blocks| - 2].addr
      modifies `mem, `hdr, `intact
      ensures Placed() && |mem| == |old(mem)| && hdr == old(hdr)[heapTail := Get(old(hdr), heapTail).(next := nb)]
      ensures AllKept(start, old(mem), mem, blocks)
    {
      AddrsAt(blocks, |blocks| - 2);
      StoreAt(heapTail, At(heapTail).(next := nb), |blocks| - 2);
    }

    /** memset(PAYLOAD(b), 0, b->size). */
    method Zero(b: nat, ghost i: nat)
      requires Listed() && i < |blocks| && b == blocks[i].addr
      modifies `mem, `intact
      ensures Listed() && |mem| == |old(mem)| && Keeps(start, old(mem), mem, Live(blocks) - {blocks[i]})
      ensures Bytes(start, mem, blocks[i]) == Zeros(blocks[i].size)
    {
      AddrsAt(blocks, i);
      assert Recorded(hdr, blocks, i);
      Inside(blocks, start, start + |mem|, i);
      var bytes := Zeros(At(b).size);
      StoreBytes(b + HEADER, bytes, i);
      BytesStored(start, old(mem), mem, blocks[i], bytes);
    }

    /** malloc. */
    method Allocate(n: nat) returns (p: nat, ghost nb: Block)
      requires Valid() && start + |mem| + n + 64 < 0x1_0000_0000_0000_0000
      modifies this
      ensures Valid()
      ensures p == 0 <==> Exhausted(old(blocks), n) && !grants(old(requests))
      ensures p == 0 ==> blocks == old(blocks) && mem == old(mem)
      ensures p != 0 ==> Allocated(start, old(mem), old(blocks), mem, blocks, p, n, nb)
      ensures var k, need := FirstFit(old(blocks), AlignUp(Max(n, 1)), 0), AlignUp(Max(n, 1));
              if k < |old(blocks)| then
                p == Payload(old(blocks)[k]) && |mem| == |old(mem)| && blocks == Taken(old(blocks), k, need)
              else p != 0 ==> blocks == old(blocks) + [Block(start + |old(mem)|, need, false)]
                              && |mem| == |old(mem)| + HEADER + need
    {
      var need := AlignUp(Max(n, 1));
      nb := Block(0, 0, false);
      var b, i := FindFit(need);
      AlignUpTwice(Max(n, 1));
      if b != 0 {
        p, nb := TakeFit(b, need, i);
      } else {
        p, nb := Extend(need);
      }
    }

    /** Something fits: take it and zero it. */
    method TakeFit(b: nat, need: nat, ghost i: nat) returns (p: nat, ghost nb: Block)
      requires Valid() && i < |blocks| && b == blocks[i].addr && Fits(blocks[i], need)
      requires need % ALIGN == 0 && need >= MIN_PAYLOAD
      modifies `mem, `hdr, `intact, `heapTail, `blocks
      ensures Valid() && p == b + HEADER && |mem| == |old(mem)| && blocks == Taken(old(blocks), i, need)
      ensures Allocated(start, old(mem), old(blocks), mem, blocks, p, need, nb)
    {
      TakenBlock(blocks, i, need);
      AlignUpTwice(need);
      Take(b, need, i);
      ghost var mem1 := mem;
      Zero(b, i);
      p, nb := b + HEADER, blocks[i];
      KeepsLess(start, mem1, mem, Live(blocks) - {nb}, Live(old(blocks)));
      KeepsTwice(start, old(mem), mem1, mem, Live(old(blocks)));
    }

    /** Nothing fits: extend the arena by one block. */
    method Extend(need: nat) returns (p: nat, ghost nb: Block)
      requires Valid() && need % ALIGN == 0 && need >= MIN_PAYLOAD
      modifies this
      ensures Valid()
      ensures p == 0 <==> !grants(old(requests))
      ensures p == 0 ==> blocks == old(blocks) && mem == old(mem)
      ensures p != 0 ==> Allocated(start, old(mem), old(blocks), mem, blocks, p, need, nb) && nb.size == need
                         && blocks == old(blocks) + [Block(start + |old(mem)|, need, false)]
                         && |mem| == |old(mem)| + HEADER + need
    {
      nb := Block(0, 0, false);
      var base := Grow(need + HEADER);
      if base == 0 {
        return 0, nb;
      }
      BreakAligned(blocks, start, start + |old(mem)|);
      nb := Place(base, need, old(mem));
      p := base + HEADER;
    }

    /** The new block at the old break, zeroed. */
    method Place(base: nat, need: nat, ghost mem0: seq<Byte>) returns (ghost nb: Block)
      requires Tiled(blocks, start, base) && Tracked(hdr, intact, blocks)
               && Shape(hdr, blocks, start, base, heapHead, heapTail) && Coalesced(blocks)
      requires base == start + |mem0| && mem0 <= mem && |mem| == |mem0| + HEADER + need
      requires base > 0 && base % ALIGN == 0 && need % ALIGN == 0 && need >= MIN_PAYLOAD
      modifies `mem, `hdr, `intact, `heapHead, `heapTail, `blocks
      ensures Listed() && Coalesced(blocks) && |mem| == |old(mem)|
      ensures nb == Block(base, need, false) && blocks == old(blocks) + [nb]
      ensures Allocated(start, mem0, old(blocks), mem, blocks, base + HEADER, need, nb)
    {
      nb := Block(base, need, false);
      Append(base, need, mem0);
      ghost var mem1, i := mem, |blocks| - 1;
      Zero(base, i);
      assert BlockOk(blocks[i]);
      AlignUpTwice(need);
      LiveAppend(old(blocks), nb);
      FreshBlock(old(blocks), start, base, nb);
      KeepsLess(start, mem1, mem, Live(blocks) - {nb}, Live(old(blocks)));
      KeepsTwice(start, mem0, mem1, mem, Live(old(blocks)));
    }

    /** free. A null pointer, and any pointer whose header is readable but is not a live block's,
        such as one already freed, is refused without touching the heap. */
    method Free(p: nat)
      requires Valid() && (p == 0 || (p >= HEADER && p - HEADER in intact))
      modifies this
      ensures Valid() && |mem| == |old(mem)| && Keeps(start, old(mem), mem, Live(blocks))
      ensures LiveAt(old(blocks), p) == {} ==> unchanged(this)
      ensures Live(blocks) == Live(old(blocks)) - LiveAt(old(blocks), p)
    {
      if p == 0 {
        return;
      }
      var b := p - HEADER;
      if At(b).magic != MAGIC_ALLOC {
        NotLive(hdr, blocks, p);
        return;
      }
      ghost var i := BlockAt(blocks, b);
      assert Recorded(hdr, blocks, i);
      OnlyLiveAt(blocks, start, start + |mem|, i);
      SidesCoalesced(blocks, i);
      var _ := Release(b, i);
    }

    /** A store by the program into a payload it holds. */
    method Write(p: nat, at: nat, bytes: seq<Byte>, ghost b: Block)
      requires Valid() && b in Live(blocks) && p == Payload(b) && at + |bytes| <= b.size
      modifies this
      ensures Valid() && blocks == old(blocks) && Keeps(start, old(mem), mem, Live(blocks) - {b})
      ensures |Bytes(start, old(mem), b)| == b.size
      ensures Bytes(start, mem, b) == Bytes(start, old(mem), b)[..at] + bytes
              + Bytes(start, old(mem), b)[at + |bytes|..]
    {
      ghost var i := LiveIndex(blocks, start, start + |mem|, b);
      StoreBytes(p + at, bytes, i);
      BytesPatched(start, old(mem), mem, b, at, bytes);
    }

    /** The shrinking half of realloc: the block keeps its place, a tail worth keeping goes back to
        the pool. */
    method Trim(b: nat, keep: nat, ghost i: nat) returns (ghost nb: Block)
      requires Valid() && i < |blocks| && b == blocks[i].addr && !blocks[i].free
      requires keep % ALIGN == 0 && MIN_PAYLOAD <= keep <= blocks[i].size
      modifies `mem, `hdr, `intact, `heapTail, `blocks
      ensures Valid() && |mem| == |old(mem)|
      ensures Resized(start, old(mem), old(blocks), mem, blocks, old(blocks)[i], nb) && nb.addr == b
              && keep <= nb.size <= old(blocks)[i].size && nb.size < keep + HEADER + MIN_PAYLOAD
      ensures blocks == if old(blocks)[i].size >= keep + HEADER + MIN_PAYLOAD
                        then Released(Split(old(blocks), i, keep), i + 1) else old(blocks)
      ensures nb.size <= |Bytes(start, old(mem), old(blocks)[i])|
      ensures Bytes(start, mem, nb) == Bytes(start, old(mem), old(blocks)[i])[..nb.size]
    {
      nb := blocks[i];
      ghost var was := blocks[i];
      AddrsAt(blocks, i);
      assert Recorded(hdr, blocks, i);
      Inside(blocks, start, start + |mem|, i);
      PrefixBytes(start, mem, was, was.size);
      if At(b).size >= keep + HEADER + MIN_PAYLOAD {
        nb := was.(size := keep);
        CutTail(b, keep, i);
      }
    }

    method CutTail(b: nat, keep: nat, ghost i: nat)
      requires Valid() && i < |blocks| && b == blocks[i].addr && !blocks[i].free
      requires keep % ALIGN == 0 && keep >= MIN_PAYLOAD && blocks[i].size >= keep + HEADER + MIN_PAYLOAD
      modifies `mem, `hdr, `intact, `heapTail, `blocks
      ensures Valid() && |mem| == |old(mem)| && blocks == Released(Split(old(blocks), i, keep), i + 1)
      ensures var was := old(blocks)[i];
              && Resized(start, old(mem), old(blocks), mem, blocks, was, was.(size := keep))
              && keep <= |Bytes(start, old(mem), was)|
              && Bytes(start, mem, was.(size := keep)) == Bytes(start, old(mem), was)[..keep]
    {
      ghost var was := blocks[i];
      ghost var nb := was.(size := keep);
      Inside(blocks, start, start + |mem|, i);
      PrefixBytes(start, mem, was, keep);
      SplitSidesCoalesced(blocks, i, keep);
      LiveSplit(blocks, start, start + |mem|, i, keep);
      SplitOff(b, keep, i);
      SplitLiveKept(start, old(mem), mem, old(blocks), i, keep);
      ghost var mem1 := mem;
      var _ := Release(b + HEADER + keep, i + 1);
      assert nb in Live(blocks);
      KeepsLess(start, mem1, mem, Live(blocks), Live(old(blocks)) - {was});
      KeepsTwice(start, old(mem), mem1, mem, Live(old(blocks)) - {was});
    }

    /** realloc. `b` is the live block p belongs to. */
    method Reallocate(p: nat, n: nat, ghost b: Block) returns (q: nat, ghost nb: Block)
      requires Valid() && start + |mem| + n + 64 < 0x1_0000_0000_0000_0000
      requires p != 0 ==> b in Live(blocks) && p == Payload(b)
      modifies this
      ensures Valid()
      ensures p == 0 && q != 0 ==> Allocated(start, old(mem), old(blocks), mem, blocks, q, n, nb)
      ensures p != 0 && n == 0 ==> q == 0 && Live(blocks) == Live(old(blocks)) - {b}
                                   && Keeps(start, old(mem), mem, Live(blocks))
      ensures p != 0 && n > 0 && q != 0 ==>
                && Resized(start, old(mem), old(blocks), mem, blocks, b, nb) && Payload(nb) == q
                && n <= nb.size < AlignUp(n) + HEADER + MIN_PAYLOAD
                && (n <= b.size ==> q == p) && Preserved(start, old(mem), b, mem, nb, n)
      ensures p == 0 || n > 0 ==>
                (q == 0 <==> (p == 0 || n > b.size) && Exhausted(old(blocks), n) && !grants(old(requests)))
      ensures (p == 0 || n > 0) && q == 0 ==> blocks == old(blocks) && mem == old(mem)
    {
      nb := b;
      if p == 0 {
        q, nb := Allocate(n);
        return;
      }
      if n == 0 {
        ghost var i := LiveIndex(blocks, start, start + |mem|, b);
        Free(p);
        return 0, nb;
      }
      q, nb := Resize(p, n, b);
    }

    /** realloc of a live block to a size that is not zero. */
    method Resize(p: nat, n: nat, ghost b: Block) returns (q: nat, ghost nb: Block)
      requires Valid() && start + |mem| + n + 64 < 0x1_0000_0000_0000_0000
      requires b in Live(blocks) && p == Payload(b) && n > 0
      modifies this
      ensures Valid()
      ensures q != 0 ==>
                && Resized(start, old(mem), old(blocks), mem, blocks, b, nb) && Payload(nb) == q
                && n <= nb.size < AlignUp(n) + HEADER + MIN_PAYLOAD
                && (n <= b.size ==> q == p) && Preserved(start, old(mem), b, mem, nb, n)
      ensures q == 0 <==> n > b.size && Exhausted(old(blocks), n) && !grants(old(requests))
      ensures q == 0 ==> blocks == old(blocks) && mem == old(mem)
    {
      ghost var i := LiveIndex(blocks, start, start + |mem|, b);
      assert Recorded(hdr, blocks, i);
      assert BlockOk(blocks[i]);
      var size := At(p - HEADER).size;
      if AlignUp(n) <= size {
        q := p;
        nb := Shrink(p, n, i);
      } else {
        AlignedBelow(size, n);
        q, nb := Move(p, n, size, i);
      }
    }

    /** The half that does not move the block. */
    method Shrink(p: nat, n: nat, ghost i: nat) returns (ghost nb: Block)
      requires Valid() && i < |blocks| && !blocks[i].free && p == Payload(blocks[i])
      requires n > 0 && AlignUp(n) <= blocks[i].size
      modifies `mem, `hdr, `intact, `heapTail, `blocks
      ensures Valid()
      ensures Resized(start, old(mem), old(blocks), mem, blocks, old(blocks)[i], nb) && Payload(nb) == p
              && n <= nb.size < AlignUp(n) + HEADER + MIN_PAYLOAD
              && Preserved(start, old(mem), old(blocks)[i], mem, nb, n)
    {
      ghost var b := blocks[i];
      Inside(blocks, start, start + |mem|, i);
      PrefixBytes(start, mem, b, b.size);
      AlignUpTwice(n);
      nb := Trim(p - HEADER, AlignUp(n), i);
      assert Bytes(start, mem, nb)[..n] == Bytes(start, old(mem), b)[..n];
    }

    /** The growing half: allocate, copy, free. */
    method Move(p: nat, n: nat, size: nat, ghost i: nat) returns (q: nat, ghost nb: Block)
      requires Valid() && start + |mem| + n + 64 < 0x1_0000_0000_0000_0000
      requires i < |blocks| && !blocks[i].free && p == Payload(blocks[i]) && size == blocks[i].size && size < n
      modifies this
      ensures Valid()
      ensures q == 0 <==> Exhausted(old(blocks), n) && !grants(old(requests))
      ensures q == 0 ==> blocks == old(blocks) && mem == old(mem)
      ensures q != 0 ==> Resized(start, old(mem), old(blocks), mem, blocks, old(blocks)[i], nb) && Payload(nb) == q
                         && n <= nb.size < AlignUp(n) + HEADER + MIN_PAYLOAD
                         && Preserved(start, old(mem), old(blocks)[i], mem, nb, n)
    {
      ghost var b := blocks[i];
      Inside(blocks, start, start + |mem|, i);
      PrefixBytes(start, mem, b, size);
      assert b in Live(blocks);
      q, nb := Allocate(n);
      if q != 0 {
        ghost var mem1 := mem;
        CopyAndFree(p, q, size, b, nb);
        KeepsLess(start, old(mem), mem1, Live(old(blocks)), Live(old(blocks)) - {b});
        KeepsTwice(start, old(mem), mem1, mem, Live(old(blocks)) - {b});
      }
    }

    /** memcpy(np, p, old); free(p). */
    method CopyAndFree(p: nat, q: nat, size: nat, ghost b: Block, ghost nb: Block)
      requires Valid() && b in Live(blocks) && nb in Live(blocks) && b != nb
      requires p == Payload(b) && q == Payload(nb) && size == b.size <= nb.size
      modifies this
      ensures Valid() && Live(blocks) == Live(old(blocks)) - {b} && Keeps(start, old(mem), mem, Live(blocks) - {nb})
      ensures |Bytes(start, old(mem), b)| == size && |Bytes(start, mem, nb)| == nb.size
      ensures Bytes(start, mem, nb)[..size] == Bytes(start, old(mem), b)
    {
      ghost var i := LiveIndex(blocks, start, start + |mem|, b);
      Write(q, 0, mem[p - start..p - start + size], nb);
      ghost var mem1 := mem;
      Free(p);
      KeepsLess(start, old(mem), mem1, Live(old(blocks)) - {nb}, Live(blocks) - {nb});
      KeepsLess(start, mem1, mem, Live(blocks), Live(blocks) - {nb});
      KeepsTwice(start, old(mem), mem1, mem, Live(blocks) - {nb});
      assert Bytes(start, mem, nb) == Bytes(start, mem1, nb);
    }
  }

  /** The live block b has become nb, and no other live payload has changed. */
  ghost predicate Resized(lo: nat, mem: seq<Byte>, bs: seq<Block>, mem': seq<Byte>, bs': seq<Block>, b: Block,
                          nb: Block) {
    Live(bs') == Live(bs) - {b} + {nb} && Keeps(lo, mem, mem', Live(bs) - {b})
  }

  /** The first min(old size, new size) bytes are the old ones. */
  ghost predicate Preserved(lo: nat, mem: seq<Byte>, b: Block, mem': seq<Byte>, nb: Block, n: nat) {
    var m := if b.size < n then b.size else n;
    |Bytes(lo, mem, b)| == b.size && |Bytes(lo, mem', nb)| == nb.size >= n
      && Bytes(lo, mem', nb)[..m] == Bytes(lo, mem, b)[..m]
  }

  function Max(a: nat, b: nat): nat {
    if a < b then b else a
  }

  function Zeros(n: nat): (z: seq<Byte>)
    ensures |z| == n
  {
    seq(n, i => 0)
  }

  /** The list after block i is taken for a request: what lies above the request is a free block of its own
      right behind it if that can hold a header and a payload, and stays with the block otherwise. */
  function Taken(bs: seq<Block>, i: nat, need: nat): (r: seq<Block>)
    requires i < |bs| && bs[i].size >= need
  {
    var b := bs[i];
    if b.size - need >= HEADER + MIN_PAYLOAD then
      bs[..i] + [Block(b.addr, need, false), Block(b.addr + HEADER + need, b.size - need - HEADER, true)] + bs[i + 1..]
    else bs[..i] + [Block(b.addr, b.size, false)] + bs[i + 1..]
  }

  lemma TakenIs(bs: seq<Block>, i: nat, need: nat)
    requires i < |bs| && bs[i].size >= need
    ensures bs[i].size >= need + HEADER + MIN_PAYLOAD ==>
              Split(bs, i, need)[i := Split(bs, i, need)[i].(free := false)] == Taken(bs, i, need)
    ensures bs[i].size < need + HEADER + MIN_PAYLOAD ==> bs[i := bs[i].(free := false)] == Taken(bs, i, need)
  {
  }

  lemma TakenBlock(bs: seq<Block>, i: nat, need: nat)
    requires i < |bs| && bs[i].size >= need
    ensures var r := Taken(bs, i, need);
            && i < |r| && r[i].addr == bs[i].addr && !r[i].free && need <= r[i].size < need + HEADER + MIN_PAYLOAD
  {
  }

  lemma AlignedBelow(size: nat, n: nat)
    requires size % ALIGN == 0
    ensures size < AlignUp(n) <==> size < n
  {
  }

  lemma AlignUpTwice(n: nat)
    requires n > 0
    ensures AlignUp(n) >= MIN_PAYLOAD && Max(AlignUp(n), 1) == AlignUp(n) && AlignUp(AlignUp(n)) == AlignUp(n)
    ensures n % ALIGN == 0 ==> AlignUp(n) == n
  {
  }

  /** No free block is large enough for a request. */
  ghost predicate Exhausted(bs: seq<Block>, n: nat) {
    forall k | 0 <= k < |bs| :: !(bs[k].free && bs[k].size >= AlignUp(Max(n, 1)))
  }

  /** One more live block, large enough and no larger than a split leaves it, zeroed, and every other live
      payload untouched. */
  ghost predicate Allocated(lo: nat, mem: seq<Byte>, bs: seq<Block>, mem': seq<Byte>, bs': seq<Block>, p: nat, n: nat,
                            nb: Block) {
    && Payload(nb) == p && BlockOk(nb) && n <= nb.size < AlignUp(Max(n, 1)) + HEADER + MIN_PAYLOAD
    && Live(bs') == Live(bs) + {nb} && nb !in Live(bs)
    && Bytes(lo, mem', nb) == Zeros(nb.size)
    && Keeps(lo, mem, mem', Live(bs))
  }

  lemma KeepsLess(lo: nat, mem: seq<Byte>, mem': seq<Byte>, live: set<Block>, less: set<Block>)
    requires Keeps(lo, mem, mem', live) && less <= live
    ensures Keeps(lo, mem, mem', less)
  {
  }

  lemma {:induction false} BreakAligned(bs: seq<Block>, lo: nat, brk: nat)
    requires Tiled(bs, lo, brk) && AllOk(bs) && lo > 0 && lo % ALIGN == 0
    ensures brk > 0 && brk % ALIGN == 0
  {
    if bs != [] {
      assert BlockOk(bs[|bs| - 1]);
    }
  }

  lemma FreshBlock(bs: seq<Block>, lo: nat, brk: nat, b: Block)
    requires Tiled(bs, lo, brk) && b.addr == brk
    ensures b !in bs
  {
    forall k | 0 <= k < |bs|
      ensures bs[k] != b
    {
      Inside(bs, lo, brk, k);
    }
  }

  lemma NoAddress(bs: seq<Block>, i: nat)
    requires AllOk(bs) && i <= |bs| && AddrAt(bs, i) == 0
    ensures i == |bs|
  {
  }

  lemma OthersLiveKept(lo: nat, mem: seq<Byte>, mem': seq<Byte>, bs: seq<Block>, i: nat)
    requires i < |bs| && forall k {:trigger bs[k]} | 0 <= k < |bs|
             && k != i :: Bytes(lo, mem', bs[k]) == Bytes(lo, mem, bs[k])
    ensures Keeps(lo, mem, mem', Live(bs) - {bs[i]})
  {
    forall b | b in Live(bs) - {bs[i]}
      ensures Bytes(lo, mem', b) == Bytes(lo, mem, b)
    {
      var k :| 0 <= k < |bs| && bs[k] == b;
    }
  }

  /** The headers a merge reads and stores are readable and distinct. */
  lemma MergeReads(hs: Headers, intact: set<nat>, bs: seq<Block>, lo: nat, brk: nat, i: nat)
    requires Tiled(bs, lo, brk) && AllOk(bs) && Linked(hs, bs) && Tracked(hs, intact, bs) && i + 1 < |bs|
    ensures var a, n, next := bs[i].addr, bs[i + 1].addr, AddrAt(bs, i + 2);
            && a in Addrs(bs) && n in Addrs(bs) && a in hs && n in hs && a != n && hs[a].next == n && hs[n].next == next
            && (next != 0 ==> i + 2 < |bs| && next in Addrs(bs) && next in hs && next != n && next != a)
  {
    assert Recorded(hs, bs, i) && Recorded(hs, bs, i + 1);
    AddrsAt(bs, i);
    AddrsAt(bs, i + 1);
    BlocksApart(bs, lo, brk, i, i + 1);
    if i + 2 < |bs| {
      AddrsAt(bs, i + 2);
      BlocksApart(bs, lo, brk, i, i + 2);
      BlocksApart(bs, lo, brk, i + 1, i + 2);
    }
  }

  /** The headers a split reads are readable, and the new one is clear of them all. */
  lemma SplitReads(hs: Headers, intact: set<nat>, bs: seq<Block>, lo: nat, brk: nat, i: nat, keep: nat)
    requires Tiled(bs, lo, brk) && AllOk(bs) && Linked(hs, bs) && Tracked(hs, intact, bs) && i < |bs|
             && keep + HEADER <= bs[i].size
    ensures lo <= bs[i].addr && End(bs[i]) <= brk
    ensures var a, next, s := bs[i].addr, AddrAt(bs, i + 1), Payload(bs[i]) + keep;
            && a in Addrs(bs) && a in hs && hs[a].next == next && hs[a].size == bs[i].size && a != s
            && (next != 0 ==> i + 1 < |bs| && next in Addrs(bs) && next in hs && next != a && next != s)
            && (forall x | x in Addrs(bs) :: Clear(x, HEADER, s, HEADER))
  {
    assert Recorded(hs, bs, i);
    Inside(bs, lo, brk, i);
    AddrsAt(bs, i);
    PayloadClear(bs, lo, brk, i, Payload(bs[i]) + keep, HEADER);
    if i + 1 < |bs| {
      AddrsAt(bs, i + 1);
      BlocksApart(bs, lo, brk, i, i + 1);
    }
  }
}
