/** The arena of the libc heap (user/lib/malloc.c) as memory: which headers are still readable after
    stores over them, which bytes the payloads hold, and which blocks are live. */
module MallocMemory {
  import opened MallocBlocks
  import opened MallocHeaders
  import opened Values

  predicate Clear(a: nat, n: nat, b: nat, m: nat) {
    a + n <= b || b + m <= a
  }

  // ---- readable headers ----

  ghost function Addrs(bs: seq<Block>): set<nat> {
    set b | b in bs :: b.addr
  }

  /** Headers that survive a store of n bytes at a. */
  ghost function Spared(intact: set<nat>, a: nat, n: nat): set<nat> {
    set x | x in intact && Clear(x, HEADER, a, n)
  }

  /** Every block's header is readable, and a readable header that is not a live block's cannot be
      mistaken for one. */
  ghost predicate Tracked(hs: Headers, intact: set<nat>, bs: seq<Block>) {
    && Addrs(bs) <= intact <= hs.Keys
    && (forall a {:trigger hs[a]} | a in intact && hs[a].magic == MAGIC_ALLOC :: a in Addrs(bs))
  }

  lemma AddrsAt(bs: seq<Block>, i: nat)
    requires i < |bs|
    ensures bs[i].addr in Addrs(bs)
  {
    assert bs[i] in bs;
  }

  /** A header store at a block, or at a place clear of every block's header. */
  lemma StoreTracked(hs: Headers, intact: set<nat>, bs: seq<Block>, a: nat, h: Header)
    requires Tracked(hs, intact, bs) && (h.magic == MAGIC_ALLOC ==> a in Addrs(bs))
    requires forall x | x in Addrs(bs) && x != a :: Clear(x, HEADER, a, HEADER)
    ensures Tracked(hs[a := h], Spared(intact, a, HEADER) + {a}, bs)
  {
  }

  lemma HeadersClear(bs: seq<Block>, lo: nat, brk: nat, i: nat)
    requires Tiled(bs, lo, brk) && i < |bs|
    ensures forall x | x in Addrs(bs) && x != bs[i].addr :: Clear(x, HEADER, bs[i].addr, HEADER)
  {
    forall x | x in Addrs(bs) && x != bs[i].addr
      ensures Clear(x, HEADER, bs[i].addr, HEADER)
    {
      var b :| b in bs && b.addr == x;
      var k :| 0 <= k < |bs| && bs[k] == b;
      BlocksApart(bs, lo, brk, i, k);
    }
  }

  /** Bytes inside one block's payload are clear of every header. */
  lemma PayloadClear(bs: seq<Block>, lo: nat, brk: nat, i: nat, a: nat, n: nat)
    requires Tiled(bs, lo, brk) && i < |bs| && Payload(bs[i]) <= a && a + n <= End(bs[i])
    ensures forall x | x in Addrs(bs) :: Clear(x, HEADER, a, n)
  {
    forall x | x in Addrs(bs)
      ensures Clear(x, HEADER, a, n)
    {
      var b :| b in bs && b.addr == x;
      var k :| 0 <= k < |bs| && bs[k] == b;
      if k != i {
        BlocksApart(bs, lo, brk, i, k);
      }
    }
  }

  // ---- payload bytes ----

  ghost predicate SameOutside(mem: seq<Byte>, mem': seq<Byte>, at: nat, n: nat) {
    |mem'| == |mem| && forall k {:trigger mem'[k]} | 0 <= k < |mem| && !(at <= k < at + n) :: mem'[k] == mem[k]
  }

  ghost predicate InArena(lo: nat, mem: seq<Byte>, b: Block) {
    lo <= b.addr && End(b) <= lo + |mem|
  }

  ghost function Bytes(lo: nat, mem: seq<Byte>, b: Block): seq<Byte> {
    if InArena(lo, mem, b) then mem[Payload(b) - lo..End(b) - lo] else []
  }

  /** A store clear of the payload does not change it. */
  lemma StoreKeeps(lo: nat, mem: seq<Byte>, mem': seq<Byte>, b: Block, a: nat, n: nat)
    requires lo <= a && SameOutside(mem, mem', a - lo, n) && Clear(Payload(b), b.size, a, n)
    ensures Bytes(lo, mem', b) == Bytes(lo, mem, b)
  {
  }

  ghost predicate AllKept(lo: nat, mem: seq<Byte>, mem': seq<Byte>, bs: seq<Block>) {
    forall k {:trigger bs[k]} | 0 <= k < |bs| :: Bytes(lo, mem', bs[k]) == Bytes(lo, mem, bs[k])
  }

  lemma AllKeptTwice(lo: nat, mem: seq<Byte>, mem1: seq<Byte>, mem2: seq<Byte>, bs: seq<Block>)
    requires AllKept(lo, mem, mem1, bs) && AllKept(lo, mem1, mem2, bs)
    ensures AllKept(lo, mem, mem2, bs)
  {
  }

  /** Storing a block's header: the other headers and every payload survive. */
  lemma HeaderStored(hs: Headers, intact: set<nat>, mem: seq<Byte>, mem': seq<Byte>, bs: seq<Block>, lo: nat, brk: nat,
                     i: nat, h: Header)
    requires Tiled(bs, lo, brk) && Tracked(hs, intact, bs) && i < |bs|
    requires lo <= bs[i].addr && SameOutside(mem, mem', bs[i].addr - lo, HEADER)
    ensures Tracked(hs[bs[i].addr := h], Spared(intact, bs[i].addr, HEADER) + {bs[i].addr}, bs)
    ensures AllKept(lo, mem, mem', bs)
  {
    AddrsAt(bs, i);
    HeadersClear(bs, lo, brk, i);
    StoreTracked(hs, intact, bs, bs[i].addr, h);
    forall k {:trigger bs[k]} | 0 <= k < |bs|
      ensures Bytes(lo, mem', bs[k]) == Bytes(lo, mem, bs[k])
    {
      if k != i {
        BlocksApart(bs, lo, brk, i, k);
      }
      StoreKeeps(lo, mem, mem', bs[k], bs[i].addr, HEADER);
    }
  }

  // ---- live blocks ----

  /** From one arena to the next every live block other than x keeps its bytes. */
  ghost predicate Keeps(lo: nat, mem: seq<Byte>, mem': seq<Byte>, live: set<Block>) {
    forall b | b in live :: Bytes(lo, mem', b) == Bytes(lo, mem, b)
  }

  lemma LiveMark(bs: seq<Block>, lo: nat, brk: nat, i: nat)
    requires Tiled(bs, lo, brk) && i < |bs|
    ensures Live(bs[i := bs[i].(free := true)]) == Live(bs) - {bs[i]}
    ensures bs[i].free ==> Live(bs[i := bs[i].(free := false)]) == Live(bs) + {bs[i].(free := false)}
                           && bs[i].(free := false) !in Live(bs)
  {
    forall k | 0 <= k < |bs| && k != i
      ensures bs[k].addr != bs[i].addr
    {
      BlocksApart(bs, lo, brk, i, k);
    }
    MarkMembers(bs, i, bs[i].(free := true));
    MarkMembers(bs, i, bs[i].(free := false));
  }

  lemma MarkMembers(bs: seq<Block>, i: nat, b: Block)
    requires i < |bs| && forall k | 0 <= k < |bs| && k != i :: bs[k].addr != bs[i].addr
    ensures forall x :: x in bs[i := b] <==> x == b || (x in bs && x != bs[i])
  {
    forall x | x in bs && x != bs[i]
      ensures x in bs[i := b]
    {
      var k :| 0 <= k < |bs| && bs[k] == x;
      assert bs[i := b][k] == x;
    }
    assert bs[i := b][i] == b;
  }

  lemma AllLiveKept(lo: nat, mem: seq<Byte>, mem': seq<Byte>, bs: seq<Block>)
    requires AllKept(lo, mem, mem', bs)
    ensures Keeps(lo, mem, mem', Live(bs))
  {
  }

  /** A poisoned header is no longer a block's. */
  lemma MergeTracked(hs: Headers, intact: set<nat>, bs: seq<Block>, i: nat)
    requires Tracked(hs, intact, bs) && i + 1 < |bs| && Get(hs, bs[i + 1].addr).magic == 0
    ensures Tracked(hs, intact, Merge(bs, i))
  {
    var r := Merge(bs, i);
    forall a | a in Addrs(r)
      ensures a in Addrs(bs)
    {
      var b :| b in r && b.addr == a;
      var k :| 0 <= k < |r| && r[k] == b;
      AddrsAt(bs, if k <= i then k else k + 1);
    }
    forall a | a in Addrs(bs) && a != bs[i + 1].addr
      ensures a in Addrs(r)
    {
      var b :| b in bs && b.addr == a;
      var k :| 0 <= k < |bs| && bs[k] == b;
      AddrsAt(r, if k <= i then k else k - 1);
    }
  }

  lemma LiveMerge(bs: seq<Block>, i: nat)
    requires i + 1 < |bs| && bs[i].free && bs[i + 1].free
    ensures Live(Merge(bs, i)) == Live(bs)
  {
    assert bs == bs[..i] + [bs[i], bs[i + 1]] + bs[i + 2..];
  }

  lemma LiveSplit(bs: seq<Block>, lo: nat, brk: nat, i: nat, keep: nat)
    requires Tiled(bs, lo, brk) && i < |bs| && keep + HEADER <= bs[i].size
    ensures bs[i].free ==> Live(Split(bs, i, keep)) == Live(bs)
    ensures !bs[i].free ==> Live(Split(bs, i, keep)) == Live(bs) - {bs[i]} + {bs[i].(size := keep)}
  {
    var a, b := bs[..i], bs[i + 1..];
    assert bs == a + [bs[i]] + b;
    forall k | 0 <= k < |bs| && k != i
      ensures bs[k] != bs[i]
    {
      BlocksApart(bs, lo, brk, i, k);
    }
    assert bs[i] !in a && bs[i] !in b;
  }

  lemma LiveAppend(bs: seq<Block>, b: Block)
    ensures Live(bs + [b]) == if b.free then Live(bs) else Live(bs) + {b}
  {
  }

  lemma MarkTracked(hs: Headers, intact: set<nat>, bs: seq<Block>, i: nat, free: bool)
    requires Tracked(hs, intact, bs) && i < |bs|
    ensures Tracked(hs, intact, bs[i := bs[i].(free := free)])
  {
    SameAddrs(bs, bs[i := bs[i].(free := free)]);
  }

  lemma SameAddrs(bs: seq<Block>, bs': seq<Block>)
    requires |bs'| == |bs| && forall i | 0 <= i < |bs| :: bs'[i].addr == bs[i].addr
    ensures Addrs(bs') == Addrs(bs)
  {
    forall a | a in Addrs(bs)
      ensures a in Addrs(bs')
    {
      var b :| b in bs && b.addr == a;
      var i :| 0 <= i < |bs| && bs[i] == b;
      AddrsAt(bs', i);
    }
    forall a | a in Addrs(bs')
      ensures a in Addrs(bs)
    {
      var b :| b in bs' && b.addr == a;
      var i :| 0 <= i < |bs'| && bs'[i] == b;
      AddrsAt(bs, i);
    }
  }

  lemma SplitTracked(hs: Headers, intact: set<nat>, bs: seq<Block>, i: nat, keep: nat)
    requires Tracked(hs, intact, bs) && i < |bs| && keep + HEADER <= bs[i].size && Payload(bs[i]) + keep in intact
    ensures Tracked(hs, intact, Split(bs, i, keep))
  {
    var r := Split(bs, i, keep);
    forall a | a in Addrs(r)
      ensures a in Addrs(bs) || a == Payload(bs[i]) + keep
    {
      var b :| b in r && b.addr == a;
      var k :| 0 <= k < |r| && r[k] == b;
      if k <= i {
        AddrsAt(bs, k);
      } else if k > i + 1 {
        AddrsAt(bs, k - 1);
      }
    }
    forall a | a in Addrs(bs)
      ensures a in Addrs(r)
    {
      var b :| b in bs && b.addr == a;
      var k :| 0 <= k < |bs| && bs[k] == b;
      AddrsAt(r, if k <= i then k else k + 1);
    }
  }

  /** A store inside the i-th payload: the headers and the other payloads survive. */
  lemma PayloadStored(hs: Headers, intact: set<nat>, mem: seq<Byte>, mem': seq<Byte>, bs: seq<Block>, lo: nat, brk: nat,
                      i: nat, a: nat, n: nat)
    requires Tiled(bs, lo, brk) && Tracked(hs, intact, bs) && i < |bs| && lo <= Payload(bs[i]) <= a
             && a + n <= End(bs[i])
    requires SameOutside(mem, mem', a - lo, n)
    ensures Tracked(hs, Spared(intact, a, n), bs)
    ensures forall k {:trigger bs[k]} | 0 <= k < |bs| && k != i :: Bytes(lo, mem', bs[k]) == Bytes(lo, mem, bs[k])
  {
    PayloadClear(bs, lo, brk, i, a, n);
    forall k {:trigger bs[k]} | 0 <= k < |bs| && k != i
      ensures Bytes(lo, mem', bs[k]) == Bytes(lo, mem, bs[k])
    {
      BlocksApart(bs, lo, brk, i, k);
      StoreKeeps(lo, mem, mem', bs[k], a, n);
    }
  }

  /** What a split keeps: the other payloads, and the part of the cut one that stays. */
  ghost predicate SplitKeeps(lo: nat, mem: seq<Byte>, mem': seq<Byte>, bs: seq<Block>, i: nat, keep: nat)
    requires i < |bs| && keep <= bs[i].size
  {
    && (forall k {:trigger bs[k]} | 0 <= k < |bs| && k != i :: Bytes(lo, mem', bs[k]) == Bytes(lo, mem, bs[k]))
    && Bytes(lo, mem', bs[i].(size := keep)) == Bytes(lo, mem, bs[i].(size := keep))
  }

  lemma SplitKept(lo: nat, mem: seq<Byte>, mem1: seq<Byte>, mem2: seq<Byte>, bs: seq<Block>, brk: nat, i: nat,
                  keep: nat)
    requires Tiled(bs, lo, brk) && i < |bs| && keep + HEADER <= bs[i].size && lo <= bs[i].addr
             && End(bs[i]) <= lo + |mem|
    requires SameOutside(mem, mem1, Payload(bs[i]) + keep - lo, HEADER) && |mem2| == |mem1|
             && AllKept(lo, mem1, mem2, bs)
    ensures SplitKeeps(lo, mem, mem2, bs, i, keep)
  {
    forall k {:trigger bs[k]} | 0 <= k < |bs| && k != i
      ensures Bytes(lo, mem2, bs[k]) == Bytes(lo, mem, bs[k])
    {
      BlocksApart(bs, lo, brk, i, k);
      StoreKeeps(lo, mem, mem1, bs[k], Payload(bs[i]) + keep, HEADER);
    }
    var b := bs[i].(size := keep);
    StoreKeeps(lo, mem, mem1, b, Payload(bs[i]) + keep, HEADER);
    assert Bytes(lo, mem2, b) == Bytes(lo, mem2, bs[i])[..keep];
    assert Bytes(lo, mem1, b) == Bytes(lo, mem1, bs[i])[..keep];
  }

  // ---- composing ----

  lemma KeepsTwice(lo: nat, mem: seq<Byte>, mem1: seq<Byte>, mem2: seq<Byte>, live: set<Block>)
    requires Keeps(lo, mem, mem1, live) && Keeps(lo, mem1, mem2, live)
    ensures Keeps(lo, mem, mem2, live)
  {
  }

  lemma SplitLiveKept(lo: nat, mem: seq<Byte>, mem': seq<Byte>, bs: seq<Block>, i: nat, keep: nat)
    requires i < |bs| && keep <= bs[i].size && SplitKeeps(lo, mem, mem', bs, i, keep)
    ensures Keeps(lo, mem, mem', Live(bs) - {bs[i]})
  {
    forall b | b in Live(bs) - {bs[i]}
      ensures Bytes(lo, mem', b) == Bytes(lo, mem, b)
    {
      var k :| 0 <= k < |bs| && bs[k] == b;
    }
  }

  /** Storing a fresh header behind the last block. */
  lemma AppendStoreTracked(hs: Headers, intact: set<nat>, bs: seq<Block>, lo: nat, brk: nat, b: Block, h: Header)
    requires Tiled(bs, lo, brk) && Tracked(hs, intact, bs) && b.addr == brk
    ensures Tracked(hs[b.addr := h], Spared(intact, b.addr, HEADER) + {b.addr}, bs + [b])
  {
    forall a | a in Addrs(bs)
      ensures Clear(a, HEADER, b.addr, HEADER) && a in Addrs(bs + [b])
    {
      var x :| x in bs && x.addr == a;
      var k :| 0 <= k < |bs| && bs[k] == x;
      Inside(bs, lo, brk, k);
      assert x in bs + [b];
    }
    forall a | a in Addrs(bs + [b])
      ensures a in Addrs(bs) || a == b.addr
    {
      var x :| x in bs + [b] && x.addr == a;
    }
    AddrsAt(bs + [b], |bs|);
  }

  /** Bytes added behind the arena, and a header stored there, change no payload in it. */
  lemma GrownKeeps(lo: nat, mem: seq<Byte>, mem1: seq<Byte>, mem2: seq<Byte>, bs: seq<Block>)
    requires Tiled(bs, lo, lo + |mem|) && mem <= mem1 && |mem1| >= |mem| + HEADER
             && SameOutside(mem1, mem2, |mem|, HEADER)
    ensures AllKept(lo, mem, mem2, bs)
  {
    forall k {:trigger bs[k]} | 0 <= k < |bs|
      ensures Bytes(lo, mem2, bs[k]) == Bytes(lo, mem, bs[k])
    {
      Inside(bs, lo, lo + |mem|, k);
    }
  }

  lemma BytesStored(lo: nat, mem: seq<Byte>, mem': seq<Byte>, b: Block, bytes: seq<Byte>)
    requires InArena(lo, mem, b) && |bytes| <= b.size
    requires mem' == mem[..Payload(b) - lo] + bytes + mem[Payload(b) - lo + |bytes|..]
    ensures Bytes(lo, mem', b) == bytes + Bytes(lo, mem, b)[|bytes|..]
  {
  }

  lemma BytesPatched(lo: nat, mem: seq<Byte>, mem': seq<Byte>, b: Block, at: nat, bytes: seq<Byte>)
    requires InArena(lo, mem, b) && at + |bytes| <= b.size
    requires mem' == mem[..Payload(b) + at - lo] + bytes + mem[Payload(b) + at - lo + |bytes|..]
    ensures Bytes(lo, mem', b) == Bytes(lo, mem, b)[..at] + bytes + Bytes(lo, mem, b)[at + |bytes|..]
  {
  }

  lemma PrefixBytes(lo: nat, mem: seq<Byte>, b: Block, keep: nat)
    requires InArena(lo, mem, b) && keep <= b.size
    ensures Bytes(lo, mem, b.(size := keep)) == Bytes(lo, mem, b)[..keep] && |Bytes(lo, mem, b)| == b.size
  {
  }

  // ---- finding a pointer's block ----

  /** The live block a payload pointer belongs to, if any. */
  ghost function LiveAt(bs: seq<Block>, p: nat): set<Block> {
    set b | b in Live(bs) && Payload(b) == p
  }

  lemma BlockAt(bs: seq<Block>, a: nat) returns (i: nat)
    requires a in Addrs(bs)
    ensures i < |bs| && bs[i].addr == a
  {
    var b :| b in bs && b.addr == a;
    i :| 0 <= i < |bs| && bs[i] == b;
  }

  lemma LiveIndex(bs: seq<Block>, lo: nat, brk: nat, b: Block) returns (i: nat)
    requires b in Live(bs) && Tiled(bs, lo, brk)
    ensures i < |bs| && bs[i] == b && !b.free && lo <= b.addr && End(b) <= brk && b.addr in Addrs(bs)
            && LiveAt(bs, Payload(b)) == {b}
  {
    i :| 0 <= i < |bs| && bs[i] == b;
    Inside(bs, lo, brk, i);
    AddrsAt(bs, i);
    OnlyLiveAt(bs, lo, brk, i);
  }

  lemma OnlyLiveAt(bs: seq<Block>, lo: nat, brk: nat, i: nat)
    requires Tiled(bs, lo, brk) && i < |bs| && !bs[i].free
    ensures LiveAt(bs, Payload(bs[i])) == {bs[i]}
  {
    assert bs[i] in Live(bs);
    forall b | b in LiveAt(bs, Payload(bs[i]))
      ensures b == bs[i]
    {
      var k :| 0 <= k < |bs| && bs[k] == b;
      if k != i {
        BlocksApart(bs, lo, brk, i, k);
      }
    }
  }

  /** A header without the live magic is no live block's. */
  lemma NotLive(hs: Headers, bs: seq<Block>, p: nat)
    requires Linked(hs, bs) && p >= HEADER && Get(hs, p - HEADER).magic != MAGIC_ALLOC
    ensures LiveAt(bs, p) == {}
  {
    forall b | b in Live(bs)
      ensures Payload(b) != p
    {
      var k :| 0 <= k < |bs| && bs[k] == b;
      assert Recorded(hs, bs, k);
    }
  }

  /** Two live payloads never overlap, and every one is 16-aligned and inside the arena. */
  lemma LivePayloadsApart(bs: seq<Block>, lo: nat, brk: nat, b: Block, c: Block)
    requires Tiled(bs, lo, brk) && AllOk(bs) && b in Live(bs) && c in Live(bs)
    ensures Payload(b) % ALIGN == 0 && lo + HEADER <= Payload(b) && End(b) <= brk
    ensures b != c ==> Clear(Payload(b), b.size, Payload(c), c.size)
  {
    var i :| 0 <= i < |bs| && bs[i] == b;
    var j :| 0 <= j < |bs| && bs[j] == c;
    assert BlockOk(bs[i]);
    Inside(bs, lo, brk, i);
    if i != j {
      BlocksApart(bs, lo, brk, i, j);
    }
  }
}
