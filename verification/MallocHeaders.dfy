/** Block headers in the arena (user/lib/malloc.c), and what the stores of a merge, a split and an
    append leave in them. */
module MallocHeaders {
  import opened MallocBlocks

  datatype Header = Header(size: nat, next: nat, prev: nat, magic: nat, isFree: bool)

  type Headers = map<nat, Header>

  function Get(hs: Headers, a: nat): Header {
    if a in hs then hs[a] else Header(0, 0, 0, 0, false)
  }

  function AddrAt(bs: seq<Block>, i: int): nat {
    if 0 <= i < |bs| then bs[i].addr else 0
  }

  function HeaderOf(bs: seq<Block>, i: nat): Header
    requires i < |bs|
  {
    Header(bs[i].size, AddrAt(bs, i + 1), AddrAt(bs, i - 1), if bs[i].free then MAGIC_FREE else MAGIC_ALLOC, bs[i].free)
  }

  ghost predicate Recorded(hs: Headers, bs: seq<Block>, i: nat)
    requires i < |bs|
  {
    Get(hs, bs[i].addr) == HeaderOf(bs, i)
  }

  /** next and prev link the blocks in address order, each the inverse of the other. */
  ghost predicate Linked(hs: Headers, bs: seq<Block>) {
    forall i {:trigger Recorded(hs, bs, i)} | 0 <= i < |bs| :: Recorded(hs, bs, i)
  }

  /** Everything the list pointers and headers record. */
  ghost predicate Shape(hs: Headers, bs: seq<Block>, lo: nat, brk: nat, head: nat, tail: nat) {
    && Tiled(bs, lo, brk) && AllOk(bs) && Linked(hs, bs)
    && head == AddrAt(bs, 0) && tail == AddrAt(bs, |bs| - 1)
  }

  // ---- is_free and magic ----

  function Marked(h: Header, free: bool): Header {
    h.(isFree := free, magic := if free then MAGIC_FREE else MAGIC_ALLOC)
  }

  lemma MarkRefines(hs: Headers, bs: seq<Block>, lo: nat, brk: nat, head: nat, tail: nat, i: nat, free: bool)
    requires Shape(hs, bs, lo, brk, head, tail) && i < |bs|
    ensures Shape(hs[bs[i].addr := Marked(Get(hs, bs[i].addr), free)], bs[i := bs[i].(free := free)], lo, brk, head,
            tail)
  {
    assert Recorded(hs, bs, i);
    var hs', bs' := hs[bs[i].addr := Marked(Get(hs, bs[i].addr), free)], bs[i := bs[i].(free := free)];
    forall k | 0 <= k < |bs| - 1
      ensures Adjoin(bs', k)
    {
      assert Adjoin(bs, k);
    }
    forall k | 0 <= k < |bs|
      ensures Recorded(hs', bs', k)
    {
      assert Recorded(hs, bs, k);
      if k != i {
        BlocksApart(bs, lo, brk, i, k);
      }
    }
  }

  // ---- merging ----

  /** next->prev = a, if there is a next. */
  function Back(hs: Headers, next: nat, a: nat): Headers {
    if next != 0 then hs[next := Get(hs, next).(prev := a)] else hs
  }

  /** The stores of a merge: the survivor's size and next, the following block's prev, and the
      poison in the header that disappears. */
  function MergeStores(hs: Headers, a: nat, n: nat): Headers {
    var h, d := Get(hs, a), Get(hs, n);
    Back(hs[a := h.(size := h.size + HEADER + d.size, next := d.next)], d.next, a)[n := d.(magic := 0)]
  }

  lemma MergeStoresAre(hs: Headers, a: nat, n: nat, next: nat)
    requires a in hs && n in hs && a != n && next == hs[n].next && (next != 0 ==> next in hs && next != n && next != a)
    ensures var hs1 := hs[a := hs[a].(size := hs[a].size + HEADER + hs[n].size, next := next)];
            && (next != 0 ==> next in hs1)
            && var hs2 := if next != 0 then hs1[next := hs1[next].(prev := a)] else hs1;
               n in hs2 && hs2[n := hs2[n].(magic := 0)] == MergeStores(hs, a, n)
  {
  }

  lemma MergeRecords(hs: Headers, bs: seq<Block>, lo: nat, brk: nat, i: nat, k: nat)
    requires Tiled(bs, lo, brk) && AllOk(bs) && Linked(hs, bs) && i + 1 < |bs| && k < |bs| - 1
    ensures Recorded(MergeStores(hs, bs[i].addr, bs[i + 1].addr), Merge(bs, i), k)
  {
    var j := if k <= i then k else k + 1;
    assert Recorded(hs, bs, j) && Recorded(hs, bs, i) && Recorded(hs, bs, i + 1);
    BlocksApart(bs, lo, brk, i + 1, j);
    if j != i {
      BlocksApart(bs, lo, brk, i, j);
    }
    if i + 2 < |bs| {
      assert BlockOk(bs[i + 2]);
      if j != i + 2 {
        BlocksApart(bs, lo, brk, i + 2, j);
      }
    }
  }

  lemma MergeRefines(hs: Headers, bs: seq<Block>, lo: nat, brk: nat, head: nat, tail: nat, i: nat)
    requires Shape(hs, bs, lo, brk, head, tail) && i + 1 < |bs|
    ensures Shape(MergeStores(hs, bs[i].addr, bs[i + 1].addr), Merge(bs, i), lo, brk, head,
            if i + 2 < |bs| then tail else bs[i].addr)
  {
    MergeKeepsShape(bs, lo, brk, i);
    var hs' := MergeStores(hs, bs[i].addr, bs[i + 1].addr);
    forall k | 0 <= k < |bs| - 1
      ensures Recorded(hs', Merge(bs, i), k)
    {
      MergeRecords(hs, bs, lo, brk, i, k);
    }
  }

  // ---- splitting ----

  /** The stores of a split: the new block's header, the following block's prev, and the next and
      size of the block that is cut. */
  function SplitStores(hs: Headers, a: nat, keep: nat): Headers
    requires Get(hs, a).size >= keep + HEADER
  {
    var h, s := Get(hs, a), a + HEADER + keep;
    Back(hs[s := Header(h.size - keep - HEADER, h.next, a, MAGIC_FREE, true)], h.next, s)[a :=
      h.(next := s, size := keep)]
  }

  lemma SplitStoresAre(hs: Headers, a: nat, keep: nat)
    requires a in hs && hs[a].size >= keep + HEADER && (hs[a].next != 0 ==> hs[a].next in hs && hs[a].next != a
                                                                            && hs[a].next != a + HEADER + keep)
    ensures var s, next := a + HEADER + keep, hs[a].next;
            var hs1 := hs[s := Header(hs[a].size - keep - HEADER, next, a, MAGIC_FREE, true)];
            && a in hs1 && hs1[a] == hs[a] && (next != 0 ==> next in hs1)
            && var hs2 := if next != 0 then hs1[next := hs1[next].(prev := s)] else hs1;
               a in hs2 && hs2[a := hs2[a].(next := s, size := keep)] == SplitStores(hs, a, keep)
  {
  }

  lemma SplitRecordsNew(hs: Headers, bs: seq<Block>, lo: nat, brk: nat, i: nat, keep: nat)
    requires Tiled(bs, lo, brk) && AllOk(bs) && Linked(hs, bs) && i < |bs| && keep + HEADER <= bs[i].size
    ensures Get(hs, bs[i].addr).size == bs[i].size
    ensures Recorded(SplitStores(hs, bs[i].addr, keep), Split(bs, i, keep), i)
    ensures Recorded(SplitStores(hs, bs[i].addr, keep), Split(bs, i, keep), i + 1)
  {
    assert Recorded(hs, bs, i);
    if i + 1 < |bs| {
      assert BlockOk(bs[i + 1]) && Adjoin(bs, i);
    }
  }

  lemma SplitRecordsOld(hs: Headers, bs: seq<Block>, lo: nat, brk: nat, i: nat, keep: nat, j: nat)
    requires Tiled(bs, lo, brk) && AllOk(bs) && Linked(hs, bs) && i < |bs| && keep + HEADER <= bs[i].size && j < |bs|
             && j != i
    ensures Get(hs, bs[i].addr).size == bs[i].size
    ensures Recorded(SplitStores(hs, bs[i].addr, keep), Split(bs, i, keep), if j < i then j else j + 1)
  {
    assert Recorded(hs, bs, i) && Recorded(hs, bs, j);
    BlocksApart(bs, lo, brk, i, j);
    if i + 1 < |bs| {
      assert BlockOk(bs[i + 1]) && Adjoin(bs, i);
      if j != i + 1 {
        BlocksApart(bs, lo, brk, i + 1, j);
      }
    }
  }

  lemma SplitRefines(hs: Headers, bs: seq<Block>, lo: nat, brk: nat, head: nat, tail: nat, i: nat, keep: nat)
    requires Shape(hs, bs, lo, brk, head, tail) && i < |bs|
    requires keep % ALIGN == 0 && keep >= MIN_PAYLOAD && bs[i].size >= keep + HEADER + MIN_PAYLOAD
    ensures Get(hs, bs[i].addr).size == bs[i].size
    ensures Shape(SplitStores(hs, bs[i].addr, keep), Split(bs, i, keep), lo, brk, head,
            if i + 1 < |bs| then tail else Payload(bs[i]) + keep)
  {
    SplitKeepsShape(bs, lo, brk, i, keep);
    SplitRecordsNew(hs, bs, lo, brk, i, keep);
    var hs' := SplitStores(hs, bs[i].addr, keep);
    forall k | 0 <= k < |bs| + 1
      ensures Recorded(hs', Split(bs, i, keep), k)
    {
      if k < i || k > i + 1 {
        SplitRecordsOld(hs, bs, lo, brk, i, keep, if k < i then k else k - 1);
      }
    }
  }

  // ---- appending ----

  /** heap_append: the new header, then the old tail's next. */
  function AppendStores(hs: Headers, tail: nat, b: Block): Headers {
    var hs1 := hs[b.addr := Header(b.size, 0, tail, MAGIC_ALLOC, false)];
    if tail != 0 then hs1[tail := Get(hs1, tail).(next := b.addr)] else hs1
  }

  lemma AppendRefines(hs: Headers, bs: seq<Block>, lo: nat, brk: nat, head: nat, tail: nat, b: Block)
    requires Shape(hs, bs, lo, brk, head, tail) && BlockOk(b) && b.addr == brk && !b.free
    ensures Shape(AppendStores(hs, tail, b), bs + [b], lo, End(b), if tail != 0 then head else b.addr, b.addr)
  {
    AppendKeepsShape(bs, lo, brk, b);
    var hs', bs' := AppendStores(hs, tail, b), bs + [b];
    forall k | 0 <= k < |bs'|
      ensures Recorded(hs', bs', k)
    {
      if k < |bs| {
        assert Recorded(hs, bs, k);
        Inside(bs, lo, brk, k);
        if k < |bs| - 1 {
          BlocksApart(bs, lo, brk, |bs| - 1, k);
        }
      }
    }
  }
}
