/** The kernel heap's headers (src/mm/heap/heap.h), and what its pointer stores do to the list. */
module KernelHeapLinks {
  import opened MallocBlocks
  import opened KernelHeapBlocks

  datatype Header = Header(size: nat, magic: nat, isFree: bool, next: nat)

  type Headers = map<nat, Header>

  function Get(hs: Headers, a: nat): Header {
    if a in hs then hs[a] else Header(0, 0, false, 0)
  }

  function AddrAt(bs: seq<Block>, i: nat): nat {
    if i < |bs| then bs[i].addr else 0
  }

  function HeaderOf(bs: seq<Block>, i: nat): Header
    requires i < |bs|
  {
    Header(bs[i].size, if bs[i].free then MAGIC_FREE else MAGIC_ALLOC, bs[i].free, AddrAt(bs, i + 1))
  }

  ghost predicate Recorded(hs: Headers, bs: seq<Block>, i: nat)
    requires i < |bs|
  {
    bs[i].addr in hs && hs[bs[i].addr] == HeaderOf(bs, i)
  }

  /** The list from heap_head. */
  ghost predicate Linked(hs: Headers, bs: seq<Block>) {
    forall i {:trigger Recorded(hs, bs, i)} | 0 <= i < |bs| :: Recorded(hs, bs, i)
  }

  ghost predicate Aligned(b: Block) {
    b.addr > 0 && b.addr % ALIGN == 0 && b.size % ALIGN == 0 && b.size > 0
  }

  ghost predicate AllAligned(bs: seq<Block>) {
    forall i | 0 <= i < |bs| :: Aligned(bs[i])
  }

  ghost predicate Shape(hs: Headers, bs: seq<Block>, rs: seq<Region>, head: nat) {
    Linked(hs, bs) && Partition(bs, rs) && Balanced(bs, rs) && AllAligned(bs) && bs != [] && head == bs[0].addr
  }

  lemma Apart(bs: seq<Block>, rs: seq<Region>, i: nat, k: nat)
    requires Partition(bs, rs) && i < |bs| && k < |bs| && i != k
    ensures bs[i].addr != bs[k].addr
  {
    assert Clear(bs[i], bs[k]);
  }

  lemma MarkRefines(hs: Headers, bs: seq<Block>, rs: seq<Region>, head: nat, i: nat, free: bool)
    requires Shape(hs, bs, rs, head) && i < |bs| && bs[i].free != free
    ensures bs[i].addr in hs
    ensures Shape(hs[bs[i].addr := hs[bs[i].addr].(isFree := free, magic := if free then MAGIC_FREE else MAGIC_ALLOC)],
                  bs[i := bs[i].(free := free)], rs, head)
  {
    assert Recorded(hs, bs, i);
    var hs' := hs[bs[i].addr := hs[bs[i].addr].(isFree := free, magic := if free then MAGIC_FREE else MAGIC_ALLOC)];
    var bs' := bs[i := bs[i].(free := free)];
    MarkPartition(bs, rs, i, free);
    MarkSums(bs, i, free);
    forall k | 0 <= k < |bs|
      ensures Recorded(hs', bs', k)
    {
      assert Recorded(hs, bs, k);
      if k != i {
        Apart(bs, rs, i, k);
      }
    }
  }

  /** The stores of a split. */
  function SplitStores(hs: Headers, a: nat, keep: nat): Headers
    requires Get(hs, a).size >= keep + HEADER
  {
    var h, s := Get(hs, a), a + HEADER + keep;
    hs[s := Header(h.size - keep - HEADER, MAGIC_FREE, true, h.next)][a := h.(size := keep, next := s)]
  }

  lemma SplitRefines(hs: Headers, bs: seq<Block>, rs: seq<Region>, head: nat, i: nat, keep: nat)
    requires Shape(hs, bs, rs, head) && i < |bs| && bs[i].free && keep % ALIGN == 0 && keep > 0
             && keep + HEADER < bs[i].size
    ensures Get(hs, bs[i].addr) == HeaderOf(bs, i)
    ensures Shape(SplitStores(hs, bs[i].addr, keep), Split(bs, i, keep), rs, head)
  {
    assert Recorded(hs, bs, i);
    SplitPartition(bs, rs, i, keep);
    SplitSums(bs, i, keep);
    var hs', r := SplitStores(hs, bs[i].addr, keep), Split(bs, i, keep);
    forall k | 0 <= k < |r|
      ensures Recorded(hs', r, k) && Aligned(r[k])
    {
      SplitRecords(hs, bs, rs, i, keep, k);
    }
  }

  lemma SplitRecords(hs: Headers, bs: seq<Block>, rs: seq<Region>, i: nat, keep: nat, k: nat)
    requires Linked(hs, bs) && Partition(bs, rs) && AllAligned(bs) && i < |bs| && bs[i].free && keep % ALIGN == 0
             && keep > 0 && keep + HEADER < bs[i].size && k <= |bs|
    ensures Get(hs, bs[i].addr) == HeaderOf(bs, i)
    ensures Recorded(SplitStores(hs, bs[i].addr, keep), Split(bs, i, keep), k) && Aligned(Split(bs, i, keep)[k])
  {
    assert Recorded(hs, bs, i) && Aligned(bs[i]);
    if k < i || k > i + 1 {
      var j := if k < i then k else k - 1;
      assert Recorded(hs, bs, j) && Clear(bs[i], bs[j]);
    }
  }

  /** The stores of a merge: the survivor's size and next. */
  function MergeStores(hs: Headers, a: nat): Headers {
    var h := Get(hs, a);
    var n := Get(hs, h.next);
    hs[a := h.(size := h.size + HEADER + n.size, next := n.next)]
  }

  lemma MergeRefines(hs: Headers, bs: seq<Block>, rs: seq<Region>, head: nat, i: nat)
    requires Shape(hs, bs, rs, head) && i + 1 < |bs| && Mergeable(bs, i)
    ensures Shape(MergeStores(hs, bs[i].addr), Merge(bs, i), rs, head)
  {
    MergePartition(bs, rs, i);
    MergeSums(bs, i);
    var hs', r := MergeStores(hs, bs[i].addr), Merge(bs, i);
    forall k | 0 <= k < |r|
      ensures Recorded(hs', r, k) && Aligned(r[k])
    {
      MergeRecords(hs, bs, rs, i, k);
    }
  }

  lemma MergeRecords(hs: Headers, bs: seq<Block>, rs: seq<Region>, i: nat, k: nat)
    requires Linked(hs, bs) && Partition(bs, rs) && AllAligned(bs) && i + 1 < |bs| && Mergeable(bs, i) && k < |bs| - 1
    ensures Recorded(MergeStores(hs, bs[i].addr), Merge(bs, i), k) && Aligned(Merge(bs, i)[k])
  {
    assert Recorded(hs, bs, i) && Recorded(hs, bs, i + 1);
    var j := if k <= i then k else k + 1;
    assert Recorded(hs, bs, j) && Aligned(bs[j]) && Aligned(bs[i + 1]);
    if j != i {
      Apart(bs, rs, i, j);
    }
  }

  /** A new block behind the tail. */
  lemma AppendRefines(hs: Headers, bs: seq<Block>, rs: seq<Region>, head: nat, b: Block)
    requires Shape(hs, bs, rs, head) && b.free && Aligned(b) && forall x: nat | Within(b, x) :: !InRegions(rs, x)
    ensures bs[|bs| - 1].addr in hs && bs[|bs| - 1].addr != b.addr
    ensures var last := bs[|bs| - 1].addr;
            var hs1 := hs[b.addr := Header(b.size, MAGIC_FREE, true, 0)];
            last in hs1 && Shape(hs1[last := hs1[last].(next := b.addr)], bs + [b],
              rs + [Region(b.addr, b.size + HEADER)], head)
  {
    AppendPartition(bs, rs, b);
    AppendSums(bs, b, rs);
    var last, r, rs' := bs[|bs| - 1].addr, bs + [b], rs + [Region(b.addr, b.size + HEADER)];
    assert Recorded(hs, bs, |bs| - 1);
    Apart(r, rs', |bs| - 1, |bs|);
    var hs1 := hs[b.addr := Header(b.size, MAGIC_FREE, true, 0)];
    var hs2 := hs1[last := hs1[last].(next := b.addr)];
    forall k | 0 <= k < |r|
      ensures Recorded(hs2, r, k)
    {
      if k < |bs| {
        assert Recorded(hs, bs, k);
        Apart(r, rs', k, |bs|);
        if k < |bs| - 1 {
          Apart(r, rs', k, |bs| - 1);
        }
      }
    }
  }
}
