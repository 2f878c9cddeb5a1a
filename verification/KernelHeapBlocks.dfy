/** The kernel heap's block list over regions that need not be contiguous
    (src/mm/heap/heap.c). */
module KernelHeapBlocks {
  import opened MallocBlocks

  const PAGE_SIZE: nat := 4096
  const MIN_SPLIT: nat := 32

  datatype Region = Region(start: nat, size: nat)

  // ---- blocks and regions cover the same addresses ----

  ghost predicate Within(b: Block, x: nat) {
    b.addr <= x < End(b)
  }

  ghost predicate Covered(bs: seq<Block>, x: nat) {
    exists i :: 0 <= i < |bs| && Within(bs[i], x)
  }

  predicate InRegion(r: Region, x: nat) {
    r.start <= x < r.start + r.size
  }

  ghost predicate InRegions(rs: seq<Region>, x: nat) {
    exists i :: 0 <= i < |rs| && InRegion(rs[i], x)
  }

  ghost predicate Clear(b: Block, c: Block) {
    End(b) <= c.addr || End(c) <= b.addr
  }

  ghost predicate AllClear(bs: seq<Block>) {
    forall i, j {:trigger bs[i], bs[j]} | 0 <= i < |bs| && 0 <= j < |bs| && i != j :: Clear(bs[i], bs[j])
  }

  /** The blocks partition exactly the registered regions. */
  ghost predicate Partition(bs: seq<Block>, rs: seq<Region>) {
    && AllClear(bs)
    && (forall x: nat {:trigger Covered(bs, x)} {:trigger InRegions(rs, x)} :: Covered(bs, x) <==> InRegions(rs, x))
  }

  // ---- the byte counters ----

  function UsedBytes(bs: seq<Block>): nat {
    if bs == [] then 0 else UsedBytes(bs[..|bs| - 1]) + if bs[|bs| - 1].free then 0 else bs[|bs| - 1].size
  }

  function FreeBytes(bs: seq<Block>): nat {
    if bs == [] then 0 else FreeBytes(bs[..|bs| - 1]) + if bs[|bs| - 1].free then bs[|bs| - 1].size else 0
  }

  function TotalBytes(rs: seq<Region>): nat {
    if rs == [] then 0 else TotalBytes(rs[..|rs| - 1]) + rs[|rs| - 1].size
  }

  lemma {:induction false} SumsConcat(a: seq<Block>, b: seq<Block>)
    ensures UsedBytes(a + b) == UsedBytes(a) + UsedBytes(b) && FreeBytes(a + b) == FreeBytes(a) + FreeBytes(b)
  {
    if b == [] {
      assert a + b == a;
    } else {
      SumsConcat(a, b[..|b| - 1]);
      assert (a + b)[..|a + b| - 1] == a + b[..|b| - 1];
    }
  }

  lemma SumsOfTwo(x: Block, y: Block)
    ensures UsedBytes([x]) == (if x.free then 0 else x.size) && FreeBytes([x]) == (if x.free then x.size else 0)
    ensures UsedBytes([x, y]) == UsedBytes([x]) + UsedBytes([y]) && FreeBytes([x, y]) == FreeBytes([x]) + FreeBytes([y])
  {
    assert [x] + [y] == [x, y];
    SumsConcat([x], [y]);
  }

  lemma SumsOfThree(a: seq<Block>, b: seq<Block>, c: seq<Block>)
    ensures UsedBytes(a + b + c) == UsedBytes(a) + UsedBytes(b) + UsedBytes(c)
    ensures FreeBytes(a + b + c) == FreeBytes(a) + FreeBytes(b) + FreeBytes(c)
  {
    SumsConcat(a, b);
    SumsConcat(a + b, c);
  }

  /** Payloads and headers together make up the regions. */
  ghost predicate Balanced(bs: seq<Block>, rs: seq<Region>) {
    UsedBytes(bs) + FreeBytes(bs) + HEADER * |bs| == TotalBytes(rs)
  }

  // ---- changes to the list ----

  lemma MarkSums(bs: seq<Block>, i: nat, free: bool)
    requires i < |bs| && bs[i].free != free
    ensures var r := bs[i := bs[i].(free := free)];
            && UsedBytes(r) == (if free then UsedBytes(bs) - bs[i].size else UsedBytes(bs) + bs[i].size)
            && FreeBytes(r) == (if free then FreeBytes(bs) + bs[i].size else FreeBytes(bs) - bs[i].size)
  {
    var a, c := bs[..i], bs[i + 1..];
    assert bs == a + [bs[i]] + c;
    assert bs[i := bs[i].(free := free)] == a + [bs[i].(free := free)] + c;
    SumsOfThree(a, [bs[i]], c);
    SumsOfThree(a, [bs[i].(free := free)], c);
    SumsOfTwo(bs[i], bs[i].(free := free));
    SumsOfTwo(bs[i].(free := free), bs[i]);
  }

  lemma MarkPartition(bs: seq<Block>, rs: seq<Region>, i: nat, free: bool)
    requires Partition(bs, rs) && i < |bs|
    ensures Partition(bs[i := bs[i].(free := free)], rs)
  {
    var r := bs[i := bs[i].(free := free)];
    forall x: nat {:trigger Covered(r, x)}
      ensures Covered(r, x) <==> Covered(bs, x)
    {
      if k :| 0 <= k < |bs| && Within(bs[k], x) {
        assert Within(r[k], x);
      }
      if k :| 0 <= k < |r| && Within(r[k], x) {
        assert Within(bs[k], x);
      }
    }
  }

  lemma MergeSums(bs: seq<Block>, i: nat)
    requires i + 1 < |bs| && bs[i].free && bs[i + 1].free
    ensures UsedBytes(Merge(bs, i)) == UsedBytes(bs) && FreeBytes(Merge(bs, i)) == FreeBytes(bs) + HEADER
  {
    var z := bs[i].(size := bs[i].size + HEADER + bs[i + 1].size);
    assert bs == bs[..i] + [bs[i], bs[i + 1]] + bs[i + 2..];
    SumsOfThree(bs[..i], [bs[i], bs[i + 1]], bs[i + 2..]);
    SumsOfThree(bs[..i], [z], bs[i + 2..]);
    SumsOfTwo(bs[i], bs[i + 1]);
    SumsOfTwo(bs[i + 1], bs[i]);
    SumsOfTwo(z, z);
  }

  lemma SplitSums(bs: seq<Block>, i: nat, keep: nat)
    requires i < |bs| && bs[i].free && keep + HEADER <= bs[i].size
    ensures UsedBytes(Split(bs, i, keep)) == UsedBytes(bs) && FreeBytes(Split(bs, i, keep)) == FreeBytes(bs) - HEADER
  {
    MergeUndoesSplit(bs, i, keep);
    MergeSums(Split(bs, i, keep), i);
  }

  lemma SplitPartition(bs: seq<Block>, rs: seq<Region>, i: nat, keep: nat)
    requires Partition(bs, rs) && i < |bs| && keep + HEADER <= bs[i].size
    ensures Partition(Split(bs, i, keep), rs)
  {
    var r := Split(bs, i, keep);
    forall j, k {:trigger r[j], r[k]} | 0 <= j < |r| && 0 <= k < |r| && j != k
      ensures Clear(r[j], r[k])
    {
      assert Clear(bs[if j <= i then j else j - 1], bs[if k <= i then k else k - 1]) || (j == i && k == i + 1)
        || (j == i + 1 && k == i);
    }
    forall x: nat {:trigger Covered(r, x)}
      ensures Covered(r, x) <==> Covered(bs, x)
    {
      if k :| 0 <= k < |bs| && Within(bs[k], x) {
        assert Within(r[if k < i then k else if k > i then k + 1 else if x < Payload(bs[i]) + keep then i else i + 1],
          x);
      }
      if k :| 0 <= k < |r| && Within(r[k], x) {
        assert Within(bs[if k <= i then k else k - 1], x);
      }
    }
  }

  /** Two free blocks, one right behind the other in the list and in memory. */
  ghost predicate Mergeable(bs: seq<Block>, i: nat)
    requires i + 1 < |bs|
  {
    bs[i].free && bs[i + 1].free && End(bs[i]) == bs[i + 1].addr
  }

  lemma MergePartition(bs: seq<Block>, rs: seq<Region>, i: nat)
    requires Partition(bs, rs) && i + 1 < |bs| && Mergeable(bs, i)
    ensures Partition(Merge(bs, i), rs)
  {
    var r := Merge(bs, i);
    forall j, k {:trigger r[j], r[k]} | 0 <= j < |r| && 0 <= k < |r| && j != k
      ensures Clear(r[j], r[k])
    {
      var j', k' := if j <= i then j else j + 1, if k <= i then k else k + 1;
      assert Clear(bs[j'], bs[k']);
      assert j == i ==> Clear(bs[i + 1], bs[k']);
      assert k == i ==> Clear(bs[j'], bs[i + 1]);
    }
    forall x: nat {:trigger Covered(r, x)}
      ensures Covered(r, x) <==> Covered(bs, x)
    {
      if k :| 0 <= k < |bs| && Within(bs[k], x) {
        assert Within(r[if k <= i then k else k - 1], x);
      }
      if k :| 0 <= k < |r| && Within(r[k], x) {
        assert Within(bs[if k < i then k else if k > i then k + 1 else if x < End(bs[i]) then i else i + 1], x);
      }
    }
  }

  /** A new region, as one block behind the last. */
  lemma AppendPartition(bs: seq<Block>, rs: seq<Region>, b: Block)
    requires Partition(bs, rs) && forall x: nat | Within(b, x) :: !InRegions(rs, x)
    ensures Partition(bs + [b], rs + [Region(b.addr, b.size + HEADER)])
  {
    var r, rs' := bs + [b], rs + [Region(b.addr, b.size + HEADER)];
    forall k | 0 <= k < |bs|
      ensures Clear(bs[k], b)
    {
      var x := if bs[k].addr <= b.addr then b.addr else bs[k].addr;
      if Within(bs[k], x) && Within(b, x) {
        assert Covered(bs, x);
        assert false;
      }
    }
    forall x: nat {:trigger Covered(r, x)}
      ensures Covered(r, x) <==> InRegions(rs', x)
    {
      assert Covered(bs, x) <==> InRegions(rs, x);
      if k :| 0 <= k < |r| && Within(r[k], x) {
        if k < |bs| {
          assert Within(bs[k], x);
          var q :| 0 <= q < |rs| && InRegion(rs[q], x);
          assert InRegion(rs'[q], x);
        } else {
          assert InRegion(rs'[|rs|], x);
        }
      }
      if q :| 0 <= q < |rs'| && InRegion(rs'[q], x) {
        if q < |rs| {
          assert InRegion(rs[q], x);
          var k :| 0 <= k < |bs| && Within(bs[k], x);
          assert Within(r[k], x);
        } else {
          assert Within(r[|bs|], x);
        }
      }
    }
  }

  lemma AppendSums(bs: seq<Block>, b: Block, rs: seq<Region>)
    requires b.free && Balanced(bs, rs)
    ensures Balanced(bs + [b], rs + [Region(b.addr, b.size + HEADER)])
  {
    var rs' := rs + [Region(b.addr, b.size + HEADER)];
    SumsConcat(bs, [b]);
    SumsOfTwo(b, b);
    assert rs'[..|rs'| - 1] == rs;
  }
}
