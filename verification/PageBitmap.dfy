/** The physical page allocator (src/mm/pmm/pmm.c): one bit per page in 64-bit words, a scan that
    skips full words, and a scan for contiguous runs. */
module PageBitmap {

  const PAGE_SIZE: nat := 4096

  /** A 64-bit word as its bits: the masks and shifts of the C macros set, clear and test one. */
  type Word = w: seq<bool> | |w| == 64 witness seq(64, i => false)

  const FULL: Word := seq(64, i => true)

  // ---- the allocator's state as one flag a page ----

  function Count(v: seq<bool>): nat {
    if v == [] then 0 else Count(v[..|v| - 1]) + (if v[|v| - 1] then 1 else 0)
  }

  lemma {:induction false} CountSet(v: seq<bool>, p: nat, used: bool)
    requires p < |v| && v[p] != used
    ensures Count(v[p := used]) == if used then Count(v) + 1 else Count(v) - 1
  {
    var last := |v| - 1;
    if p == last {
      assert v[p := used][..last] == v[..last];
    } else {
      assert v[p := used][..last] == v[..last][p := used];
      CountSet(v[..last], p, used);
    }
  }

  /** The lowest free page from p on; |v| if there is none. */
  function LowestFree(v: seq<bool>, p: nat): (r: nat)
    requires p <= |v|
    ensures p <= r <= |v| && (r < |v| ==> !v[r]) && forall k | p <= k < r :: v[k]
    decreases |v| - p
  {
    if p == |v| || !v[p] then p else LowestFree(v, p + 1)
  }

  /** count free pages in a row at s. */
  predicate FreeRun(v: seq<bool>, s: nat, count: nat) {
    s + count <= |v| && forall k | s <= k < s + count :: !v[k]
  }

  function Mark(v: seq<bool>, s: nat, count: nat, used: bool): (r: seq<bool>)
    requires s + count <= |v|
    ensures |r| == |v| && forall k | 0 <= k < |v| :: r[k] == if s <= k < s + count then used else v[k]
  {
    seq(|v|, k requires 0 <= k < |v| => if s <= k < s + count then used else v[k])
  }

  lemma {:induction false} MarkCounts(v: seq<bool>, s: nat, count: nat)
    requires FreeRun(v, s, count)
    ensures Count(Mark(v, s, count, true)) == Count(v) + count
  {
    if count == 0 {
      assert Mark(v, s, 0, true) == v;
    } else {
      MarkCounts(v, s, count - 1);
      MarkOneMore(v, s, count - 1, true);
      CountSet(Mark(v, s, count - 1, true), s + count - 1, true);
    }
  }

  lemma MarkOneMore(v: seq<bool>, s: nat, n: nat, used: bool)
    requires s + n < |v|
    ensures Mark(v, s, n + 1, used) == Mark(v, s, n, used)[s + n := used]
  {
  }

  /** Freeing what was just allocated. */
  lemma MarkUndone(v: seq<bool>, s: nat, count: nat)
    requires FreeRun(v, s, count)
    ensures Mark(Mark(v, s, count, true), s, count, false) == v
  {
  }

  // ---- words ----

  /** Page p's flag in the words of the bitmap. */
  ghost predicate BitAt(words: seq<Word>, p: nat)
    requires p / 64 < |words|
  {
    words[p / 64][p % 64]
  }

  /** The flags of the pages that exist, and set bits for those that do not. */
  ghost predicate Represents(words: seq<Word>, v: seq<bool>) {
    && |words| == (|v| + 63) / 64
    && (forall p {:trigger BitAt(words, p)} | 0 <= p < 64 * |words| :: BitAt(words, p) == (p < |v| ==> v[p]))
  }

  lemma SetRepresents(words: seq<Word>, v: seq<bool>, p: nat, used: bool)
    requires Represents(words, v) && p < |v|
    ensures Represents(words[p / 64 := words[p / 64][p % 64 := used]], v[p := used])
  {
    var words' := words[p / 64 := words[p / 64][p % 64 := used]];
    forall q {:trigger BitAt(words', q)} | 0 <= q < 64 * |words'|
      ensures BitAt(words', q) == (q < |v| ==> v[p := used][q])
    {
      assert BitAt(words, q) == (q < |v| ==> v[q]);
      assert q == p <==> q / 64 == p / 64 && q % 64 == p % 64;
    }
  }

  /** The bitmap is determined by the flags. */
  lemma RepresentsOnce(words: seq<Word>, words': seq<Word>, v: seq<bool>)
    requires Represents(words, v) && Represents(words', v)
    ensures words == words'
  {
    forall i, b | 0 <= i < |words| && 0 <= b < 64
      ensures words[i][b] == words'[i][b]
    {
      assert BitAt(words, 64 * i + b) == BitAt(words', 64 * i + b);
    }
    forall i | 0 <= i < |words|
      ensures words[i] == words'[i]
    {
    }
  }

  /** Every page of a word that is all ones is used or does not exist. */
  lemma FullWord(words: seq<Word>, v: seq<bool>, i: nat)
    requires Represents(words, v) && i < |words| && words[i] == FULL
    ensures forall p | 64 * i <= p < 64 * i + 64 && p < |v| :: v[p]
  {
    forall p | 64 * i <= p < 64 * i + 64 && p < |v|
      ensures v[p]
    {
      assert BitAt(words, p);
    }
  }

  /** A word that is not all ones has a page that exists and is free. */
  lemma NotFull(words: seq<Word>, v: seq<bool>, i: nat) returns (p: nat)
    requires Represents(words, v) && i < |words| && words[i] != FULL
    ensures 64 * i <= p < 64 * i + 64 && p < |v| && !v[p]
  {
    var b :| 0 <= b < 64 && !words[i][b];
    p := 64 * i + b;
    assert !BitAt(words, p);
  }
}
