/** Cluster chains over an allocation table, and what allocating and linking entries does to them
    (src/fs/fat32/fat32.c). */
module FatChains {
  import opened FatDisk

  /** ch runs from entry to entry of the table and ends at an end mark. */
  ghost predicate Chain(t: Fat, ch: seq<nat>) {
    && ch != []
    && (forall i | 0 <= i < |ch| :: 2 <= ch[i] < |t|)
    && (forall i {:trigger Follows(t, ch, i)} | 0 <= i < |ch| - 1 :: Follows(t, ch, i))
    && t[ch[|ch| - 1]] >= EOC
  }

  ghost predicate Follows(t: Fat, ch: seq<nat>, i: nat)
    requires i < |ch| - 1
  {
    ch[i] < |t| && t[ch[i]] == ch[i + 1]
  }

  ghost predicate Distinct(ch: seq<nat>) {
    forall i, j | 0 <= i < j < |ch| :: ch[i] != ch[j]
  }

  /** A chain that ends cannot come back to a cluster it has passed. */
  lemma {:induction false} ChainsAreAcyclic(t: Fat, ch: seq<nat>)
    requires Chain(t, ch) && |t| < EOC
    ensures Distinct(ch)
  {
    forall i, j | 0 <= i < j < |ch|
      ensures ch[i] != ch[j]
    {
      NoReturn(t, ch, i, j);
    }
  }

  lemma {:induction false} NoReturn(t: Fat, ch: seq<nat>, i: nat, j: nat)
    requires Chain(t, ch) && |t| < EOC && i < j < |ch|
    ensures ch[i] != ch[j]
    decreases |ch| - j
  {
    assert Follows(t, ch, i);
    if j < |ch| - 1 {
      assert Follows(t, ch, j);
      NoReturn(t, ch, i + 1, j + 1);
    }
  }

  /** The table determines the chain: two chains from the same cluster are the same. */
  lemma {:induction false} ChainIsUnique(t: Fat, a: seq<nat>, b: seq<nat>)
    requires Chain(t, a) && Chain(t, b) && a[0] == b[0] && |t| < EOC
    ensures a == b
  {
    if |a| > 1 {
      assert Follows(t, a, 0);
    }
    if |b| > 1 {
      assert Follows(t, b, 0);
    }
    if |a| > 1 && |b| > 1 {
      ChainTail(t, a);
      ChainTail(t, b);
      ChainIsUnique(t, a[1..], b[1..]);
    }
  }

  lemma ChainTail(t: Fat, ch: seq<nat>)
    requires Chain(t, ch) && |ch| > 1
    ensures Chain(t, ch[1..])
  {
    forall i | 0 <= i < |ch[1..]| - 1
      ensures Follows(t, ch[1..], i)
    {
      assert Follows(t, ch, i + 1);
    }
  }

  // ---- all the files of a volume, by first cluster ----

  type Files = map<nat, seq<nat>>

  ghost predicate Apart(a: seq<nat>, b: seq<nat>) {
    forall c | c in a :: c !in b
  }

  /** Every file has a chain of its own. */
  ghost predicate FilesOk(t: Fat, files: Files) {
    && (forall f {:trigger files[f]} | f in files :: Chain(t, files[f]) && files[f][0] == f)
    && (forall f, h {:trigger files[f], files[h]} | f in files && h in files && f != h :: Apart(files[f], files[h]))
  }

  ghost predicate Owned(files: Files, c: nat) {
    exists f :: f in files && c in files[f]
  }

  lemma OwnedIsUsed(t: Fat, files: Files, c: nat)
    requires FilesOk(t, files) && 2 <= c < |t| && t[c] == 0
    ensures !Owned(files, c)
  {
    forall f | f in files
      ensures c !in files[f]
    {
      forall i | 0 <= i < |files[f]|
        ensures files[f][i] != c
      {
        if i < |files[f]| - 1 {
          assert Follows(t, files[f], i);
        }
      }
    }
  }

  /** Writing an entry of no chain of ours leaves the chain alone. */
  lemma ChainElsewhere(t: Fat, ch: seq<nat>, c: nat, v: nat)
    requires Chain(t, ch) && c < |t| && c !in ch
    ensures Chain(t[c := v], ch)
  {
    var t' := t[c := v];
    assert ch[|ch| - 1] in ch;
    forall i | 0 <= i < |ch| - 1
      ensures Follows(t', ch, i)
    {
      assert Follows(t, ch, i) && ch[i] in ch;
    }
  }

  /** A chain grows by one cluster: its old end points at a cluster that ends. */
  lemma ChainGrows(t: Fat, ch: seq<nat>, c: nat)
    requires Chain(t, ch) && 2 <= c < |t| < EOC && c !in ch && t[c] >= EOC
    ensures Chain(t[ch[|ch| - 1] := c], ch + [c])
  {
    var last := ch[|ch| - 1];
    var t' := t[last := c];
    ChainsAreAcyclic(t, ch);
    forall i | 0 <= i < |ch|
      ensures Follows(t', ch + [c], i)
    {
      if i < |ch| - 1 {
        assert Follows(t, ch, i);
      }
    }
  }

  /** Allocating a free cluster and linking it behind a file: that file's chain grows by it, and
      no other chain changes. */
  lemma FileGrows(t: Fat, files: Files, f: nat, c: nat, v: nat)
    requires FilesOk(t, files) && f in files && 2 <= c < |t| < EOC && t[c] == 0 && v >= EOC
    ensures var last := files[f][|files[f]| - 1];
            last < |t| && last != c && FilesOk(t[c := v][last := c], files[f := files[f] + [c]])
  {
    OwnedIsUsed(t, files, c);
    var files', last := files[f := files[f] + [c]], files[f][|files[f]| - 1];
    assert last in files[f];
    forall h {:trigger files'[h]} | h in files'
      ensures Chain(t[c := v][last := c], files'[h]) && files'[h][0] == h
    {
      OneGrows(t, files, f, c, v, h);
    }
    forall h, k {:trigger files'[h], files'[k]} | h in files' && k in files' && h != k
      ensures Apart(files'[h], files'[k])
    {
      assert Apart(files[h], files[k]);
      assert c !in files[h] && c !in files[k];
    }
  }

  lemma OneGrows(t: Fat, files: Files, f: nat, c: nat, v: nat, h: nat)
    requires FilesOk(t, files) && f in files && 2 <= c < |t| < EOC && !Owned(files, c) && v >= EOC && h in files
    ensures var last := files[f][|files[f]| - 1];
            last < |t| && Chain(t[c := v][last := c], files[f := files[f] + [c]][h])
  {
    var last := files[f][|files[f]| - 1];
    assert last in files[f];
    ChainElsewhere(t, files[h], c, v);
    if h == f {
      ChainGrows(t[c := v], files[f], c);
    } else {
      assert Apart(files[f], files[h]);
      ChainElsewhere(t[c := v], files[h], last, c);
    }
  }

  /** Rewriting a chain's end mark. */
  lemma EndMarkRewritten(t: Fat, files: Files, f: nat, v: nat)
    requires FilesOk(t, files) && f in files && |t| < EOC && v >= EOC
    ensures var last := files[f][|files[f]| - 1];
            last < |t| && FilesOk(t[last := v], files)
  {
    var last := files[f][|files[f]| - 1];
    assert last in files[f];
    forall h {:trigger files[h]} | h in files
      ensures Chain(t[last := v], files[h])
    {
      if h == f {
        SameEnd(t, files[f], v);
      } else {
        assert Apart(files[f], files[h]);
        ChainElsewhere(t, files[h], last, v);
      }
    }
  }

  lemma SameEnd(t: Fat, ch: seq<nat>, v: nat)
    requires Chain(t, ch) && |t| < EOC && v >= EOC
    ensures Chain(t[ch[|ch| - 1] := v], ch)
  {
    var t' := t[ch[|ch| - 1] := v];
    ChainsAreAcyclic(t, ch);
    forall i | 0 <= i < |ch| - 1
      ensures Follows(t', ch, i)
    {
      assert Follows(t, ch, i);
    }
  }

  // ---- free clusters ----

  ghost function FreeClusters(t: Fat): set<nat> {
    set c | 2 <= c < |t| && t[c] == 0
  }

  /** Entry d was free and below c. */
  ghost predicate FreeBelow(t: Fat, c: nat, d: nat) {
    2 <= d < c && d < |t| && t[d] == 0
  }

  /** The i-th cluster of ch was free, and every lower free one is in the chain before it. */
  ghost predicate LowestFree(t: Fat, ch: seq<nat>, i: nat)
    requires i < |ch|
  {
    2 <= ch[i] < |t| && t[ch[i]] == 0 && forall d {:trigger FreeBelow(t, ch[i], d)} | FreeBelow(t, ch[i], d) ::
      d in ch[..i]
  }

  /** From (t, files) to (t', files'), only file f grew, by free clusters, the lowest first; every
      entry outside its new chain is as it was. */
  ghost predicate Grown(t: Fat, files: Files, t': Fat, files': Files, f: nat)
    requires f in files && f in files'
  {
    && |t'| == |t|
    && files[f] <= files'[f]
    && files' == files[f := files'[f]]
    && (forall c {:trigger t'[c]} | 0 <= c < |t| && c !in files'[f] :: t'[c] == t[c])
    && (forall i {:trigger LowestFree(t, files'[f], i)} | |files[f]| <= i < |files'[f]| :: LowestFree(t, files'[f], i))
  }

  ghost function Members(s: seq<nat>): set<nat> {
    set c | c in s
  }

  /** Allocation is exact: what was free is still free, or is one of the clusters gained. */
  lemma FreeConserved(t: Fat, files: Files, t': Fat, files': Files, f: nat)
    requires f in files && f in files' && Grown(t, files, t', files', f) && FilesOk(t, files) && FilesOk(t', files')
             && |t| < EOC
    ensures |FreeClusters(t)| == |FreeClusters(t')| + |files'[f]| - |files[f]|
  {
    var gained := files'[f][|files[f]|..];
    assert files'[f] == files[f] + gained;
    ChainsAreAcyclic(t', files'[f]);
    SetOfDistinct(gained);
    forall c
      ensures c in FreeClusters(t) <==> c in FreeClusters(t') || c in gained
      ensures c in gained ==> c !in FreeClusters(t')
    {
      FreeOrGained(t, files, t', files', f, gained, c);
    }
    assert FreeClusters(t) == FreeClusters(t') + Members(gained);
    assert FreeClusters(t') !! Members(gained);
  }

  lemma FreeOrGained(t: Fat, files: Files, t': Fat, files': Files, f: nat, gained: seq<nat>, c: nat)
    requires f in files && f in files' && Grown(t, files, t', files', f) && FilesOk(t, files) && FilesOk(t', files')
    requires files'[f] == files[f] + gained
    ensures c in FreeClusters(t) <==> c in FreeClusters(t') || c in gained
    ensures c in gained ==> c !in FreeClusters(t')
  {
    if c in gained {
      var i :| 0 <= i < |gained| && gained[i] == c;
      assert LowestFree(t, files'[f], |files[f]| + i);
      assert c == files'[f][|files[f]| + i] && c in files'[f];
    }
    if c in FreeClusters(t') {
      OwnedIsUsed(t', files', c);
      assert c !in files'[f];
    }
    if c in FreeClusters(t) {
      OwnedIsUsed(t, files, c);
      assert c !in files[f];
    }
  }

  lemma {:induction false} SetOfDistinct(s: seq<nat>)
    requires Distinct(s)
    ensures |Members(s)| == |s|
  {
    if s != [] {
      SetOfDistinct(s[1..]);
      assert s == [s[0]] + s[1..];
      assert s[0] !in s[1..];
      assert Members(s) == {s[0]} + Members(s[1..]);
    }
  }

  // ---- free clusters that have sectors ----

  /** Entries of the table that are free and whose cluster exists. The others, in the padding behind
      the last cluster or in a further copy of the table, look free to the code as well. */
  ghost function Usable(g: Geometry, sectors: nat, t: Fat): set<nat> {
    set c | c in FreeClusters(t) && Backed(g, sectors, c)
  }

  ghost predicate GainedBacked(g: Geometry, sectors: nat, ch: seq<nat>, from: nat) {
    forall i | from <= i < |ch| :: Backed(g, sectors, ch[i])
  }

  /** Every cluster a file gained exists if and only if there were that many free ones that exist. */
  lemma GainExists(g: Geometry, sectors: nat, t: Fat, files: Files, t': Fat, files': Files, f: nat)
    requires f in files && f in files' && Grown(t, files, t', files', f) && |t| < EOC
    requires FilesOk(t, files) && FilesOk(t', files')
    ensures GainedBacked(g, sectors, files'[f], |files[f]|) <==> |files'[f]| <= |files[f]| + |Usable(g, sectors, t)|
  {
    var n, ch := |files[f]|, files'[f];
    ChainsAreAcyclic(t', ch);
    assert Distinct(ch[n..]);
    SetOfDistinct(ch[n..]);
    if GainedBacked(g, sectors, ch, n) {
      GainUsable(g, sectors, t, files, t', files', f);
      SubsetSize(Members(ch[n..]), Usable(g, sectors, t));
    } else {
      var i :| n <= i < |ch| && !Backed(g, sectors, ch[i]);
      UsableGained(g, sectors, t, files, t', files', f, i);
      assert ch[n..][i - n] == ch[i];
      SubsetSize(Usable(g, sectors, t), Members(ch[n..]) - {ch[i]});
    }
  }

  lemma GainUsable(g: Geometry, sectors: nat, t: Fat, files: Files, t': Fat, files': Files, f: nat)
    requires f in files && f in files' && Grown(t, files, t', files', f)
             && GainedBacked(g, sectors, files'[f], |files[f]|)
    ensures Members(files'[f][|files[f]|..]) <= Usable(g, sectors, t)
  {
    var n, ch := |files[f]|, files'[f];
    forall c | c in Members(ch[n..])
      ensures c in Usable(g, sectors, t)
    {
      var i :| 0 <= i < |ch[n..]| && ch[n..][i] == c;
      assert LowestFree(t, ch, n + i) && ch[n + i] == c;
    }
  }

  lemma SubsetSize(a: set<nat>, b: set<nat>)
    requires a <= b
    ensures |a| <= |b|
  {
    assert b == a + (b - a);
  }

  /** Once a cluster without sectors has been gained, all the usable ones have been. */
  lemma UsableGained(g: Geometry, sectors: nat, t: Fat, files: Files, t': Fat, files': Files, f: nat, i: nat)
    requires f in files && f in files' && Grown(t, files, t', files', f) && FilesOk(t, files)
    requires |files[f]| <= i < |files'[f]| && !Backed(g, sectors, files'[f][i])
    ensures forall c | c in Usable(g, sectors, t) :: c in files'[f][|files[f]|..] && c != files'[f][i]
  {
    var ch := files'[f];
    assert LowestFree(t, ch, i);
    forall c | c in Usable(g, sectors, t)
      ensures c in ch[|files[f]|..] && c != ch[i]
    {
      if ch[i] <= c {
        BackedBelow(g, sectors, ch[i], c);
      }
      assert FreeBelow(t, ch[i], c);
      OwnedIsUsed(t, files, c);
      var k :| 0 <= k < i && ch[k] == c;
      BehindPrefix(files[f], ch, k);
      assert ch[|files[f]|..][k - |files[f]|] == c;
    }
  }

  lemma BehindPrefix(a: seq<nat>, b: seq<nat>, k: nat)
    requires a <= b && k < |b| && b[k] !in a
    ensures k >= |a|
  {
  }

  /** If the last cluster gained exists, so do the ones gained before it. */
  lemma LastExists(g: Geometry, sectors: nat, t: Fat, files: Files, t': Fat, files': Files, f: nat)
    requires f in files && f in files' && Grown(t, files, t', files', f) && FilesOk(t', files') && |t| < EOC
    requires |files'[f]| > |files[f]| ==> Backed(g, sectors, files'[f][|files'[f]| - 1])
    ensures GainedBacked(g, sectors, files'[f], |files[f]|)
  {
    var ch := files'[f];
    var last := |ch| - 1;
    ChainsAreAcyclic(t', ch);
    forall i | |files[f]| <= i < |ch|
      ensures Backed(g, sectors, ch[i])
    {
      assert LowestFree(t, ch, i) && LowestFree(t, ch, last);
      if ch[last] < ch[i] {
        assert FreeBelow(t, ch[i], ch[last]);
      } else {
        BackedBelow(g, sectors, ch[i], ch[last]);
      }
    }
  }
}
