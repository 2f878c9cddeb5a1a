/** The volume root's directory (fat32_dir_iterate, src/fs/fat32/fat32.c). It stores no "." and "..", so
    they are made up under cursors 0 and 1, and the walk over the real slots begins at slot 2. */
module DirRoot {
  import opened Values
  import opened DirSlots

  /** dirent_synth. */
  function Synth(name: ShortName, cluster: nat): Slot {
    Slot(name, 0x10, cluster, 0)
  }

  function Dot(): ShortName {
    seq(11, i => if i == 0 then 46 else 32)
  }

  function DotDot(): ShortName {
    seq(11, i => if i < 2 then 46 else 32)
  }

  lemma SynthNames(cluster: nat)
    ensures UpToNul(Display(Dot())) == [46] && UpToNul(Display(DotDot())) == [46, 46]
    ensures IsDir(Synth(Dot(), cluster)) && IsDir(Synth(DotDot(), cluster))
  {
    assert Dot()[..8][1..][0] == 32 && DotDot()[..8][1..][1..][0] == 32;
    assert UpToSpace(Dot()[..8]) == [46] + UpToSpace(Dot()[..8][1..]) == [46];
    assert UpToSpace(DotDot()[..8][1..]) == [46] + UpToSpace(DotDot()[..8][1..][1..]) == [46];
    assert UpToSpace(DotDot()[..8]) == [46] + UpToSpace(DotDot()[..8][1..]) == [46, 46];
    assert [46, 46][1..] == [46] && [46][1..] == [];
    assert UpToNul([46]) == [46] + UpToNul([]);
    assert UpToNul([46, 46]) == [46] + UpToNul([46]);
  }

  /** What is to come from a cursor on. */
  function RootFrom(slots: seq<Slot>, cluster: nat, i: nat): seq<Rec> {
    if i == 0 then [RecOf(Synth(Dot(), cluster), 0), RecOf(Synth(DotDot(), cluster), 1)] + LiveFrom(slots, 2)
    else if i == 1 then [RecOf(Synth(DotDot(), cluster), 1)] + LiveFrom(slots, 2)
    else LiveFrom(slots, i)
  }

  lemma MadeUp(slots: seq<Slot>, cluster: nat)
    ensures RootFrom(slots, cluster, 0) == [RecOf(Synth(Dot(), cluster), 0)] + RootFrom(slots, cluster, 1)
    ensures RootFrom(slots, cluster, 1) == [RecOf(Synth(DotDot(), cluster), 1)] + RootFrom(slots, cluster, 2)
  {
  }

  /** fat32_dir_iterate at the root: the next entry and the cursor behind it, or that there is none. */
  method RootIterate(dir: seq<seq<Sector>>, cluster: nat, start: nat) returns (r: Step)
    ensures r.Found? ==> start < r.next && RootFrom(Flat(dir), cluster, start) ==
                                           [RecOf(r.slot, r.next - 1)] + RootFrom(Flat(dir), cluster, r.next)
    ensures r.Finished? ==> RootFrom(Flat(dir), cluster, start) == []
  {
    MadeUp(Flat(dir), cluster);
    if start == 0 {
      return Found(Synth(Dot(), cluster), 1);
    }
    if start == 1 {
      return Found(Synth(DotDot(), cluster), 2);
    }
    r := Iterate(dir, start);
  }

  /** A whole listing of the root, one call after the other: the made-up pair, and the live entries from
      slot 2 on, each once. */
  method ListRoot(dir: seq<seq<Sector>>, cluster: nat) returns (recs: seq<Rec>)
    ensures |recs| >= 2 && recs[0].name == [46] && recs[1].name == [46, 46]
    ensures recs[2..] == LiveFrom(Flat(dir), 2)
  {
    recs := [];
    var at, more := 0, true;
    ghost var slots := Flat(dir);
    ghost var all := RootFrom(slots, cluster, 0);
    ghost var rest := all;
    while more
      invariant all == recs + rest && rest == (if more then RootFrom(slots, cluster, at) else [])
      decreases |rest|, more
    {
      var r := RootIterate(dir, cluster, at);
      if r.Found? {
        TakeOne(all, recs, rest, RecOf(r.slot, r.next - 1), RootFrom(slots, cluster, r.next));
        recs := recs + [RecOf(r.slot, r.next - 1)];
        rest := RootFrom(slots, cluster, r.next);
        at := r.next;
      } else {
        more := false;
      }
    }
    WholeList(slots, cluster, recs);
  }

  lemma TakeOne(all: seq<Rec>, recs: seq<Rec>, rest: seq<Rec>, r: Rec, rest': seq<Rec>)
    requires all == recs + rest && rest == [r] + rest'
    ensures all == (recs + [r]) + rest' && |rest'| < |rest|
  {
  }

  lemma WholeList(slots: seq<Slot>, cluster: nat, recs: seq<Rec>)
    requires recs == RootFrom(slots, cluster, 0)
    ensures |recs| >= 2 && recs[0].name == [46] && recs[1].name == [46, 46] && recs[2..] == LiveFrom(slots, 2)
  {
    SynthNames(cluster);
  }

  // ---- which entries a listing of the root leaves out ----

  /** Slot 0 or 1 holds a live entry. */
  predicate LiveBelowTwo(slots: seq<Slot>) {
    (|slots| > 0 && IsLive(slots[0])) || (|slots| > 1 && !IsEnd(slots[0]) && IsLive(slots[1]))
  }

  lemma {:induction false} CookiesFrom(slots: seq<Slot>, i: nat)
    ensures forall r | r in LiveFrom(slots, i) :: r.cookie > i
    decreases |slots| - i
  {
    if i < |slots| {
      CookiesFrom(slots, i + 1);
    }
  }

  /** A listing of the root delivers every live entry if and only if slots 0 and 1 hold none. */
  lemma RootListsAll(slots: seq<Slot>)
    ensures (forall r | r in LiveFrom(slots, 0) :: r in LiveFrom(slots, 2)) <==> !LiveBelowTwo(slots)
  {
    CookiesFrom(slots, 2);
    if |slots| > 0 && IsLive(slots[0]) {
      assert LiveFrom(slots, 0)[0] == RecOf(slots[0], 0);
      assert RecOf(slots[0], 0) in LiveFrom(slots, 0);
    } else if |slots| > 1 && !IsEnd(slots[0]) && IsLive(slots[1]) {
      assert LiveFrom(slots, 0) == LiveFrom(slots, 1);
      assert LiveFrom(slots, 1)[0] == RecOf(slots[1], 1);
      assert RecOf(slots[1], 1) in LiveFrom(slots, 0);
    } else if |slots| > 0 && !IsEnd(slots[0]) {
      assert LiveFrom(slots, 0) == LiveFrom(slots, 1);
    }
  }

  /** A root whose first slot is a file: the file is on the volume and in no listing. */
  lemma FirstFileIsLost()
    ensures var file := Slot(seq(11, i => 65), 0x20, 5, 100);
            var slots := [file];
            LiveFrom(slots, 0) == [RecOf(file, 0)] && LiveFrom(slots, 2) == [] && LiveBelowTwo(slots)
  {
    var file := Slot(seq(11, i => 65), 0x20, 5, 100);
    assert LiveFrom([file], 0) == [RecOf(file, 0)] + LiveFrom([file], 1);
  }
}
