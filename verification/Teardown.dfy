/** mmu_free_user_tables (src/mm/mmu/mmu.c): every table page of a user space goes back to the
    allocator exactly once, and no leaf data page does. */
module Teardown {
  import opened Descriptors
  import opened FramePools
  import opened PageTables

  // ---- the nodes below a node ----

  /** The ancestor of m at a given level (m itself when it is not deeper). */
  function Up(m: Node, level: nat): Node
    decreases m.level
  {
    if m.level <= level then m else Up(m.Parent(), level)
  }

  /** n and every table of the tree below it. */
  ghost function Subtree(tree: Tree, n: Node): set<Node> {
    set m | m in tree && m.level >= n.level && Up(m, n.level) == n
  }

  /** The tables below n reached through its first k entries. */
  ghost function BelowFirst(tree: Tree, n: Node, k: nat): set<Node> {
    set m | m in tree && m.level > n.level && Up(m, n.level) == n && Up(m, n.level + 1).prefix % 512 < k
  }

  lemma {:induction false} UpThenParent(m: Node, level: nat)
    requires m.level > level
    ensures Up(m, level + 1).level == level + 1 && Up(m, level) == Up(m, level + 1).Parent()
    decreases m.level
  {
    if m.level > level + 1 {
      UpThenParent(m.Parent(), level);
    }
  }

  lemma {:induction false} UpStaysInTree(tree: Tree, l0: Frame, m: Node, level: nat)
    requires ParentsPresent(tree, l0) && m in tree
    ensures Up(m, level) in tree
    decreases m.level
  {
    if m.level > level {
      UpStaysInTree(tree, l0, m.Parent(), level);
    }
  }

  lemma AbsentHasNoSubtree(tree: Tree, l0: Frame, n: Node)
    requires ParentsPresent(tree, l0) && n !in tree
    ensures Subtree(tree, n) == {}
  {
    forall m | m in Subtree(tree, n)
      ensures false
    {
      UpStaysInTree(tree, l0, m, n.level);
    }
  }

  lemma BelowNone(tree: Tree, n: Node)
    ensures BelowFirst(tree, n, 0) == {}
  {
  }

  lemma BelowOneMore(tree: Tree, n: Node, k: nat)
    requires k < 512
    ensures BelowFirst(tree, n, k + 1) == BelowFirst(tree, n, k) + Subtree(tree, n.Child(k))
    ensures BelowFirst(tree, n, k) !! Subtree(tree, n.Child(k))
  {
    forall m | m in tree && m.level > n.level
      ensures m in BelowFirst(tree, n, k + 1) <==> m in BelowFirst(tree, n, k) || m in Subtree(tree, n.Child(k))
      ensures !(m in BelowFirst(tree, n, k) && m in Subtree(tree, n.Child(k)))
    {
      UpThenParent(m, n.level);
      var c := Up(m, n.level + 1);
      assert c == n.Child(k) <==> c.Parent() == n && c.prefix % 512 == k;
    }
  }

  lemma BelowAll(tree: Tree, n: Node)
    requires n in tree
    ensures Subtree(tree, n) == BelowFirst(tree, n, 512) + {n}
    ensures n !in BelowFirst(tree, n, 512)
  {
  }

  lemma NothingBelowLeafTables(mem: Memory, tree: Tree, n: Node)
    requires TablesPresent(mem, tree) && n in tree && n.level == 3
    ensures Subtree(tree, n) == {n}
  {
    forall m | m in Subtree(tree, n)
      ensures m == n
    {
      assert tree[m] in mem;
    }
  }

  lemma {:induction false} RootCoversAll(tree: Tree, l0: Frame, m: Node)
    requires ParentsPresent(tree, l0) && m in tree
    ensures m in Subtree(tree, Node(0, 0))
    decreases m.level
  {
    if m.level > 0 {
      RootCoversAll(tree, l0, m.Parent());
    }
  }

  // ---- giving the pages back ----

  ghost function FramesOf(tree: Tree, nodes: set<Node>): set<Frame> {
    set n | n in nodes && n in tree :: tree[n]
  }

  lemma OneMoreFrame(tree: Tree, nodes: set<Node>, n: Node)
    requires NoSharing(tree) && n in tree && n !in nodes
    ensures FramesOf(tree, nodes + {n}) == FramesOf(tree, nodes) + {tree[n]}
    ensures tree[n] !in FramesOf(tree, nodes)
  {
  }

  /** The pool's state before a teardown starts. */
  datatype Before = Before(mem: Memory, free: set<Frame>, returned: multiset<Frame>)

  /** Of the tables of `was`, exactly those of `nodes` are gone, each returned once. */
  ghost predicate Torn(pt: PageTable, was: Before, nodes: set<Node>)
    reads pt, pt.pool
  {
    && pt.mem == was.mem - FramesOf(pt.tree, nodes)
    && pt.pool.free == was.free + FramesOf(pt.tree, nodes)
    && pt.pool.returned == was.returned + multiset(FramesOf(pt.tree, nodes))
  }

  ghost predicate CanTear(pt: PageTable, was: Before)
    reads pt, pt.pool
  {
    && pt.pool.Valid()
    && Shape(was.mem, pt.l0, pt.tree)
    && was.mem.Keys !! was.free && was.mem.Keys <= pt.pool.managed
  }

  lemma TornStep(tree: Tree, was: Before, nodes: set<Node>, n: Node)
    requires NoSharing(tree) && n in tree && n !in nodes
    ensures was.mem - FramesOf(tree, nodes) - {tree[n]} == was.mem - FramesOf(tree, nodes + {n})
    ensures was.free + FramesOf(tree, nodes) + {tree[n]} == was.free + FramesOf(tree, nodes + {n})
    ensures was.returned + multiset(FramesOf(tree, nodes)) + multiset{tree[n]}
         == was.returned + multiset(FramesOf(tree, nodes + {n}))
  {
    OneMoreFrame(tree, nodes, n);
    var fs, f := FramesOf(tree, nodes), tree[n];
    assert multiset(fs + {f}) == multiset(fs) + multiset{f};
    assert was.mem - fs - {f} == was.mem - (fs + {f});
  }

  method FreeTable(pt: PageTable, f: Frame, ghost was: Before, ghost nodes: set<Node>, ghost n: Node)
    requires CanTear(pt, was) && Torn(pt, was, nodes)
    requires n in pt.tree && n !in nodes && pt.tree[n] == f
    modifies pt`mem, pt.pool
    ensures CanTear(pt, was) && Torn(pt, was, nodes + {n})
  {
    OneMoreFrame(pt.tree, nodes, n);
    TornStep(pt.tree, was, nodes, n);
    assert f in was.mem && f !in was.free;
    pt.pool.Release(f);
    pt.mem := pt.mem - {f};
  }

  /** The descriptor at entry i of a table that has not been freed yet, against the tree. */
  lemma EntryOfLiveTable(pt: PageTable, was: Before, nodes: set<Node>, n: Node, i: nat)
    requires CanTear(pt, was) && Torn(pt, was, nodes)
    requires n in pt.tree && n.level < 3 && n !in nodes && i < 512
    ensures pt.tree[n] in pt.mem && |pt.mem[pt.tree[n]]| == 512
    ensures var e := pt.mem[pt.tree[n]][i];
            && (PteValid(e) <==> n.Child(i) in pt.tree)
            && (PteValid(e) ==> IsTable(e) && NextTable(e) == pt.tree[n.Child(i)])
  {
    OneMoreFrame(pt.tree, nodes, n);
    assert EntryMatches(was.mem, pt.tree, n, i);
    if n.Child(i) in pt.tree {
      assert FrameOk(pt.tree[n.Child(i)]);
      TableDescriptorRoundTrip(pt.tree[n.Child(i)]);
    }
  }

  lemma EmptyUnion(s: set<Node>)
    ensures {} + s == s + {} == s
  {
  }

  lemma UnionAssociates(r: set<Node>, s: set<Node>, t: set<Node>)
    ensures r + s + t == r + (s + t)
  {
  }

  lemma SubtreeAvoidsRest(tree: Tree, n: Node, i: nat, done: set<Node>)
    requires n in tree && i < 512 && Subtree(tree, n) !! done
    ensures Subtree(tree, n.Child(i)) !! done + BelowFirst(tree, n, i)
    ensures Subtree(tree, n.Child(i)) <= Subtree(tree, n)
    ensures n !in done + BelowFirst(tree, n, i)
  {
    BelowOneMore(tree, n, i);
    forall m | m in Subtree(tree, n.Child(i))
      ensures m in Subtree(tree, n)
    {
      UpThenParent(m, n.level);
      ChildParent(n, i);
    }
    BelowAll(tree, n);
    assert n in Subtree(tree, n);
  }

  /** The nested loops of mmu_free_user_tables, one level per call: free every table below
      `table`, children before the table that names them. */
  method FreeBelow(pt: PageTable, table: Frame, level: nat, ghost was: Before, ghost done: set<Node>, ghost n: Node)
    requires CanTear(pt, was) && Torn(pt, was, done)
    requires n in pt.tree && n.level == level < 3 && pt.tree[n] == table && Subtree(pt.tree, n) !! done
    modifies pt`mem, pt.pool
    ensures CanTear(pt, was) && Torn(pt, was, done + BelowFirst(pt.tree, n, 512))
    decreases 3 - level
  {
    BelowNone(pt.tree, n);
    EmptyUnion(done);
    for i := 0 to 512
      invariant CanTear(pt, was) && Torn(pt, was, done + BelowFirst(pt.tree, n, i))
    {
      FreeEntry(pt, table, level, i, was, done, n);
    }
  }

  method FreeEntry(pt: PageTable, table: Frame, level: nat, i: nat, ghost was: Before, ghost done: set<Node>,
                   ghost n: Node)
    requires CanTear(pt, was) && Torn(pt, was, done + BelowFirst(pt.tree, n, i))
    requires n in pt.tree && n.level == level < 3 && pt.tree[n] == table && Subtree(pt.tree, n) !! done && i < 512
    modifies pt`mem, pt.pool
    ensures CanTear(pt, was) && Torn(pt, was, done + BelowFirst(pt.tree, n, i + 1))
    decreases 3 - level, 0
  {
    ghost var seen, c := done + BelowFirst(pt.tree, n, i), n.Child(i);
    SubtreeAvoidsRest(pt.tree, n, i, done);
    EntryOfLiveTable(pt, was, seen, n, i);
    BelowOneMore(pt.tree, n, i);
    UnionAssociates(done, BelowFirst(pt.tree, n, i), Subtree(pt.tree, c));
    var e := pt.mem[table][i];
    if PteValid(e) && (level == 0 || IsTable(e)) {
      var child := NextTable(e);
      BelowAll(pt.tree, c);
      if level < 2 {
        FreeBelow(pt, child, level + 1, was, seen, c);
        FreeTable(pt, child, was, seen + BelowFirst(pt.tree, c, 512), c);
        UnionAssociates(seen, BelowFirst(pt.tree, c, 512), {c});
      } else {
        NothingBelowLeafTables(was.mem, pt.tree, c);
        FreeTable(pt, child, was, seen, c);
      }
    } else {
      AbsentHasNoSubtree(pt.tree, pt.l0, c);
      EmptyUnion(seen);
    }
  }

  /** mmu_free_user_tables: the tables, all of them and nothing else, are free again, each given
      back exactly once. */
  method FreeUserTables(pt: PageTable)
    requires pt.Valid()
    modifies pt`mem, pt.pool
    ensures pt.mem == map[]
    ensures pt.pool.free == old(pt.pool.free) + old(pt.mem.Keys)
    ensures pt.pool.returned == old(pt.pool.returned) + multiset(old(pt.mem.Keys))
  {
    ghost var was, root := Before(pt.mem, pt.pool.free, pt.pool.returned), Node(0, 0);
    NothingTorn(pt, was);
    FreeBelow(pt, pt.l0, 0, was, {}, root);
    EmptyUnion(BelowFirst(pt.tree, root, 512));
    FreeRoot(pt, was);
  }

  method FreeRoot(pt: PageTable, ghost was: Before)
    requires CanTear(pt, was) && Torn(pt, was, BelowFirst(pt.tree, Node(0, 0), 512))
    requires was.mem.Keys == pt.tree.Values
    modifies pt`mem, pt.pool
    ensures pt.mem == map[]
    ensures pt.pool.free == was.free + was.mem.Keys
    ensures pt.pool.returned == was.returned + multiset(was.mem.Keys)
  {
    BelowAll(pt.tree, Node(0, 0));
    FreeTable(pt, pt.l0, was, BelowFirst(pt.tree, Node(0, 0), 512), Node(0, 0));
    AllTorn(pt, was);
  }

  lemma NothingTorn(pt: PageTable, was: Before)
    requires pt.Valid() && was == Before(pt.mem, pt.pool.free, pt.pool.returned)
    ensures CanTear(pt, was) && Torn(pt, was, {})
  {
    assert FramesOf(pt.tree, {}) == {};
    assert pt.mem - {} == pt.mem;
  }

  lemma AllTorn(pt: PageTable, was: Before)
    requires Torn(pt, was, BelowFirst(pt.tree, Node(0, 0), 512) + {Node(0, 0)})
    requires ParentsPresent(pt.tree, pt.l0) && was.mem.Keys == pt.tree.Values
    ensures pt.mem == map[]
    ensures pt.pool.free == was.free + was.mem.Keys
    ensures pt.pool.returned == was.returned + multiset(was.mem.Keys)
  {
    AllFrames(pt.tree, pt.l0);
    assert was.mem - was.mem.Keys == map[];
  }

  lemma AllFrames(tree: Tree, l0: Frame)
    requires ParentsPresent(tree, l0)
    ensures FramesOf(tree, BelowFirst(tree, Node(0, 0), 512) + {Node(0, 0)}) == tree.Values
  {
    var all := BelowFirst(tree, Node(0, 0), 512) + {Node(0, 0)};
    BelowAll(tree, Node(0, 0));
    forall n | n in tree
      ensures tree[n] in FramesOf(tree, all)
    {
      RootCoversAll(tree, l0, n);
    }
  }

  // ---- a whole lifetime ----

  datatype Op =
    | Map(vpn: nat, pa: Frame, pages: nat, flags: bv64)
    | Unmap(vpn: nat, pages: nat)
    | Protect(vpn: nat, pages: nat, flags: bv64)

  /** The flat map and the free frames between two operations. */
  datatype Moment = Moment(view: View, free: set<Frame>)

  /** The operation did what it is for to exactly its range; a map may stop early, once no frame is free. */
  ghost predicate Applied(was: Moment, now: Moment, op: Op) {
    match op
    case Map(vpn, pa, pages, flags) => MappedUpTo(was, now, vpn, pa, pages, flags)
    case Unmap(vpn, pages) => RangeUpdated(was.view, now.view, vpn, pages, UnmapRule())
    case Protect(vpn, pages, flags) => RangeUpdated(was.view, now.view, vpn, pages, ProtectRule(flags))
  }

  ghost predicate MappedUpTo(was: Moment, now: Moment, vpn: nat, pa: Frame, pages: nat, flags: bv64) {
    exists done: nat :: done <= pages && (done < pages ==> now.free == {})
                        && RangeUpdated(was.view, now.view, vpn, done, MapRule(vpn, pa, flags))
  }

  method Apply(pt: PageTable, op: Op)
    requires pt.Valid() && op.vpn + op.pages <= VPN_LIMIT
    modifies pt, pt.pool
    ensures pt.Valid() && unchanged(pt.pool`returned)
    ensures pt.pool.free + pt.mem.Keys == old(pt.pool.free + pt.mem.Keys)
    ensures Applied(Moment(old(pt.view), old(pt.pool.free)), Moment(pt.view, pt.pool.free), op)
  {
    match op {
      case Map(vpn, pa, pages, flags) =>
        var _ := pt.MapUserRange(vpn, pa, pages, flags);
      case Unmap(vpn, pages) =>
        pt.UnmapUserRange(vpn, pages);
      case Protect(vpn, pages, flags) =>
        var _ := pt.ProtectUserRange(vpn, pages, flags);
    }
  }

  /** From an empty space, each operation of the script in turn. */
  ghost predicate Lived(ms: seq<Moment>, script: seq<Op>) {
    && |ms| == |script| + 1 && ms[0].view == EmptyView()
    && forall i | 0 <= i < |script| :: Applied(ms[i], ms[i + 1], script[i])
  }

  method RunScript(pt: PageTable, script: seq<Op>) returns (ghost ms: seq<Moment>)
    requires pt.Valid() && pt.view == EmptyView() && forall op <- script :: op.vpn + op.pages <= VPN_LIMIT
    modifies pt, pt.pool
    ensures pt.Valid() && pt.pool.free + pt.mem.Keys == old(pt.pool.free + pt.mem.Keys)
    ensures Lived(ms, script)
  {
    ms := [Moment(pt.view, pt.pool.free)];
    for i := 0 to |script|
      invariant pt.Valid() && pt.pool.free + pt.mem.Keys == old(pt.pool.free + pt.mem.Keys)
      invariant Lived(ms, script[..i]) && ms[i] == Moment(pt.view, pt.pool.free)
    {
      Apply(pt, script[i]);
      ms := ms + [Moment(pt.view, pt.pool.free)];
      LivedOn(ms, script, i);
    }
    assert script[..|script|] == script;
  }

  /** Build a user space, run any script of range operations on it, tear it down: the allocator
      ends with exactly the free frames it started with, even when table pages ran out midway. */
  method UserSpaceLifetime(pool: FramePool, script: seq<Op>) returns (created: bool, ghost ms: seq<Moment>)
    requires pool.Valid() && forall op <- script :: op.vpn + op.pages <= VPN_LIMIT
    modifies pool
    ensures created <==> old(pool.free) != {}
    ensures created ==> Lived(ms, script)
    ensures pool.free == old(pool.free)
  {
    ms := [];
    var root := pool.Allocate();
    created := root != NULL;
    if created {
      var pt := new PageTable(pool, root);
      ms := RunScript(pt, script);
      FreeUserTables(pt);
    }
  }

  lemma LivedOn(ms: seq<Moment>, script: seq<Op>, i: nat)
    requires i < |script| && |ms| == i + 2 && Lived(ms[..i + 1], script[..i]) && Applied(ms[i], ms[i + 1], script[i])
    ensures Lived(ms, script[..i + 1])
  {
    forall k | 0 <= k < i + 1
      ensures Applied(ms[k], ms[k + 1], script[..i + 1][k])
    {
      if k < i {
        assert Applied(ms[..i + 1][k], ms[..i + 1][k + 1], script[..i][k]);
      }
    }
  }
}
