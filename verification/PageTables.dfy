/** The four-level user page table of src/mm/mmu/mmu.c, proved to be a flat map
    from 36-bit virtual page number to leaf descriptor. */
module PageTables {
  import opened Descriptors
  import opened FramePools

  const VPN_LIMIT: nat := 0x10_0000_0000  // 2^36 pages: a 48-bit address space

  type Memory = map<Frame, seq<Descriptor>>

  function L0Index(vpn: nat): nat { vpn / 0x800_0000 % 512 }
  function L1Index(vpn: nat): nat { vpn / 0x4_0000 % 512 }
  function L2Index(vpn: nat): nat { vpn / 512 % 512 }
  function L3Index(vpn: nat): nat { vpn % 512 }

  function EntryAt(mem: Memory, table: Frame, i: nat): Descriptor {
    if table in mem && i < |mem[table]| then mem[table][i] else INVALID
  }

  /** What the hardware walker finds for a page: its leaf descriptor, or 0 when any level of the
      walk meets an invalid entry. */
  function Lookup(mem: Memory, l0: Frame, vpn: nat): Descriptor {
    var e0 := EntryAt(mem, l0, L0Index(vpn));
    if !PteValid(e0) then INVALID else
    var e1 := EntryAt(mem, NextTable(e0), L1Index(vpn));
    if !PteValid(e1) then INVALID else
    var e2 := EntryAt(mem, NextTable(e1), L2Index(vpn));
    if !PteValid(e2) then INVALID else
    var e3 := EntryAt(mem, NextTable(e2), L3Index(vpn));
    if !PteValid(e3) then INVALID else e3
  }

  /** A table of the tree: its level and the leading part of every page number below it. */
  datatype Node = Node(level: nat, prefix: nat) {
    function Child(i: nat): Node { Node(level + 1, prefix * 512 + i) }
    function Parent(): Node requires level > 0 { Node(level - 1, prefix / 512) }
  }

  type Tree = map<Node, Frame>

  // The table a page's level-3 descriptor lives in, and so on upwards.
  function TableOf(level: nat, vpn: nat): Node
    requires level <= 3
  {
    if level == 0 then Node(0, 0)
    else if level == 1 then Node(1, vpn / 0x800_0000)
    else if level == 2 then Node(2, vpn / 0x4_0000)
    else Node(3, vpn / 512)
  }

  ghost predicate TablesPresent(mem: Memory, tree: Tree) {
    forall n {:trigger tree[n]} | n in tree :: n.level <= 3 && tree[n] in mem && |mem[tree[n]]| == 512
      && FrameOk(tree[n])
  }

  ghost predicate NoSharing(tree: Tree) {
    forall n, m {:trigger tree[n], tree[m]} | n in tree && m in tree && tree[n] == tree[m] :: n == m
  }

  ghost predicate ParentsPresent(tree: Tree, l0: Frame) {
    && Node(0, 0) in tree && tree[Node(0, 0)] == l0
    && (forall n <- tree | n.level == 0 :: n.prefix == 0)
    && (forall n {:trigger n.Parent()} | n in tree && n.level > 0 :: n.Parent() in tree)
  }

  /** Entry i of an upper table is invalid when the tree has no child there, and otherwise is
      exactly the table descriptor of that child. */
  ghost predicate EntryMatches(mem: Memory, tree: Tree, n: Node, i: nat)
    requires n in tree && tree[n] in mem && i < |mem[tree[n]]|
  {
    if n.Child(i) in tree then mem[tree[n]][i] == TableDescriptor(tree[n.Child(i)])
    else !PteValid(mem[tree[n]][i])
  }

  ghost predicate EntriesMatch(mem: Memory, tree: Tree)
    requires TablesPresent(mem, tree)
  {
    forall n, i {:trigger EntryMatches(mem, tree, n, i)} | n in tree && n.level < 3 && 0 <= i < 512 ::
      EntryMatches(mem, tree, n, i)
  }

  /** `tree` lays out the tables reached from l0 in `mem`, no table being reached twice. */
  ghost predicate Shape(mem: Memory, l0: Frame, tree: Tree) {
    && TablesPresent(mem, tree)
    && NoSharing(tree)
    && ParentsPresent(tree, l0)
    && EntriesMatch(mem, tree)
  }

  function Leaf(d: Descriptor): Descriptor {
    if PteValid(d) then d else INVALID
  }

  // ---- the tree determines the walk ----

  lemma WalkStep(mem: Memory, l0: Frame, tree: Tree, n: Node, i: nat)
    requires Shape(mem, l0, tree) && n in tree && n.level < 3 && i < 512
    ensures PteValid(EntryAt(mem, tree[n], i)) <==> n.Child(i) in tree
    ensures n.Child(i) in tree ==> NextTable(EntryAt(mem, tree[n], i)) == tree[n.Child(i)]
  {
    assert EntryMatches(mem, tree, n, i);
    if n.Child(i) in tree {
      TableDescriptorRoundTrip(tree[n.Child(i)]);
    }
  }

  lemma PathToTable(vpn: nat)
    requires vpn < VPN_LIMIT
    ensures TableOf(1, vpn) == TableOf(0, vpn).Child(L0Index(vpn))
    ensures TableOf(2, vpn) == TableOf(1, vpn).Child(L1Index(vpn))
    ensures TableOf(3, vpn) == TableOf(2, vpn).Child(L2Index(vpn))
  {
    ShiftedAgain(vpn);
    NineBits(vpn / 0x4_0000);
    NineBits(vpn / 512);
  }

  lemma ShiftedAgain(x: nat)
    ensures x / 512 / 512 == x / 0x4_0000 && x / 0x4_0000 / 512 == x / 0x800_0000
  {
  }

  lemma NineBits(x: nat)
    ensures x == x / 512 * 512 + x % 512
  {
  }

  lemma ChildParent(n: Node, i: nat)
    requires i < 512
    ensures n.Child(i).Parent() == n
  {
  }

  /** The walk reads the level-3 table the tree names, at the low nine bits of the page number. */
  lemma LookupByTree(mem: Memory, l0: Frame, tree: Tree, vpn: nat)
    requires Shape(mem, l0, tree) && vpn < VPN_LIMIT
    ensures Lookup(mem, l0, vpn)
         == if TableOf(3, vpn) in tree then Leaf(EntryAt(mem, tree[TableOf(3, vpn)], L3Index(vpn))) else INVALID
  {
    var n0, n1, n2, n3 := TableOf(0, vpn), TableOf(1, vpn), TableOf(2, vpn), TableOf(3, vpn);
    PathToTable(vpn);
    WalkStep(mem, l0, tree, n0, L0Index(vpn));
    if n1 in tree {
      WalkStep(mem, l0, tree, n1, L1Index(vpn));
      if n2 in tree {
        WalkStep(mem, l0, tree, n2, L2Index(vpn));
      } else {
        ChildParent(n2, L2Index(vpn));
      }
    } else {
      ChildParent(n1, L1Index(vpn));
      ChildParent(n2, L2Index(vpn));
    }
  }

  // ---- the two ways a tree changes ----

  function ZeroTable(): (t: seq<Descriptor>)
    ensures |t| == 512 && forall i :: 0 <= i < 512 ==> t[i] == INVALID
  {
    seq(512, _ => INVALID)
  }

  /** Hanging a fresh zeroed table `f` below entry i of table n. */
  function GrowMemory(mem: Memory, table: Frame, i: nat, f: Frame): Memory
    requires table in mem && i < |mem[table]|
  {
    // zero the new page, then link it
    mem[f := ZeroTable()][table := mem[table][i := TableDescriptor(f)]]
  }

  ghost predicate CanGrow(mem: Memory, l0: Frame, tree: Tree, n: Node, i: nat, f: Frame) {
    && Shape(mem, l0, tree) && n in tree && n.level < 3 && i < 512 && n.Child(i) !in tree
    && FrameOk(f) && f !in mem
  }

  lemma ChildDeterminesParent(n: Node, i: nat, m: Node, j: nat)
    requires i < 512 && j < 512 && n.Child(i) == m.Child(j)
    ensures n == m && i == j
  {
  }

  lemma GrowKeepsTablesPresent(mem: Memory, l0: Frame, tree: Tree, n: Node, i: nat, f: Frame)
    requires CanGrow(mem, l0, tree, n, i, f)
    ensures TablesPresent(GrowMemory(mem, tree[n], i, f), tree[n.Child(i) := f])
  {
  }

  lemma GrowKeepsNoSharing(mem: Memory, l0: Frame, tree: Tree, n: Node, i: nat, f: Frame)
    requires CanGrow(mem, l0, tree, n, i, f)
    ensures NoSharing(tree[n.Child(i) := f]) && ParentsPresent(tree[n.Child(i) := f], l0)
  {
    ChildParent(n, i);
  }

  lemma GrowKeepsEntry(mem: Memory, l0: Frame, tree: Tree, n: Node, i: nat, f: Frame, m: Node, j: nat)
    requires CanGrow(mem, l0, tree, n, i, f)
    requires m in tree && m.level < 3 && j < 512
    ensures TablesPresent(GrowMemory(mem, tree[n], i, f), tree[n.Child(i) := f])
    ensures EntryMatches(GrowMemory(mem, tree[n], i, f), tree[n.Child(i) := f], m, j)
  {
    GrowKeepsTablesPresent(mem, l0, tree, n, i, f);
    assert EntryMatches(mem, tree, m, j);
    if m.Child(j) == n.Child(i) {
      ChildDeterminesParent(m, j, n, i);
    } else if m == n {
      assert j != i;
    } else {
      assert tree[m] != tree[n];
    }
  }

  lemma NewTableIsEmpty(mem: Memory, l0: Frame, tree: Tree, n: Node, i: nat, f: Frame, j: nat)
    requires CanGrow(mem, l0, tree, n, i, f) && j < 512
    ensures TablesPresent(GrowMemory(mem, tree[n], i, f), tree[n.Child(i) := f])
    ensures EntryMatches(GrowMemory(mem, tree[n], i, f), tree[n.Child(i) := f], n.Child(i), j)
  {
    GrowKeepsTablesPresent(mem, l0, tree, n, i, f);
    ChildParent(n.Child(i), j);
    InvalidIsInvalid();
    assert GrowMemory(mem, tree[n], i, f)[f] == ZeroTable();
  }

  /** Allocating an intermediate table keeps the tree shape ... */
  lemma GrowKeepsShape(mem: Memory, l0: Frame, tree: Tree, n: Node, i: nat, f: Frame)
    requires CanGrow(mem, l0, tree, n, i, f)
    ensures Shape(GrowMemory(mem, tree[n], i, f), l0, tree[n.Child(i) := f])
  {
    var mem', tree' := GrowMemory(mem, tree[n], i, f), tree[n.Child(i) := f];
    GrowKeepsTablesPresent(mem, l0, tree, n, i, f);
    GrowKeepsNoSharing(mem, l0, tree, n, i, f);
    forall m, j | m in tree' && m.level < 3 && 0 <= j < 512
      ensures EntryMatches(mem', tree', m, j)
    {
      if m == n.Child(i) {
        NewTableIsEmpty(mem, l0, tree, n, i, f, j);
      } else {
        GrowKeepsEntry(mem, l0, tree, n, i, f, m, j);
      }
    }
  }

  /** ... and is invisible: every page looks up exactly as before. */
  lemma GrowKeepsLookup(mem: Memory, l0: Frame, tree: Tree, n: Node, i: nat, f: Frame, vpn: nat)
    requires CanGrow(mem, l0, tree, n, i, f) && vpn < VPN_LIMIT
    ensures Lookup(GrowMemory(mem, tree[n], i, f), l0, vpn) == Lookup(mem, l0, vpn)
  {
    var mem', tree' := GrowMemory(mem, tree[n], i, f), tree[n.Child(i) := f];
    GrowKeepsShape(mem, l0, tree, n, i, f);
    LookupByTree(mem, l0, tree, vpn);
    LookupByTree(mem', l0, tree', vpn);
    var t := TableOf(3, vpn);
    if t in tree {
      assert tree'[t] == tree[t] && tree[t] != tree[n];
    }
  }

  function WriteEntry(mem: Memory, table: Frame, i: nat, d: Descriptor): Memory
    requires table in mem && i < |mem[table]|
  {
    mem[table := mem[table][i := d]]
  }

  lemma WriteLeafKeepsShape(mem: Memory, l0: Frame, tree: Tree, t: Node, i: nat, d: Descriptor)
    requires Shape(mem, l0, tree) && t in tree && t.level == 3 && i < 512
    ensures Shape(WriteEntry(mem, tree[t], i, d), l0, tree)
  {
    var mem' := WriteEntry(mem, tree[t], i, d);
    forall m, j | m in tree && m.level < 3 && 0 <= j < 512
      ensures EntryMatches(mem', tree, m, j)
    {
      assert EntryMatches(mem, tree, m, j);
      assert tree[m] != tree[t];
    }
  }

  /** Writing one L3 entry changes the lookup of one page and of no other 48-bit page. */
  lemma WriteLeafChangesOnePage(mem: Memory, l0: Frame, tree: Tree, vpn: nat, d: Descriptor, other: nat)
    requires Shape(mem, l0, tree) && vpn < VPN_LIMIT && other < VPN_LIMIT && TableOf(3, vpn) in tree
    ensures Lookup(WriteEntry(mem, tree[TableOf(3, vpn)], L3Index(vpn), d), l0, other)
         == if other == vpn then Leaf(d) else Lookup(mem, l0, other)
  {
    var t := TableOf(3, vpn);
    var mem' := WriteEntry(mem, tree[t], L3Index(vpn), d);
    WriteLeafKeepsShape(mem, l0, tree, t, L3Index(vpn), d);
    LookupByTree(mem, l0, tree, other);
    LookupByTree(mem', l0, tree, other);
    var o := TableOf(3, other);
    if o in tree && o != t {
      assert tree[o] != tree[t];
    }
    assert o == t && L3Index(other) == L3Index(vpn) ==> other == vpn;
  }

  // ---- the mutable page table ----

  ghost predicate TreeGrew(tree: Tree, tree': Tree) {
    forall n {:trigger tree'[n]} {:trigger n in tree'} | n in tree :: n in tree' && tree'[n] == tree[n]
  }

  lemma OneMoreTable(tree: Tree, n: Node, f: Frame)
    requires n !in tree
    ensures TreeGrew(tree, tree[n := f])
  {
  }

  lemma FrameMoves(free: set<Frame>, tables: set<Frame>, f: Frame)
    requires f in free
    ensures (free - {f}) + (tables + {f}) == free + tables
  {
  }

  /** The whole table as the flat map it stands for: every 48-bit page to its leaf descriptor. */
  type View = imap<nat, Descriptor>

  ghost predicate Total(view: View) {
    forall p: nat :: p in view <==> p < VPN_LIMIT
  }

  ghost function EmptyView(): (v: View)
    ensures Total(v) && forall p: nat {:trigger v[p]} | p < VPN_LIMIT :: v[p] == INVALID
  {
    imap p: nat {:trigger NoPage(p)} | p < VPN_LIMIT :: NoPage(p)
  }

  function NoPage(p: nat): Descriptor { INVALID }

  /** The radix tree at l0 stands for the flat map `view`. */
  ghost predicate Represents(mem: Memory, l0: Frame, view: View) {
    && Total(view)
    && forall p: nat {:trigger Lookup(mem, l0, p)} | p < VPN_LIMIT :: view[p] == Lookup(mem, l0, p)
  }

  /** The flat map a table stands for is unique. */
  lemma RepresentsOne(mem: Memory, l0: Frame, v: View, w: View)
    requires Represents(mem, l0, v) && Represents(mem, l0, w)
    ensures v == w
  {
    forall p: nat | p < VPN_LIMIT
      ensures v[p] == w[p]
    {
      assert Lookup(mem, l0, p) == v[p];
    }
  }

  lemma WriteLeafUpdatesView(mem: Memory, l0: Frame, tree: Tree, vpn: nat, d: Descriptor, view: View)
    requires Shape(mem, l0, tree) && vpn < VPN_LIMIT && TableOf(3, vpn) in tree && Represents(mem, l0, view)
    ensures var mem' := WriteEntry(mem, tree[TableOf(3, vpn)], L3Index(vpn), d);
            && Shape(mem', l0, tree) && mem'.Keys == mem.Keys
            && Represents(mem', l0, view[vpn := Leaf(d)])
  {
    WriteLeafKeepsShape(mem, l0, tree, TableOf(3, vpn), L3Index(vpn), d);
    var mem' := WriteEntry(mem, tree[TableOf(3, vpn)], L3Index(vpn), d);
    forall p: nat | p < VPN_LIMIT
      ensures view[vpn := Leaf(d)][p] == Lookup(mem', l0, p)
    {
      WriteLeafChangesOnePage(mem, l0, tree, vpn, d, p);
    }
  }

  lemma GrowKeepsView(mem: Memory, l0: Frame, tree: Tree, n: Node, i: nat, f: Frame, view: View)
    requires CanGrow(mem, l0, tree, n, i, f) && Represents(mem, l0, view)
    ensures Represents(GrowMemory(mem, tree[n], i, f), l0, view)
  {
    var mem' := GrowMemory(mem, tree[n], i, f);
    forall p: nat | p < VPN_LIMIT
      ensures view[p] == Lookup(mem', l0, p)
    {
      GrowKeepsLookup(mem, l0, tree, n, i, f, p);
    }
  }

  lemma GrowAddsOneTable(mem: Memory, l0: Frame, tree: Tree, n: Node, i: nat, f: Frame)
    requires CanGrow(mem, l0, tree, n, i, f) && mem.Keys == tree.Values
    ensures GrowMemory(mem, tree[n], i, f).Keys == mem.Keys + {f} == tree[n.Child(i) := f].Values
  {
    var tree' := tree[n.Child(i) := f];
    assert tree'[n.Child(i)] == f;
    forall v | v in tree.Values
      ensures v in tree'.Values
    {
      var m :| m in tree && tree[m] == v;
      assert tree'[m] == v;
    }
  }

  /** The i-th page of a contiguous physical run starting at pa (64-bit address arithmetic). */
  function PageAfter(pa: Frame, i: nat): Frame {
    if i == 0 then pa else Frame(PageAfter(pa, i - 1).addr + 4096)
  }

  /** `now` is `view` with the pages of a range, and no other page, rewritten by a rule on
      (page, old descriptor). */
  ghost predicate RangeUpdated(view: View, now: View, vpn: nat, pages: nat, rule: (nat, Descriptor) -> Descriptor) {
    && Total(view) && Total(now)
    && forall p: nat {:trigger now[p]} | p < VPN_LIMIT ::
         now[p] == if vpn <= p < vpn + pages then rule(p, view[p]) else view[p]
  }

  lemma UpdateNothing(view: View, vpn: nat, rule: (nat, Descriptor) -> Descriptor)
    requires Total(view)
    ensures RangeUpdated(view, view, vpn, 0, rule)
  {
  }

  lemma UpdateOneMore(view: View, before: View, now: View, vpn: nat, i: nat, p: nat,
                      rule: (nat, Descriptor) -> Descriptor, d: Descriptor)
    requires p == vpn + i < VPN_LIMIT
    requires RangeUpdated(view, before, vpn, i, rule) && d == rule(p, before[p]) && now == before[p := d]
    ensures RangeUpdated(view, now, vpn, i + 1, rule)
    ensures before[p] == view[p]
  {
    assert before[p] == view[p];
    forall q: nat | q < VPN_LIMIT
      ensures now[q] == if vpn <= q < vpn + (i + 1) then rule(q, view[q]) else view[q]
    {
      assert q != p ==> now[q] == before[q];
    }
  }

  // What mapping, unmapping and re-protecting do to each page of their range.
  function MapRule(vpn: nat, pa: Frame, flags: bv64): (nat, Descriptor) -> Descriptor {
    (p, d) => LeafDescriptor(PageAfter(pa, if vpn <= p then p - vpn else 0), flags)
  }

  lemma MapOneMore(view: View, before: View, now: View, vpn: nat, pa: Frame, i: nat, flags: bv64, p: nat)
    requires p == vpn + i < VPN_LIMIT && RangeUpdated(view, before, vpn, i, MapRule(vpn, pa, flags))
    requires now == before[p := LeafDescriptor(PageAfter(pa, i), flags)]
    ensures RangeUpdated(view, now, vpn, i + 1, MapRule(vpn, pa, flags))
  {
    UpdateOneMore(view, before, now, vpn, i, p, MapRule(vpn, pa, flags), LeafDescriptor(PageAfter(pa, i), flags));
  }

  lemma {:induction false} RunRest(pa: Frame, n: nat, k: nat)
    requires FrameRun(pa, n) && k <= n
    ensures FrameRun(PageAfter(pa, k), n - k)
  {
    if k > 0 {
      RunRest(pa, n, k - 1);
      RunTail(PageAfter(pa, k - 1), n - (k - 1));
    }
  }

  lemma RunFrame(pa: Frame, n: nat, k: nat)
    requires FrameRun(pa, n) && k < n
    ensures FrameOk(PageAfter(pa, k))
  {
    RunRest(pa, n, k);
    RunHead(PageAfter(pa, k), n - k);
  }

  lemma OneFurther(pa: Frame, k: nat)
    requires k > 0 && FrameOk(PageAfter(pa, k - 1))
    ensures Pfn(PageAfter(pa, k)) == Pfn(PageAfter(pa, k - 1)) + 1
  {
    NextPfn(PageAfter(pa, k - 1));
  }

  /** Page k of a run of frames has the run's number plus k. */
  lemma {:induction false} RunNumber(pa: Frame, n: nat, k: nat)
    requires FrameRun(pa, n) && k < n
    ensures Pfn(PageAfter(pa, k)) == Pfn(pa) + k
  {
    if k > 0 {
      RunNumber(pa, n, k - 1);
      RunFrame(pa, n, k - 1);
      OneFurther(pa, k);
    }
  }

  /** The pages of the range reach consecutive frames, from the given one on, with the given flags. */
  ghost predicate Reaches(view: View, vpn: nat, pages: nat, pa: Frame, flags: bv64)
    requires Total(view) && vpn + pages <= VPN_LIMIT
  {
    forall p: nat {:trigger view[p]} | vpn <= p < vpn + pages ::
      PteValid(view[p]) && Pfn(NextTable(view[p])) == Pfn(pa) + (p - vpn) && view[p].bits & PERM_MASK == flags
  }

  lemma MappedReaches(view: View, now: View, vpn: nat, pages: nat, pa: Frame, flags: bv64)
    requires RangeUpdated(view, now, vpn, pages, MapRule(vpn, pa, flags)) && vpn + pages <= VPN_LIMIT
    requires FrameRun(pa, pages) && flags & PERM_MASK == flags
    ensures Reaches(now, vpn, pages, pa, flags)
  {
    forall p: nat {:trigger now[p]} | vpn <= p < vpn + pages
      ensures PteValid(now[p]) && Pfn(NextTable(now[p])) == Pfn(pa) + (p - vpn) && now[p].bits & PERM_MASK == flags
    {
      RunFrame(pa, pages, p - vpn);
      RunNumber(pa, pages, p - vpn);
      LeafRoundTrip(PageAfter(pa, p - vpn), flags);
      assert now[p] == LeafDescriptor(PageAfter(pa, p - vpn), flags);
    }
  }

  lemma LeafAt(view: View, now: View, vpn: nat, pages: nat, pa: Frame, flags: bv64, p: nat)
    requires RangeUpdated(view, now, vpn, pages, MapRule(vpn, pa, flags)) && vpn + pages <= VPN_LIMIT
    requires FrameRun(pa, pages) && flags & PERM_MASK == flags && vpn <= p < vpn + pages
    ensures NextTable(now[p]) == PageAfter(pa, p - vpn)
  {
    assert now[p] == LeafDescriptor(PageAfter(pa, p - vpn), flags);
    RunFrame(pa, pages, p - vpn);
    LeafRoundTrip(PageAfter(pa, p - vpn), flags);
  }

  /** The first page of a mapped range reaches the given frame, and each page the one 4096 bytes behind
      that of the page before. */
  lemma NextPageNextFrame(view: View, now: View, vpn: nat, pages: nat, pa: Frame, flags: bv64, p: nat)
    requires RangeUpdated(view, now, vpn, pages, MapRule(vpn, pa, flags)) && vpn + pages <= VPN_LIMIT
    requires FrameRun(pa, pages) && flags & PERM_MASK == flags && vpn <= p < vpn + pages
    ensures NextTable(now[p]) == if p == vpn then pa else Frame(NextTable(now[p - 1]).addr + 4096)
  {
    LeafAt(view, now, vpn, pages, pa, flags, p);
    if p > vpn {
      LeafAt(view, now, vpn, pages, pa, flags, p - 1);
      PageBehind(pa, p - vpn);
    }
  }

  lemma PageBehind(pa: Frame, k: nat)
    requires k > 0
    ensures PageAfter(pa, k) == Frame(PageAfter(pa, k - 1).addr + 4096)
  {
  }

  lemma MappedRunReaches(view: View, now: View, vpn: nat, done: nat, pages: nat, pa: Frame, flags: bv64)
    requires RangeUpdated(view, now, vpn, done, MapRule(vpn, pa, flags)) && done <= pages && vpn + pages <= VPN_LIMIT
    ensures FrameRun(pa, pages) && flags & PERM_MASK == flags ==> Reaches(now, vpn, done, pa, flags)
  {
    if FrameRun(pa, pages) && flags & PERM_MASK == flags {
      ShorterRun(pa, done, pages);
      MappedReaches(view, now, vpn, done, pa, flags);
    }
  }

  lemma {:induction false} ShorterRun(pa: Frame, n: nat, m: nat)
    requires FrameRun(pa, m) && n <= m
    ensures FrameRun(pa, n)
    decreases n
  {
    if n > 0 {
      ShorterRun(Frame(pa.addr + 0x1000), n - 1, m - 1);
    }
  }

  /** No two pages of a mapped range reach the same frame. */
  lemma RangeUnshared(view: View, vpn: nat, pages: nat, pa: Frame, flags: bv64, p: nat, q: nat)
    requires Total(view) && vpn + pages <= VPN_LIMIT && Reaches(view, vpn, pages, pa, flags)
    requires vpn <= p < vpn + pages && vpn <= q < vpn + pages && p != q
    ensures NextTable(view[p]) != NextTable(view[q])
  {
    assert Pfn(NextTable(view[p])) != Pfn(NextTable(view[q]));
  }

  function UnmapRule(): (nat, Descriptor) -> Descriptor {
    (p, d) => INVALID
  }

  function ProtectRule(flags: bv64): (nat, Descriptor) -> Descriptor {
    (p, d) => if PteValid(d) then Reprotect(d, flags) else d
  }

  lemma ProtectOneMore(view: View, before: View, now: View, vpn: nat, i: nat, flags: bv64, p: nat, hit: bool)
    requires p == vpn + i < VPN_LIMIT && RangeUpdated(view, before, vpn, i, ProtectRule(flags))
    requires hit == PteValid(before[p]) && now == before[p := if hit then Reprotect(before[p], flags) else before[p]]
    ensures RangeUpdated(view, now, vpn, i + 1, ProtectRule(flags))
    ensures MappedCount(view, vpn, i + 1) == MappedCount(view, vpn, i) + if hit then 1 else 0
  {
    UpdateOneMore(view, before, now, vpn, i, p, ProtectRule(flags), ProtectRule(flags)(p, before[p]));
  }

  /** Number of pages of [vpn, vpn + pages) that have a valid leaf. */
  ghost function MappedCount(view: View, vpn: nat, pages: nat): nat
    requires Total(view) && vpn + pages <= VPN_LIMIT
  {
    if pages == 0 then 0
    else MappedCount(view, vpn, pages - 1) + if PteValid(view[vpn + pages - 1]) then 1 else 0
  }

  class PageTable {
    const pool: FramePool
    var l0: Frame
    var mem: Memory
    ghost var tree: Tree
    ghost var view: View

    /** The tables form an unshared tree, every table page is owned by this tree alone. */
    ghost predicate Valid()
      reads this, pool
    {
      && pool.Valid()
      && Shape(mem, l0, tree)
      && Represents(mem, l0, view)
      && mem.Keys == tree.Values
      && mem.Keys <= pool.managed
      && mem.Keys !! pool.free
    }

    /** mmu_create_user_tables: one empty L0. */
    constructor (pool: FramePool, root: Frame)
      requires pool.Valid() && root in pool.managed && root !in pool.free
      ensures Valid() && this.pool == pool && l0 == root && mem.Keys == {root}
      ensures view == EmptyView()
    {
      this.pool := pool;
      l0 := root;
      mem := map[root := ZeroTable()];
      tree := map[Node(0, 0) := root];
      view := EmptyView();
      InvalidIsInvalid();
    }

    /** The allocating half of a walk_levels step: alloc_table, then link it at entry i. */
    method HangTable(table: Frame, i: nat, ghost n: Node) returns (f: Frame)
      requires Valid()
      requires n in tree && n.level < 3 && tree[n] == table && i < 512 && n.Child(i) !in tree
      modifies this, pool
      ensures Valid() && l0 == old(l0) && unchanged(pool`returned)
      ensures view == old(view)
      ensures f == NULL <==> old(pool.free) == {}
      ensures f == NULL ==> unchanged(this)
      ensures f != NULL ==> n.Child(i) in tree && tree[n.Child(i)] == f
      ensures TreeGrew(old(tree), tree)
      ensures pool.free + mem.Keys == old(pool.free + mem.Keys) && pool.free <= old(pool.free)
    {
      f := pool.Allocate();
      if f != NULL {
        FrameMoves(old(pool.free), mem.Keys, f);
        OneMoreTable(tree, n.Child(i), f);
        GrowKeepsView(mem, l0, tree, n, i, f, view);
        GrowKeepsShape(mem, l0, tree, n, i, f);
        GrowAddsOneTable(mem, l0, tree, n, i, f);
        mem := GrowMemory(mem, table, i, f);
        tree := tree[n.Child(i) := f];
      }
    }

    /** One level of walk_levels: follow entry i of `table`, hanging a fresh zeroed table there
        when it is invalid and `alloc` is set. NULL when there is nothing to follow. */
    method Descend(table: Frame, i: nat, alloc: bool, ghost n: Node) returns (next: Frame)
      requires Valid()
      requires n in tree && n.level < 3 && tree[n] == table && i < 512
      modifies this, pool
      ensures Valid() && l0 == old(l0) && unchanged(pool`returned)
      ensures view == old(view)
      ensures next == NULL <==> n.Child(i) !in old(tree) && (!alloc || old(pool.free) == {})
      ensures next != NULL ==> n.Child(i) in tree && tree[n.Child(i)] == next
      ensures TreeGrew(old(tree), tree)
      ensures pool.free + mem.Keys == old(pool.free + mem.Keys) && pool.free <= old(pool.free)
      ensures !alloc ==> unchanged(this) && unchanged(pool)
    {
      WalkStep(mem, l0, tree, n, i);
      if !PteValid(mem[table][i]) {
        if !alloc {
          return NULL;
        }
        next := HangTable(table, i, n);
      } else {
        next := NextTable(mem[table][i]);
      }
    }

    /** walk_levels to level 3: the L3 table holding the page's entry, creating intermediate
        tables on the way when `alloc` is set. No page's lookup changes. */
    method WalkLevels(vpn: nat, alloc: bool) returns (table: Frame)
      requires Valid() && vpn < VPN_LIMIT
      modifies this, pool
      ensures Valid() && l0 == old(l0) && unchanged(pool`returned)
      ensures view == old(view)
      ensures table != NULL ==> TableOf(3, vpn) in tree && tree[TableOf(3, vpn)] == table
      ensures table == NULL ==> view[vpn] == INVALID && (!alloc || pool.free == {})
      ensures pool.free + mem.Keys == old(pool.free + mem.Keys) && pool.free <= old(pool.free)
      ensures !alloc ==> unchanged(this) && unchanged(pool)
    {
      LookupByTree(mem, l0, tree, vpn);
      PathToTable(vpn);
      ghost var n0, n1, n2 := TableOf(0, vpn), TableOf(1, vpn), TableOf(2, vpn);
      ChildParent(n1, L1Index(vpn));
      ChildParent(n2, L2Index(vpn));
      var l1 := Descend(l0, L0Index(vpn), alloc, n0);
      if l1 == NULL {
        return NULL;
      }
      var l2 := Descend(l1, L1Index(vpn), alloc, n1);
      if l2 == NULL {
        return NULL;
      }
      table := Descend(l2, L2Index(vpn), alloc, n2);
    }

    /** Store a descriptor through the pointer walk_levels returned. */
    method SetLeaf(table: Frame, vpn: nat, d: Descriptor)
      requires Valid() && vpn < VPN_LIMIT
      requires TableOf(3, vpn) in tree && tree[TableOf(3, vpn)] == table
      modifies `mem, `view
      ensures Valid() && mem.Keys == old(mem.Keys)
      ensures view == old(view)[vpn := Leaf(d)]
    {
      WriteLeafUpdatesView(mem, l0, tree, vpn, d, view);
      mem := WriteEntry(mem, table, L3Index(vpn), d);
      view := view[vpn := Leaf(d)];
    }

    /** The descriptor behind the pointer walk_levels returned is what the hardware would find. */
    method GetLeaf(table: Frame, vpn: nat) returns (d: Descriptor)
      requires Valid() && vpn < VPN_LIMIT
      requires TableOf(3, vpn) in tree && tree[TableOf(3, vpn)] == table
      ensures Leaf(d) == view[vpn]
    {
      LookupByTree(mem, l0, tree, vpn);
      d := mem[table][L3Index(vpn)];
    }

    // The three loop bodies: one page of a map, an unmap and a re-protect.
    method MapPage(p: nat, pa: Frame, flags: bv64) returns (ok: bool)
      requires Valid() && p < VPN_LIMIT
      modifies this, pool
      ensures Valid() && l0 == old(l0) && unchanged(pool`returned)
      ensures pool.free + mem.Keys == old(pool.free + mem.Keys) && pool.free <= old(pool.free)
      ensures view == if ok then old(view)[p := LeafDescriptor(pa, flags)] else old(view)
      ensures !ok ==> pool.free == {}
    {
      var table := WalkLevels(p, true);
      ok := table != NULL;
      if ok {
        LeafIsValid(pa, flags);
        SetLeaf(table, p, LeafDescriptor(pa, flags));
      }
    }

    method UnmapPage(p: nat)
      requires Valid() && p < VPN_LIMIT
      modifies this, pool
      ensures Valid() && unchanged(pool) && unchanged(`l0, `tree) && mem.Keys == old(mem.Keys)
      ensures view == old(view)[p := INVALID]
    {
      var table := WalkLevels(p, false);
      if table == NULL {
        assert view[p := INVALID] == view;
      } else {
        var d := GetLeaf(table, p);
        if PteValid(d) {
          InvalidIsInvalid();
          SetLeaf(table, p, INVALID);
        } else {
          assert view[p := INVALID] == view;
        }
      }
    }

    method ProtectPage(p: nat, flags: bv64) returns (hit: bool)
      requires Valid() && p < VPN_LIMIT
      modifies this, pool
      ensures Valid() && unchanged(pool) && unchanged(`l0, `tree) && mem.Keys == old(mem.Keys)
      ensures hit == PteValid(old(view)[p])
      ensures view == old(view)[p := if hit then Reprotect(old(view)[p], flags) else old(view)[p]]
    {
      InvalidIsInvalid();
      var table := WalkLevels(p, false);
      hit := false;
      if table != NULL {
        var d := GetLeaf(table, p);
        hit := PteValid(d);
        if hit {
          ReprotectKeepsMapping(d, flags);
          SetLeaf(table, p, Reprotect(d, flags));
        }
      }
      if !hit {
        assert view[p := view[p]] == view;
      }
    }

    /** mmu_map_user_range. Stops at the first page whose tables cannot be allocated; `done` is
        the number of pages mapped. Exactly those pages change. */
    method MapUserRange(vpn: nat, pa: Frame, pages: nat, flags: bv64) returns (done: nat)
      requires Valid() && vpn + pages <= VPN_LIMIT
      modifies this, pool
      ensures Valid() && l0 == old(l0) && unchanged(pool`returned)
      ensures pool.free + mem.Keys == old(pool.free + mem.Keys) && pool.free <= old(pool.free)
      ensures done <= pages && (done < pages ==> pool.free == {})
      ensures RangeUpdated(old(view), view, vpn, done, MapRule(vpn, pa, flags))
      ensures FrameRun(pa, pages) && flags & PERM_MASK == flags ==> Reaches(view, vpn, done, pa, flags)
    {
      done := 0;
      UpdateNothing(view, vpn, MapRule(vpn, pa, flags));
      while done < pages
        invariant done <= pages
        invariant Valid() && l0 == old(l0) && unchanged(pool`returned)
        invariant pool.free + mem.Keys == old(pool.free + mem.Keys) && pool.free <= old(pool.free)
        invariant RangeUpdated(old(view), view, vpn, done, MapRule(vpn, pa, flags))
      {
        ghost var before := view;
        var p := vpn + done;
        var ok := MapPage(p, PageAfter(pa, done), flags);
        if !ok {
          break;
        }
        MapOneMore(old(view), before, view, vpn, pa, done, flags, p);
        done := done + 1;
      }
      MappedRunReaches(old(view), view, vpn, done, pages, pa, flags);
    }

    /** mmu_unmap_user_range: exactly the pages of the range lose their leaf. */
    method UnmapUserRange(vpn: nat, pages: nat)
      requires Valid() && vpn + pages <= VPN_LIMIT
      modifies this, pool
      ensures Valid() && unchanged(pool) && unchanged(`l0, `tree) && mem.Keys == old(mem.Keys)
      ensures RangeUpdated(old(view), view, vpn, pages, UnmapRule())
    {
      var i := 0;
      UpdateNothing(view, vpn, UnmapRule());
      while i < pages
        invariant i <= pages
        invariant Valid() && unchanged(pool) && unchanged(`l0, `tree) && mem.Keys == old(mem.Keys)
        invariant RangeUpdated(old(view), view, vpn, i, UnmapRule())
      {
        ghost var before := view;
        UnmapPage(vpn + i);
        UpdateOneMore(old(view), before, view, vpn, i, vpn + i, UnmapRule(), INVALID);
        i := i + 1;
      }
    }

    /** One round of mmu_protect_user_range. */
    method ProtectNext(vpn: nat, i: nat, flags: bv64, changed: nat, ghost view0: View) returns (now: nat)
      requires Valid() && vpn + i < VPN_LIMIT && RangeUpdated(view0, view, vpn, i, ProtectRule(flags))
      requires changed == MappedCount(view0, vpn, i)
      modifies this, pool
      ensures Valid() && unchanged(pool) && unchanged(`l0, `tree) && mem.Keys == old(mem.Keys)
      ensures RangeUpdated(view0, view, vpn, i + 1, ProtectRule(flags))
      ensures now == MappedCount(view0, vpn, i + 1)
    {
      ghost var before := view;
      var hit := ProtectPage(vpn + i, flags);
      ProtectOneMore(view0, before, view, vpn, i, flags, vpn + i, hit);
      now := if hit then changed + 1 else changed;
    }

    /** mmu_protect_user_range: exactly the mapped pages of the range are rewritten in place, and
        the result counts them. */
    method ProtectUserRange(vpn: nat, pages: nat, flags: bv64) returns (changed: nat)
      requires Valid() && vpn + pages <= VPN_LIMIT
      modifies this, pool
      ensures Valid() && unchanged(pool) && unchanged(`l0, `tree) && mem.Keys == old(mem.Keys)
      ensures changed == MappedCount(old(view), vpn, pages)
      ensures RangeUpdated(old(view), view, vpn, pages, ProtectRule(flags))
    {
      changed := 0;
      var i := 0;
      ghost var view0 := view;
      UpdateNothing(view0, vpn, ProtectRule(flags));
      while i < pages
        invariant i <= pages && changed == MappedCount(view0, vpn, i)
        invariant Valid() && unchanged(pool) && unchanged(`l0, `tree) && mem.Keys == old(mem.Keys)
        invariant RangeUpdated(view0, view, vpn, i, ProtectRule(flags))
      {
        changed := ProtectNext(vpn, i, flags, changed, view0);
        i := i + 1;
      }
    }
  }
}
