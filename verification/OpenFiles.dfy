/** Open file descriptions, descriptor tables and the vnodes they share (src/fs/vfs/vfs.c). Nodes,
    file_t structs and tables live in kernel memory and are reached by address; address 0 is NULL
    and a freed struct is gone. Nodes are never freed. */
module OpenFiles {
  import opened Values

  const MAX_FDS: nat := 64

  datatype Kind = Regular | Directory | Character | BlockDevice

  datatype Vnode = Vnode(kind: Kind, size: nat)

  datatype File = File(node: nat, offset: int, access: nat, refcount: int)

  type Nodes = map<nat, Vnode>

  type Slots = s: seq<nat> | |s| == 64 witness seq(64, i => 0)

  type Tables = map<nat, Slots>

  // ---- who refers to what ----

  /** The slots, over all tables, that point to f. */
  ghost function Refs(tables: Tables, f: nat): set<(nat, nat)> {
    set t, i | t in tables && 0 <= i < 64 && tables[t][i] == f :: (t, i)
  }

  /** Every slot points to a live struct, and each struct counts exactly the slots that point to it
      and is pointed to by at least one. */
  ghost predicate Counted(files: map<nat, File>, tables: Tables) {
    && 0 !in files
    && (forall t, i {:trigger tables[t][i]} | t in tables && 0 <= i < 64 && tables[t][i] != 0 :: tables[t][i] in files)
    && (forall f {:trigger files[f]} | f in files :: files[f].refcount == |Refs(tables, f)| > 0)
  }

  function SetSlot(tables: Tables, t: nat, i: nat, f: nat): Tables
    requires t in tables && i < 64
  {
    tables[t := tables[t][i := f]]
  }

  lemma RefsAfterSet(tables: Tables, t: nat, i: nat, f: nat)
    requires t in tables && i < 64 && tables[t][i] != f
    ensures Refs(SetSlot(tables, t, i, f), f) == Refs(tables, f) + {(t, i)} && (t, i) !in Refs(tables, f)
    ensures Refs(SetSlot(tables, t, i, f), tables[t][i]) == Refs(tables, tables[t][i]) - {(t, i)}
            && (t, i) in Refs(tables, tables[t][i])
    ensures forall g | g != f && g != tables[t][i] :: Refs(SetSlot(tables, t, i, f), g) == Refs(tables, g)
  {
    var tables' := SetSlot(tables, t, i, f);
    forall g, u, k
      ensures (u, k) in Refs(tables', g) <==> if (u, k) == (t, i) then g == f else (u, k) in Refs(tables, g)
    {
    }
    forall g | g != f && g != tables[t][i]
      ensures Refs(tables', g) == Refs(tables, g)
    {
    }
  }

  /** A slot takes a reference to a struct. */
  lemma TakeKeeps(files: map<nat, File>, tables: Tables, t: nat, i: nat, f: nat)
    requires Counted(files, tables) && t in tables && i < 64 && tables[t][i] == 0 && f in files
    ensures Counted(files[f := files[f].(refcount := files[f].refcount + 1)], SetSlot(tables, t, i, f))
  {
    RefsAfterSet(tables, t, i, f);
  }

  /** A slot takes the first reference to a new struct. */
  lemma FirstKeeps(files: map<nat, File>, tables: Tables, t: nat, i: nat, f: nat, x: File)
    requires Counted(files, tables) && t in tables && i < 64 && tables[t][i] == 0 && f !in files && f != 0
             && x.refcount == 1
    ensures Counted(files[f := x], SetSlot(tables, t, i, f))
  {
    RefsAfterSet(tables, t, i, f);
    NoRefs(files, tables, f);
  }

  lemma NoRefs(files: map<nat, File>, tables: Tables, f: nat)
    requires Counted(files, tables) && f !in files && f != 0
    ensures Refs(tables, f) == {}
  {
    forall t, i | t in tables && 0 <= i < 64
      ensures tables[t][i] != f
    {
    }
  }

  /** A slot gives up its reference: the struct goes exactly when it was the last one. */
  lemma DropKeeps(files: map<nat, File>, tables: Tables, t: nat, i: nat)
    requires Counted(files, tables) && t in tables && i < 64 && tables[t][i] != 0
    ensures var f := tables[t][i];
            && f in files
            && Counted(Released(files, f), SetSlot(tables, t, i, 0))
            && (f in Released(files, f) <==> Refs(tables, f) != {(t, i)})
  {
    var f := tables[t][i];
    RefsAfterSet(tables, t, i, 0);
    if files[f].refcount == 1 {
      LastDropKeeps(files, tables, t, i);
    } else {
      assert |{(t, i)}| == 1;
    }
  }

  lemma LastDropKeeps(files: map<nat, File>, tables: Tables, t: nat, i: nat)
    requires Counted(files, tables) && t in tables && i < 64 && tables[t][i] in files
             && files[tables[t][i]].refcount == 1
    ensures Counted(files - {tables[t][i]}, SetSlot(tables, t, i, 0)) && Refs(tables, tables[t][i]) == {(t, i)}
  {
    var f, tables' := tables[t][i], SetSlot(tables, t, i, 0);
    RefsAfterSet(tables, t, i, 0);
    assert |Refs(tables', f)| == 0;
    forall u, k {:trigger tables'[u][k]} | u in tables' && 0 <= k < 64
      ensures tables'[u][k] != f
    {
      assert (u, k) !in Refs(tables', f);
    }
  }

  /** fd_release. */
  function Released(files: map<nat, File>, f: nat): map<nat, File>
    requires f in files
  {
    if files[f].refcount - 1 > 0 then files[f := files[f].(refcount := files[f].refcount - 1)] else files - {f}
  }

  // ---- the operations ----

  datatype OpenFlags = OpenFlags(access: nat, create: bool, exclusive: bool, truncate: bool, append: bool)

  const O_RDWR: nat := 2

  /** What the filesystem makes of a truncation request: it may not support one. */
  datatype Truncation = Unsupported | Failed | Done

  const EMPTY: Slots := seq(64, i => 0)

  /** What a path resolves to: nothing, or the node at an address. A node that is not cached yet is
      filled in from the filesystem as `v`; one that is cached is left as it is. */
  datatype Lookup = Missing | Found(at: nat, v: Vnode)

  function Cached(nodes: Nodes, l: Lookup): (r: Nodes)
    ensures l.Found? ==> l.at in r
    ensures forall k | k in nodes :: k in r && r[k] == nodes[k]
  {
    if l.Found? && l.at !in nodes then nodes[l.at := l.v] else nodes
  }

  predicate BadFlags(flags: OpenFlags) {
    flags.access > O_RDWR || (flags.exclusive && !flags.create)
  }

  /** The node an open() settles on: what the path resolves to, or what it resolves to once the
      create hook has run. */
  function Reached(flags: OpenFlags, found: Lookup, made: Lookup): (r: Lookup)
    ensures r.Found? && flags.exclusive ==> flags.create && found.Missing?
  {
    if BadFlags(flags) then Missing
    else if found.Missing? then (if flags.create then made else Missing)
    else if flags.create && flags.exclusive then Missing
    else found
  }

  /** The nodes once the path has been resolved. */
  function Resolved(nodes: Nodes, flags: OpenFlags, found: Lookup, made: Lookup): Nodes {
    if BadFlags(flags) then nodes
    else if found.Missing? && flags.create then Cached(nodes, made)
    else Cached(nodes, found)
  }

  predicate Truncates(flags: OpenFlags, found: Lookup, made: Lookup, cut: Truncation) {
    Reached(flags, found, made).Found? && flags.truncate && cut.Done?
  }

  /** The nodes after an open(), whether or not it returns a descriptor. */
  function NodesAfter(nodes: Nodes, flags: OpenFlags, found: Lookup, made: Lookup, cut: Truncation): (r: Nodes)
    ensures Reached(flags, found, made).Found? ==> Reached(flags, found, made).at in r
    ensures forall k | k in nodes :: k in r
  {
    var looked, node := Resolved(nodes, flags, found, made), Reached(flags, found, made);
    if Truncates(flags, found, made, cut) then looked[node.at := looked[node.at].(size := 0)] else looked
  }

  /** The effect of an open() on a node that was there before it: none, unless it is the node reached
      and truncating it succeeds. */
  lemma NodeAfter(nodes: Nodes, flags: OpenFlags, found: Lookup, made: Lookup, cut: Truncation, k: nat)
    requires k in nodes
    ensures NodesAfter(nodes, flags, found, made, cut)[k] ==
            if Truncates(flags, found, made, cut) && Reached(flags, found, made).at == k then nodes[k].(size := 0)
              else nodes[k]
  {
  }

  /** An open() leaves every node as it was exactly when it caches no new one and empties none. */
  lemma NodesKept(nodes: Nodes, flags: OpenFlags, found: Lookup, made: Lookup, cut: Truncation)
    ensures NodesAfter(nodes, flags, found, made, cut) == nodes <==>
            && Resolved(nodes, flags, found, made).Keys == nodes.Keys
            && (Truncates(flags, found, made, cut) ==>
                  Reached(flags, found, made).at in nodes && nodes[Reached(flags, found, made).at].size == 0)
  {
    var after := NodesAfter(nodes, flags, found, made, cut);
    assert after.Keys == Resolved(nodes, flags, found, made).Keys;
    forall k | k in nodes
      ensures after[k] == if Truncates(flags, found, made, cut)
              && Reached(flags, found, made).at == k then nodes[k].(size := 0) else nodes[k]
    {
      NodeAfter(nodes, flags, found, made, cut, k);
    }
    if after.Keys == nodes.Keys && Truncates(flags, found, made, cut) {
      var k := Reached(flags, found, made).at;
      assert after[k].size == 0;
    }
  }

  /** Apart from the counts, the same descriptions. */
  ghost predicate SameButCounts(files: map<nat, File>, files': map<nat, File>) {
    files'.Keys == files.Keys && forall f {:trigger files'[f]} | f in files ::
      files'[f] == files[f].(refcount := files'[f].refcount)
  }

  lemma SameTwice(files: map<nat, File>, files1: map<nat, File>, files2: map<nat, File>)
    requires SameButCounts(files, files1) && SameButCounts(files1, files2)
    ensures SameButCounts(files, files2)
  {
    forall f {:trigger files2[f]} | f in files
      ensures files2[f] == files[f].(refcount := files2[f].refcount)
    {
      assert files1[f] == files[f].(refcount := files1[f].refcount);
    }
  }

  /** Some descriptions may be gone and counts differ; the others are as they were. */
  ghost predicate OnlyFewer(files: map<nat, File>, files': map<nat, File>) {
    forall f {:trigger files'[f]} | f in files' :: f in files && files'[f] == files[f].(refcount := files'[f].refcount)
  }

  lemma FewerTwice(files: map<nat, File>, files1: map<nat, File>, files2: map<nat, File>)
    requires OnlyFewer(files, files1) && OnlyFewer(files1, files2)
    ensures OnlyFewer(files, files2)
  {
    forall f {:trigger files2[f]} | f in files2
      ensures f in files && files2[f] == files[f].(refcount := files2[f].refcount)
    {
      assert files1[f] == files[f].(refcount := files1[f].refcount);
    }
  }

  /** The first i slots, the others empty. */
  function Prefix(s: Slots, i: nat): Slots
    requires i <= 64
  {
    seq(64, k requires 0 <= k < 64 => if k < i then s[k] else 0)
  }

  lemma PrefixStep(s: Slots, i: nat)
    requires i < 64
    ensures Prefix(s, i)[i] == 0 && Prefix(s, i + 1) == Prefix(s, i)[i := s[i]]
            && (s[i] == 0 ==> Prefix(s, i + 1) == Prefix(s, i))
    ensures Prefix(s, 0) == EMPTY && Prefix(s, 64) == s
  {
  }

  lemma Overwritten(tables: Tables, t: nat, s: Slots, i: nat, f: nat)
    requires i < 64
    ensures SetSlot(tables[t := s], t, i, f) == tables[t := s[i := f]]
  {
  }

  /** The new table holds the first i slots of the source. */
  ghost predicate Copied(tables0: Tables, tables: Tables, src: nat, addr: nat, i: nat) {
    src in tables0 && addr !in tables0 && i <= 64 && tables == tables0[addr := Prefix(tables0[src], i)]
  }

  lemma CopyStep(tables0: Tables, tables: Tables, src: nat, addr: nat, i: nat)
    requires Copied(tables0, tables, src, addr, i) && i < 64
    ensures tables[addr][i] == 0 && Copied(tables0, SetSlot(tables, addr, i, tables[src][i]), src, addr, i + 1)
  {
    PrefixStep(tables0[src], i);
    Overwritten(tables0, addr, Prefix(tables0[src], i), i, tables[src][i]);
  }

  lemma SameSlot(tables: Tables, t: nat, i: nat)
    requires t in tables && i < 64
    ensures SetSlot(tables, t, i, tables[t][i]) == tables
  {
    assert tables[t][i := tables[t][i]] == tables[t];
  }

  /** A table with nothing in it counts for nothing. */
  lemma EmptyKeeps(files: map<nat, File>, tables: Tables, t: nat)
    requires Counted(files, tables) && t !in tables
    ensures Counted(files, tables[t := EMPTY])
  {
    forall f | f in files
      ensures Refs(tables[t := EMPTY], f) == Refs(tables, f)
    {
    }
  }

  lemma GoneKeeps(files: map<nat, File>, tables: Tables, t: nat)
    requires Counted(files, tables) && t in tables && forall i | 0 <= i < 64 :: tables[t][i] == 0
    ensures Counted(files, tables - {t})
  {
    forall f | f in files
      ensures Refs(tables - {t}, f) == Refs(tables, f)
    {
    }
  }

  /** A struct is alive exactly as long as some slot points to it. */
  lemma LiveExactly(files: map<nat, File>, tables: Tables, f: nat)
    requires Counted(files, tables) && f != 0
    ensures f in files <==> exists t, i :: t in tables && 0 <= i < 64 && tables[t][i] == f
  {
    if f in files {
      var ref :| ref in Refs(tables, f);
    }
  }

  datatype Whence = SeekSet | SeekCur | SeekEnd | SeekBad

  /** An open descriptor, not of a character device, and an origin that is defined for it. */
  predicate Seekable(nodes: Nodes, files: map<nat, File>, slots: Slots, fd: int, whence: Whence) {
    && 0 <= fd < 64 && slots[fd] != 0 && slots[fd] in files && files[slots[fd]].node in nodes
    && nodes[files[slots[fd]].node].kind != Character && !whence.SeekBad?
    && (whence.SeekEnd? ==> nodes[files[slots[fd]].node].kind == Regular)
  }

  function SeekBase(nodes: Nodes, f: File, whence: Whence): int
    requires f.node in nodes
  {
    if whence.SeekCur? then f.offset else if whence.SeekEnd? then nodes[f.node].size else 0
  }

  /** Every description is of a node. */
  ghost predicate Rooted(nodes: Nodes, files: map<nat, File>) {
    forall f {:trigger files[f]} | f in files :: files[f].node in nodes
  }

  /** Where SEEK_END takes a description after an open(): to 0 if that open truncated its node, whoever
      holds it, and otherwise to where it did before. */
  lemma TruncationSeen(nodes: Nodes, flags: OpenFlags, found: Lookup, made: Lookup, cut: Truncation, f: File)
    requires f.node in nodes
    ensures SeekBase(NodesAfter(nodes, flags, found, made, cut), f, SeekEnd) ==
            if Truncates(flags, found, made, cut) && Reached(flags, found, made).at == f.node then 0
            else SeekBase(nodes, f, SeekEnd)
  {
    NodeAfter(nodes, flags, found, made, cut, f.node);
  }

  class Vfs {
    var nodes: Nodes
    var files: map<nat, File>
    var tables: Tables

    ghost predicate Valid()
      reads this
    {
      Counted(files, tables) && Rooted(nodes, files)
    }

    constructor (pool: Nodes)
      ensures Valid() && nodes == pool && tables == map[] && files == map[]
    {
      nodes, files, tables := pool, map[], map[];
    }

    /** fd_table_create; kmalloc returned `addr`. */
    method CreateTable(addr: nat)
      requires Valid() && addr !in tables
      modifies `files, `tables
      ensures Valid() && files == old(files)
      ensures tables == if addr == 0 then old(tables) else old(tables)[addr := EMPTY]
    {
      if addr != 0 {
        EmptyKeeps(files, tables, addr);
        tables := tables[addr := EMPTY];
      }
    }

    /** alloc_fd: the lowest free slot. */
    method AllocFd(t: nat) returns (fd: int)
      requires t in tables
      ensures fd == -1 ==> forall i | 0 <= i < 64 :: tables[t][i] != 0
      ensures fd != -1 ==> 0 <= fd < 64 && tables[t][fd] == 0 && forall i | 0 <= i < fd :: tables[t][i] != 0
    {
      var i := 0;
      while i < MAX_FDS
        invariant 0 <= i <= MAX_FDS && forall k | 0 <= k < i :: tables[t][k] != 0
      {
        if tables[t][i] == 0 {
          return i;
        }
        i := i + 1;
      }
      return -1;
    }

    /** fd_release. */
    method Release(f: nat)
      requires f in files
      modifies `files
      ensures files == Released(old(files), f)
    {
      var left := files[f].refcount - 1;
      if left > 0 {
        files := files[f := files[f].(refcount := left)];
      } else {
        files := files - {f};
      }
    }

    /** Path resolution and truncation, the part of fd_open_ex that comes before the descriptor. */
    method Reach(flags: OpenFlags, found: Lookup, made: Lookup, cut: Truncation) returns (ok: bool, at: nat)
      requires Rooted(nodes, files)
      modifies `nodes
      ensures Rooted(nodes, files) && nodes == NodesAfter(old(nodes), flags, found, made, cut)
      ensures ok <==> Reached(flags, found, made).Found? && !(flags.truncate && cut.Failed?)
      ensures ok ==> at == Reached(flags, found, made).at
    {
      ok, at := false, 0;
      if flags.access > O_RDWR {
        return;
      }
      if flags.exclusive && !flags.create {
        return;
      }
      var node := found;
      nodes := Cached(nodes, found);
      if node.Missing? {
        if !flags.create {
          return;
        }
        nodes := Cached(nodes, made);
        if made.Missing? {
          return;
        }
        node := made;
      } else if flags.create && flags.exclusive {
        return;
      }
      at := node.at;
      if flags.truncate && !cut.Unsupported? {
        if cut.Failed? {
          return;
        }
        nodes := nodes[at := nodes[at].(size := 0)];
      }
      ok := true;
    }

    /** fd_open_ex. `found` is what the path resolves to, `made` what it resolves to after the create
        hook (nothing if the hook failed), `cut` what truncating the node does, and `addr` what
        kmalloc returned. The nodes change as the path and the truncation have it even when no
        descriptor or no struct is to be had afterwards. */
    method Open(t: nat, flags: OpenFlags, found: Lookup, made: Lookup, cut: Truncation, addr: nat) returns (fd: int)
      requires Valid() && t in tables && addr !in files
      modifies this
      ensures Valid() && nodes == NodesAfter(old(nodes), flags, found, made, cut)
      ensures fd == -1 ==> files == old(files) && tables == old(tables)
      ensures fd == -1 <==> (
              || Reached(flags, found, made).Missing? || (flags.truncate && cut.Failed?)
              || (forall i | 0 <= i < 64 :: old(tables)[t][i] != 0) || addr == 0)
      ensures fd != -1 ==>
                && 0 <= fd < 64 && old(tables)[t][fd] == 0 && (forall i | 0 <= i < fd :: old(tables)[t][i] != 0)
                && tables == SetSlot(old(tables), t, fd, addr)
                && var at := Reached(flags, found, made).at;
                   files == old(files)[addr := File(at, if flags.append then nodes[at].size else 0, flags.access, 1)]
    {
      var ok, at := Reach(flags, found, made, cut);
      if !ok {
        return -1;
      }
      fd := AllocFd(t);
      if fd < 0 || addr == 0 {
        return -1;
      }
      var f := File(at, if flags.append then nodes[at].size else 0, flags.access, 1);
      FirstKeeps(files, tables, t, fd, addr, f);
      files := files[addr := f];
      tables := SetSlot(tables, t, fd, addr);
    }

    /** An open() for truncation that finds no memory for its struct fails, and has emptied the file all
        the same. */
    method RefusedOpenEmpties(t: nat, flags: OpenFlags, found: Lookup, made: Lookup) returns (fd: int)
      requires Valid() && t in tables && Reached(flags, found, made).Found? && flags.truncate
      modifies this
      ensures Valid() && fd == -1 && files == old(files) && tables == old(tables)
      ensures var at := Reached(flags, found, made).at;
              && at in nodes && nodes[at].size == 0
              && forall k | k in old(nodes) && k != at :: k in nodes && nodes[k] == old(nodes)[k]
    {
      ghost var nodes0 := nodes;
      fd := Open(t, flags, found, made, Done, 0);
      forall k | k in nodes0 && k != Reached(flags, found, made).at
        ensures k in nodes && nodes[k] == nodes0[k]
      {
        NodeAfter(nodes0, flags, found, made, Done, k);
      }
    }

    /** An open() that truncates is seen by SEEK_END through every descriptor of the same node that
        was open before it, in any table, even if that open() then fails. */
    method TruncateThenSeekEnd(t: nat, flags: OpenFlags, found: Lookup, made: Lookup, addr: nat, u: nat, fd: nat)
      returns (got: int, end: int)
      requires Valid() && t in tables && addr !in files && Reached(flags, found, made).Found? && flags.truncate
      requires u in tables && Seekable(nodes, files, tables[u], fd, SeekEnd)
      modifies this
      ensures Valid()
      ensures end == if Reached(flags, found, made).at == old(files[tables[u][fd]].node) then 0
                     else old(nodes[files[tables[u][fd]].node].size)
    {
      ghost var nodes0, f := nodes, files[tables[u][fd]];
      got := Open(t, flags, found, made, Done, addr);
      TruncationSeen(nodes0, flags, found, made, Done, f);
      NodeAfter(nodes0, flags, found, made, Done, f.node);
      end := Seek(u, fd, 0, SeekEnd);
    }

    /** fd_close: detach, then release; the struct is freed exactly when no other slot points to it. */
    method Close(t: nat, fd: int) returns (r: int)
      requires Valid() && t in tables
      modifies `files, `tables
      ensures Valid()
      ensures r == -1 <==> !(0 <= fd < 64 && old(tables)[t][fd] != 0)
      ensures r == -1 ==> unchanged(this)
      ensures r != -1 ==> r == 0 && var f := old(tables)[t][fd];
                && tables == SetSlot(old(tables), t, fd, 0)
                && f in old(files) && files == Released(old(files), f)
                && (f in files <==> Refs(old(tables), f) != {(t, fd)})
    {
      if fd < 0 || fd >= MAX_FDS || tables[t][fd] == 0 {
        return -1;
      }
      DropKeeps(files, tables, t, fd);
      var f := tables[t][fd];
      tables := SetSlot(tables, t, fd, 0);
      Release(f);
      r := 0;
    }

    /** fd_table_clone: every open slot of the source is shared with the new table. */
    method Clone(src: nat, addr: nat) returns (ok: bool)
      requires Valid() && src in tables && addr !in tables
      modifies `files, `tables
      ensures Valid() && ok == (addr != 0) && (!ok ==> files == old(files) && tables == old(tables))
      ensures ok ==> tables == old(tables)[addr := old(tables)[src]] && SameButCounts(old(files), files)
    {
      CreateTable(addr);
      if addr == 0 {
        return false;
      }
      ghost var files0, tables0 := old(files), old(tables);
      PrefixStep(tables0[src], 0);
      var i := 0;
      while i < MAX_FDS
        invariant 0 <= i <= MAX_FDS && Valid() && SameButCounts(files0, files) && Copied(tables0, tables, src, addr, i)
      {
        ghost var files1 := files;
        CopyStep(tables0, tables, src, addr, i);
        CloneSlot(src, addr, i);
        SameTwice(files0, files1, files);
        i := i + 1;
      }
      PrefixStep(tables0[src], 0);
      ok := true;
    }

    /** Slot i of the new table takes what slot i of the source holds. */
    method CloneSlot(src: nat, addr: nat, i: nat)
      requires Valid() && src in tables && addr in tables && i < 64 && tables[addr][i] == 0
      modifies `files, `tables
      ensures Valid() && tables == SetSlot(old(tables), addr, i, old(tables)[src][i])
              && SameButCounts(old(files), files)
    {
      var f := tables[src][i];
      if f != 0 {
        Share(f, addr, i);
      } else {
        SameSlot(tables, addr, i);
      }
    }

    /** One more slot points to f. */
    method Share(f: nat, t: nat, i: nat)
      requires Valid() && t in tables && i < 64 && tables[t][i] == 0 && f in files
      modifies `files, `tables
      ensures Valid() && tables == SetSlot(old(tables), t, i, f) && SameButCounts(old(files), files)
    {
      TakeKeeps(files, tables, t, i, f);
      tables := SetSlot(tables, t, i, f);
      files := files[f := files[f].(refcount := files[f].refcount + 1)];
    }

    /** Slot i of t gives up what it points to. */
    method Drop(t: nat, i: nat)
      requires Valid() && t in tables && i < 64
      modifies `files, `tables
      ensures Valid() && tables == SetSlot(old(tables), t, i, 0) && OnlyFewer(old(files), files)
    {
      if tables[t][i] == 0 {
        SameSlot(tables, t, i);
        return;
      }
      DropKeeps(files, tables, t, i);
      var f := tables[t][i];
      Release(f);
      tables := SetSlot(tables, t, i, 0);
    }

    /** fd_table_destroy. */
    method Destroy(t: nat)
      requires Valid() && t in tables
      modifies `files, `tables
      ensures Valid() && tables == old(tables) - {t} && OnlyFewer(old(files), files)
    {
      var i := 0;
      while i < MAX_FDS
        invariant 0 <= i <= MAX_FDS && Valid() && t in tables && tables == old(tables)[t := tables[t]]
        invariant OnlyFewer(old(files), files) && forall k | 0 <= k < i :: tables[t][k] == 0
      {
        ghost var files1 := files;
        Drop(t, i);
        FewerTwice(old(files), files1, files);
        i := i + 1;
      }
      GoneKeeps(files, tables, t);
      tables := tables - {t};
    }

    /** fd_seek. */
    method Seek(t: nat, fd: int, offset: int, whence: Whence) returns (r: int)
      requires Valid() && t in tables
      modifies `files
      ensures Valid() && r >= -1
      ensures r == -1 <==> !Seekable(nodes, old(files), tables[t], fd, whence)
                           || SeekBase(nodes, old(files)[tables[t][fd]], whence) + offset < 0
      ensures r == -1 ==> files == old(files)
      ensures r != -1 ==> r == SeekBase(nodes, old(files)[tables[t][fd]], whence) + offset
                          && files == old(files)[tables[t][fd] := old(files)[tables[t][fd]].(offset := r)]
      ensures r != -1 ==> var f := old(files)[tables[t][fd]];
                          && (whence.SeekSet? ==> r == offset) && (whence.SeekCur? ==> r == f.offset + offset)
                          && (whence.SeekEnd? ==> f.node in nodes && r == nodes[f.node].size + offset)
    {
      if fd < 0 || fd >= MAX_FDS || tables[t][fd] == 0 {
        return -1;
      }
      var f := tables[t][fd];
      var vnode := nodes[files[f].node];
      if vnode.kind == Character {
        return -1;
      }
      var target;
      match whence {
        case SeekSet => target := offset;
        case SeekCur => target := files[f].offset + offset;
        case SeekEnd =>
          if vnode.kind != Regular {
            return -1;
          }
          target := vnode.size + offset;
        case SeekBad => return -1;
      }
      if target < 0 {
        return -1;
      }
      files := files[f := files[f].(offset := target)];
      r := target;
    }

    /** A fork that is undone: cloning a table and destroying the clone leaves every description and
        every table as it was. */
    method CloneThenDestroy(src: nat, addr: nat) returns (ok: bool, ghost between: Tables)
      requires Valid() && src in tables && addr !in tables
      modifies `files, `tables
      ensures Valid() && files == old(files) && tables == old(tables)
      ensures ok == (addr != 0) && (ok ==> between == old(tables)[addr := old(tables)[src]])
    {
      ok := Clone(src, addr);
      between := tables;
      if ok {
        ghost var shared := files;
        Destroy(addr);
        assert tables == old(tables);
        FewerTwice(old(files), shared, files);
        CountsDetermined(old(files), files, tables);
      }
    }
  }

  /** The tables determine which descriptions live and how often each is counted. */
  lemma CountsDetermined(files: map<nat, File>, files': map<nat, File>, tables: Tables)
    requires Counted(files, tables) && Counted(files', tables)
    requires OnlyFewer(files, files')
    ensures files' == files
  {
    forall f | f in files
      ensures f in files'
    {
      LiveExactly(files, tables, f);
      LiveExactly(files', tables, f);
    }
  }

  /** The offset behind a descriptor. */
  function OffsetAt(files: map<nat, File>, tables: Tables, t: nat, fd: nat): Option<int> {
    if t in tables && fd < 64 && tables[t][fd] in files then Some(files[tables[t][fd]].offset) else None
  }

  /** Setting a description's offset is seen through every descriptor that shares it and through no
      other. */
  lemma SharedOffset(files: map<nat, File>, tables: Tables, f: nat, off: int, t: nat, fd: nat)
    requires Counted(files, tables) && f in files && t in tables && fd < 64
    ensures OffsetAt(files[f := files[f].(offset := off)], tables, t, fd) == if (t, fd) in Refs(tables, f)
            then Some(off) else OffsetAt(files, tables, t, fd)
  {
  }
}
