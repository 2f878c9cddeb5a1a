/** A user page table as the flat map that mmu_map_user_range maintains (src/mm/mmu/mmu.c), and the
    record of a program segment (src/syscall/elf.h). */
module UserMaps {

  /** A page's mapping: the page frame and the descriptor flags. */
  datatype Leaf = Leaf(pfn: nat, flags: bv64)

  type PageMap = map<nat, Leaf>

  /** elf_region_t. */
  datatype Region = Region(phys: nat, pages: nat, va: nat, flags: bv32)

  /** mmu_map_user_range over a run of frames. */
  function MapRun(table: PageMap, page: nat, s: nat, pages: nat, flags: bv64): PageMap {
    if pages == 0 then table
    else MapRun(table, page, s, pages - 1, flags)[page + pages - 1 := Leaf(s + pages - 1, flags)]
  }

  ghost predicate SameEntry(table: PageMap, table': PageMap, v: nat) {
    (v in table' <==> v in table) && (v in table ==> table'[v] == table[v])
  }

  /** Exactly the pages of the run change, each to its frame of the run. */
  lemma {:induction false} MapRunLookup(table: PageMap, page: nat, s: nat, pages: nat, flags: bv64, v: nat)
    ensures var t := MapRun(table, page, s, pages, flags);
            if page <= v < page + pages then v in t && t[v] == Leaf(s + (v - page), flags) else SameEntry(table, t, v)
  {
    if pages > 0 {
      MapRunLookup(table, page, s, pages - 1, flags, v);
    }
  }
}
