/** The flat map of pages that the ELF loader and fork are written against is what the page-table walker
    implements: mapping a run of frames with mmu_map_user_range (src/mm/mmu/mmu.c) does to the one what
    UserMaps.MapRun does to the other. */
module UserTables {
  import opened Descriptors
  import opened PageTables
  import U = UserMaps

  /** Page p of the walker's view is as the flat map has it: there or not, with the same frame number and
      the same permission flags. */
  ghost predicate SamePage(view: View, table: U.PageMap, p: nat)
    requires p in view
  {
    && (p in table <==> PteValid(view[p]))
    && (p in table ==> Pfn(NextTable(view[p])) == table[p].pfn && view[p].bits & PERM_MASK == table[p].flags)
  }

  ghost predicate Stands(view: View, table: U.PageMap) {
    Total(view) && forall p: nat {:trigger view[p]} | p < VPN_LIMIT :: SamePage(view, table, p)
  }

  lemma MapRunIsMapped(view: View, now: View, table: U.PageMap, vpn: nat, pages: nat, pa: Frame, flags: bv64)
    requires Stands(view, table) && vpn + pages <= VPN_LIMIT
    requires RangeUpdated(view, now, vpn, pages, MapRule(vpn, pa, flags)) && Reaches(now, vpn, pages, pa, flags)
    ensures Stands(now, U.MapRun(table, vpn, Pfn(pa), pages, flags))
  {
    var table' := U.MapRun(table, vpn, Pfn(pa), pages, flags);
    forall p: nat {:trigger now[p]} | p < VPN_LIMIT
      ensures SamePage(now, table', p)
    {
      U.MapRunLookup(table, vpn, Pfn(pa), pages, flags, p);
      assert SamePage(view, table, p);
    }
  }

  /** mmu_map_user_range on both. */
  method MapBoth(pt: PageTable, ghost table: U.PageMap, vpn: nat, pa: Frame, pages: nat, flags: bv64)
    returns (done: nat, ghost table': U.PageMap)
    requires pt.Valid() && Stands(pt.view, table) && vpn + pages <= VPN_LIMIT
    requires FrameRun(pa, pages) && flags & PERM_MASK == flags
    modifies pt, pt.pool
    ensures pt.Valid() && done <= pages && (done < pages ==> pt.pool.free == {})
    ensures table' == U.MapRun(table, vpn, Pfn(pa), done, flags) && Stands(pt.view, table')
  {
    ghost var view := pt.view;
    done := pt.MapUserRange(vpn, pa, pages, flags);
    MapRunIsMapped(view, pt.view, table, vpn, done, pa, flags);
    table' := U.MapRun(table, vpn, Pfn(pa), done, flags);
  }
}
