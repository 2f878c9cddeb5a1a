/** The page-frame pool as its clients see it: pmm_allocate_page / pmm_free_page
    (src/mm/pmm/pmm.c) over the set of frames the allocator may hand out. */
module FramePools {
  import opened Descriptors

  lemma SomeMember<T>(s: set<T>) returns (x: T)
    requires s != {}
    ensures x in s
  {
    x :| x in s;
  }

  class FramePool {
    const managed: set<Frame>
    var free: set<Frame>
    // every frame actually given back so far, with multiplicity
    ghost var returned: multiset<Frame>

    ghost predicate Valid()
      reads this
    {
      && free <= managed
      && forall f <- managed :: FrameOk(f)
    }

    constructor (frames: set<Frame>)
      requires forall f <- frames :: FrameOk(f)
      ensures Valid() && managed == free == frames && returned == multiset{}
    {
      managed, free, returned := frames, frames, multiset{};
    }

    /** Fails (returns 0) exactly when no frame is free. */
    method Allocate() returns (f: Frame)
      requires Valid()
      modifies this
      ensures Valid() && returned == old(returned)
      ensures f == NULL <==> old(free) == {}
      ensures f == NULL ==> unchanged(this)
      ensures f != NULL ==> f in old(free) && free == old(free) - {f}
    {
      if free == {} {
        return NULL;
      }
      ghost var some := SomeMember(free);
      f :| f in free;
      free := free - {f};
    }

    /** A frame that is not managed, or is already free, is refused. */
    method Release(f: Frame)
      requires Valid()
      modifies this
      ensures Valid()
      ensures free == if f in managed then old(free) + {f} else old(free)
      ensures returned == if f in managed && f !in old(free) then old(returned) + multiset{f} else old(returned)
    {
      if f in managed && f !in free {
        free := free + {f};
        returned := returned + multiset{f};
      }
    }
  }
}
