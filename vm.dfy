/** The page-table operations that os/syscall.c and os/trap.c call.

    os/vm.h only declares them; their bodies are not part of this model. A
    user address space is modelled as a map from page-aligned virtual
    addresses to one of two kinds of entry — a lazy reservation (permission
    bits recorded, no frame yet) or a backed page (a physical frame and its
    permission bits) — and an address absent from the map is unmapped.
    Each operation's contract is what its call sites rely on; the bodies are
    one implementation that meets those contracts, and callers only ever see
    the contracts. */
module VM {
  import opened Machine

  datatype Mapping = Reserved(perm: int) | Backed(frame: u64, perm: int)

  /** A physical frame as `walkaddr` reports one: page aligned and distinct from the two
      codes 0 (absent) and 1 (reserved) that `walkaddr` also returns. */
  predicate IsFrame(pa: u64) {
    pa > 1 && pa % PAGE_SIZE == 0
  }

  class PageTable {
    var entries: map<u64, Mapping>

    ghost predicate Valid()
      reads this
    {
      forall va :: va in entries && entries[va].Backed? ==> IsFrame(entries[va].frame)
    }

    constructor ()
      ensures Valid() && entries == map[]
    {
      entries := map[];
    }

    /** `lazy_mappages(pt, va, PAGE_SIZE, perm)`: 0 on success, when the page was free and is
        now reserved with `perm`; otherwise (the page is in use, or no memory for the table
        itself) nothing changes. */
    method LazyMapPage(va: u64, perm: int) returns (res: int)
      requires Valid()
      modifies this
      ensures Valid()
      ensures res == 0 ==> va !in old(entries) && entries == old(entries)[va := Reserved(perm)]
      ensures res != 0 ==> entries == old(entries)
    {
      if va in entries {
        res := -1;
      } else {
        entries := entries[va := Reserved(perm)];
        res := 0;
      }
    }

    /** `lazy_uvmunmap(pt, va)`: drops a reservation. */
    method LazyUnmapPage(va: u64)
      requires Valid() && va in entries && entries[va].Reserved?
      modifies this
      ensures Valid()
      ensures entries == old(entries) - {va}
    {
      entries := entries - {va};
    }

    /** `uvmunmap(pt, va, 1, 1)`: unmaps one backed page and releases its frame (the frame
        allocator itself is not modelled). */
    method UnmapPage(va: u64)
      requires Valid() && va in entries && entries[va].Backed?
      modifies this
      ensures Valid()
      ensures entries == old(entries) - {va}
    {
      entries := entries - {va};
    }

    /** `walkaddr(pt, va)` for a page-aligned `va`: 0 when absent, 1 for a lazy reservation,
        otherwise the backing frame. */
    method Walk(va: u64) returns (pa: u64)
      requires Valid()
      ensures pa == 0 <==> va !in entries
      ensures pa == 1 <==> va in entries && entries[va].Reserved?
      ensures va in entries && entries[va].Backed? ==> pa == entries[va].frame
    {
      if va !in entries {
        pa := 0;
      } else {
        match entries[va]
        case Reserved(_) => pa := 1;
        case Backed(frame, _) => pa := frame;
      }
    }

    /** `user_pagefault(pt, fpage, mem)`: resolves a fault on a reserved page by installing the
        frame `mem` with the recorded permissions (0); any other page is unrecoverable and
        nothing changes (non-zero). */
    method UserPageFault(fpage: u64, mem: u64) returns (res: int)
      requires Valid()
      modifies this
      ensures Valid()
      ensures res == 0 ==> fpage in old(entries) && old(entries)[fpage].Reserved?
                           && entries == old(entries)[fpage := Backed(mem, old(entries)[fpage].perm)]
      ensures res != 0 ==> entries == old(entries)
    {
      if fpage in entries && entries[fpage].Reserved? && IsFrame(mem) {
        entries := entries[fpage := Backed(mem, entries[fpage].perm)];
        res := 0;
      } else {
        res := -1;
      }
    }
  }

  /** A fault on a reservation is resolved at most once: after a first successful
      resolution the page is backed, so a second fault at the same page cannot be resolved
      and leaves the mapping alone. */
  method FaultResolvesOnce(pt: PageTable, fpage: u64, mem1: u64, mem2: u64) returns (first: int, second: int)
    requires pt.Valid()
    modifies pt
    ensures first == 0 ==> second != 0 && fpage in old(pt.entries) && fpage in pt.entries && pt.entries[fpage] == Backed(mem1, old(pt.entries)[fpage].perm)
  {
    first := pt.UserPageFault(fpage, mem1);
    second := pt.UserPageFault(fpage, mem2);
  }
}
