/** The system calls of os/syscall.c that the kernel implements itself, and the dispatch
    from a system-call number to its handler.

    Console I/O, `copyin`/`copyout`, `fork`, `exec`, `wait`, the program loader and the
    cycle counter are outside this model: what they return is an input of `Dispatch`. */
module Syscall {
  import opened Machine
  import opened VM
  import opened Proc

  /** The user-accessible bit of a RISC-V page-table entry (bit 4). */
  const PTE_U: int := 16
  /** `1 << 30`, the largest length `sys_mmap` and `sys_munmap` accept. */
  const MMAP_MAX_LEN: int := 0x4000_0000
  const STDIN: int := 0
  const STDOUT: int := 1

  // ---------------------------------------------------------------------------------------
  // Argument checks and rounding

  /** `(start & 0xfff) == 0`: the low 12 bits of a word are its remainder modulo PAGE_SIZE. */
  predicate PageAligned(x: u64) {
    x % PAGE_SIZE == 0
  }

  /** `(port & 0x7) != 0 && (port & ~0x7) == 0` on a C `int`: some permission bit is set
      and no bit outside the three permission bits is. */
  function PortValid(port: i32): (b: bool)
    ensures b <==> 1 <= port <= 7
  {
    var w := (port % I32_MOD) as bv32;
    (w & 7) != 0 && (w & !7) == 0
  }

  /** The arguments `sys_mmap` does not reject outright. */
  predicate MmapArgsOk(start: u64, len: u64, port: i32) {
    PageAligned(start) && PortValid(port) && len <= MMAP_MAX_LEN
  }

  /** The arguments `sys_munmap` does not reject outright. */
  predicate MunmapArgsOk(start: u64, len: u64) {
    PageAligned(start) && len <= MMAP_MAX_LEN
  }

  /** `(len & ~0xfff) + ((len & 0xfff) > 0 ? PAGE_SIZE : 0)` on `uint64`: the smallest
      multiple of PAGE_SIZE that is at least `len`, for every length below the last page. */
  function RoundUp(len: u64): (r: u64)
    ensures len <= U64_MOD - PAGE_SIZE ==> r % PAGE_SIZE == 0 && len <= r < len + PAGE_SIZE
    ensures len % PAGE_SIZE == 0 ==> r == len
  {
    U64(len - len % PAGE_SIZE + (if len % PAGE_SIZE > 0 then PAGE_SIZE else 0))
  }

  /** A length `sys_mmap` or `sys_munmap` accepts rounds to a whole number of pages that is
      still accepted, and only the zero length rounds to zero. */
  lemma RoundUpBound(len: u64)
    requires len <= MMAP_MAX_LEN
    ensures RoundUp(len) <= MMAP_MAX_LEN && RoundUp(len) % PAGE_SIZE == 0
    ensures RoundUp(len) == 0 <==> len == 0
  {
    var r := RoundUp(len);
    assert MMAP_MAX_LEN % PAGE_SIZE == 0;
    if r > MMAP_MAX_LEN {
      AlignedGap(MMAP_MAX_LEN, r);
    }
  }

  /** `(port << 1) | PTE_U`: the three permission bits move to the R, W and X positions of a
      page-table entry, with the valid bit clear and the user bit set. */
  function MmapPerm(port: i32): (perm: int)
    requires 1 <= port <= 7
    ensures perm == 2 * port + PTE_U
  {
    (((port as bv8) << 1) | (PTE_U as bv8)) as int
  }

  // ---------------------------------------------------------------------------------------
  // Ranges of pages

  /** `va` is one of the pages `start + off` (offsets multiples of PAGE_SIZE below `span`),
      addresses computed on `uint64`. */
  predicate InPages(start: u64, span: int, va: u64) {
    var off := U64(va - start);
    off < span && off % PAGE_SIZE == 0
  }

  /** Every page of the range is unmapped in `m`. */
  ghost predicate PagesAbsent(m: map<u64, Mapping>, start: u64, span: int) {
    forall va: u64 :: InPages(start, span, va) ==> va !in m
  }

  /** `m` with every page of the range lazily reserved with `perm`. */
  function ReservePages(m: map<u64, Mapping>, start: u64, span: int, perm: int): map<u64, Mapping> {
    map va: u64 | 0 <= va < U64_MOD && (va in m || InPages(start, span, va)) ::
      if InPages(start, span, va) then Reserved(perm) else m[va]
  }

  /** `m` with every page of the range unmapped. */
  function DropPages(m: map<u64, Mapping>, start: u64, span: int): map<u64, Mapping> {
    map va | va in m && !InPages(start, span, va) :: m[va]
  }

  /** An empty range reserves and unmaps nothing. */
  lemma ReserveZero(m: map<u64, Mapping>, start: u64, perm: int)
    ensures ReservePages(m, start, 0, perm) == m && DropPages(m, start, 0) == m
    ensures PagesAbsent(m, start, 0)
  {
  }

  /** Page `start + off` is the page at offset `off` and no other. */
  lemma PageOffset(start: u64, off: int, va: u64)
    requires 0 <= off < U64_MOD
    ensures U64(va - start) == off <==> va == U64(start + off)
  {
    if va - start >= 0 {
      assert U64(va - start) == va - start;
    } else {
      assert U64(va - start) == va - start + U64_MOD;
    }
    if start + off < U64_MOD {
      assert U64(start + off) == start + off;
    } else {
      assert U64(start + off) == start + off - U64_MOD;
    }
  }

  /** A range one page longer holds one more page: the one at its old end. */
  lemma InPagesStep(start: u64, i: int, va: u64)
    requires 0 <= i && i % PAGE_SIZE == 0 && i + PAGE_SIZE < U64_MOD
    ensures InPages(start, i + PAGE_SIZE, va) <==> InPages(start, i, va) || va == U64(start + i)
  {
    PageOffset(start, i, va);
  }

  lemma ReserveStep(m: map<u64, Mapping>, start: u64, i: int, perm: int)
    requires 0 <= i && i % PAGE_SIZE == 0 && i + PAGE_SIZE < U64_MOD
    ensures ReservePages(m, start, i + PAGE_SIZE, perm) == ReservePages(m, start, i, perm)[U64(start + i) := Reserved(perm)]
  {
    forall va: u64
      ensures InPages(start, i + PAGE_SIZE, va) <==> InPages(start, i, va) || va == U64(start + i)
    {
      InPagesStep(start, i, va);
    }
  }

  lemma DropStep(m: map<u64, Mapping>, start: u64, j: int)
    requires 0 <= j && j % PAGE_SIZE == 0 && j + PAGE_SIZE < U64_MOD
    ensures DropPages(m, start, j + PAGE_SIZE) == DropPages(m, start, j) - {U64(start + j)}
  {
    var a := DropPages(m, start, j + PAGE_SIZE);
    var b := DropPages(m, start, j) - {U64(start + j)};
    forall va | va in m
      ensures (va in a <==> va in b) && (va in a ==> a[va] == m[va] && b[va] == m[va])
    {
      InPagesStep(start, j, va);
    }
    assert a.Keys == b.Keys;
  }

  /** Reserving a range of free pages and then unmapping the same range gives back the
      address space it started from. */
  lemma ReserveDropRoundTrip(m: map<u64, Mapping>, start: u64, span: int, perm: int)
    requires PagesAbsent(m, start, span)
    ensures DropPages(ReservePages(m, start, span, perm), start, span) == m
  {
    var r := DropPages(ReservePages(m, start, span, perm), start, span);
    forall va | va in m
      ensures va in r && r[va] == m[va]
    {
    }
  }

  // ---------------------------------------------------------------------------------------
  // sys_mmap

  /** The new `max_page` of a successful `sys_mmap`: the larger of the old one and the page
      number just past `start + len` (on 64-bit words) plus one. */
  function MaxPageAfter(maxPage: u64, start: u64, rlen: u64): (r: u64)
    ensures r >= maxPage && r >= U64(start + rlen) / PAGE_SIZE + 1
    ensures r == maxPage || r == U64(start + rlen) / PAGE_SIZE + 1
  {
    var top := U64(start + rlen) / PAGE_SIZE + 1;
    if maxPage > top then maxPage else top
  }

  /** The page offsets `j` the rollback loop of `sys_mmap` visits after `lazy_mappages`
      failed at offset `i`, as written: `j` is a C `int` stepping by PAGE_SIZE from 0 while
      `j < i - 1`, compared as `uint64`, until the addition overflows. */
  predicate RollbackVisitsAsWritten(i: u64, j: int) {
    0 <= j <= I32_MAX && j % PAGE_SIZE == 0 && j < U64(i - 1)
  }

  /** The page offsets a rollback must visit: exactly the pages reserved before the failure. */
  predicate RollbackVisits(i: u64, j: int) {
    0 <= j < i && j % PAGE_SIZE == 0
  }

  /** When the failure is at a later page, the rollback as written visits exactly the pages
      reserved before it. */
  lemma RollbackAsWrittenAgrees(i: u64, j: int)
    requires 0 < i <= MMAP_MAX_LEN && i % PAGE_SIZE == 0
    ensures RollbackVisitsAsWritten(i, j) <==> RollbackVisits(i, j)
  {
  }

  /** When the very first page fails, nothing has been reserved, yet `i - 1` wraps to
      2^64 - 1 and the rollback as written visits every page offset an `int` can reach,
      starting with `start` itself, where it removes a mapping that this call did not make. */
  lemma RollbackAsWrittenWrapsAtFirstPage(j: int)
    requires 0 <= j <= I32_MAX && j % PAGE_SIZE == 0
    ensures RollbackVisitsAsWritten(0, j) && !RollbackVisits(0, j)
  {
  }

  /** During the rollback, the next page to undo is still reserved. */
  lemma StillReserved(before: map<u64, Mapping>, start: u64, i: int, j: int, perm: int)
    requires 0 <= j < i <= MMAP_MAX_LEN && j % PAGE_SIZE == 0
    ensures var m := DropPages(ReservePages(before, start, i, perm), start, j);
            U64(start + j) in m && m[U64(start + j)] == Reserved(perm)
  {
    var va := U64(start + j);
    PageOffset(start, j, va);
    assert InPages(start, i, va) && !InPages(start, j, va);
  }

  /** One step of the mapping loop: reserve the page at offset `i`. On success one more
      page of the range is reserved, and it was free. */
  method ReserveOne(pt: PageTable, start: u64, i: int, perm: int, ghost before: map<u64, Mapping>)
    returns (res: int)
    requires pt.Valid() && 0 <= i < MMAP_MAX_LEN && i % PAGE_SIZE == 0
    requires PagesAbsent(before, start, i) && pt.entries == ReservePages(before, start, i, perm)
    modifies pt
    ensures pt.Valid()
    ensures res == 0 ==> PagesAbsent(before, start, i + PAGE_SIZE)
                         && pt.entries == ReservePages(before, start, i + PAGE_SIZE, perm)
    ensures res != 0 ==> pt.entries == old(pt.entries)
  {
    res := pt.LazyMapPage(U64(start + i), perm);
    if res == 0 {
      forall va: u64 | InPages(start, i + PAGE_SIZE, va)
        ensures va !in before
      {
        InPagesStep(start, i, va);
      }
      ReserveStep(before, start, i, perm);
    }
  }

  /** One step of the rollback loop: undo the reservation at offset `j`. */
  method UndoOne(pt: PageTable, start: u64, i: int, j: int, perm: int, ghost before: map<u64, Mapping>)
    requires pt.Valid() && 0 <= j < i <= MMAP_MAX_LEN && j % PAGE_SIZE == 0
    requires pt.entries == DropPages(ReservePages(before, start, i, perm), start, j)
    modifies pt
    ensures pt.Valid() && pt.entries == DropPages(ReservePages(before, start, i, perm), start, j + PAGE_SIZE)
  {
    StillReserved(before, start, i, j, perm);
    pt.LazyUnmapPage(U64(start + j));
    DropStep(ReservePages(before, start, i, perm), start, j);
  }

  /** Undoes the reservations of the first `i` bytes of the range, visiting exactly the
      offsets `RollbackVisits` allows. */
  method Rollback(pt: PageTable, start: u64, i: int, perm: int, ghost before: map<u64, Mapping>)
    requires pt.Valid() && 0 <= i <= MMAP_MAX_LEN && i % PAGE_SIZE == 0
    requires PagesAbsent(before, start, i) && pt.entries == ReservePages(before, start, i, perm)
    modifies pt
    ensures pt.Valid() && pt.entries == before
  {
    var j := 0;
    while j < i
      invariant 0 <= j <= i && j % PAGE_SIZE == 0
      invariant pt.Valid() && pt.entries == DropPages(ReservePages(before, start, i, perm), start, j)
    {
      assert RollbackVisits(i, j);
      UndoOne(pt, start, i, j, perm, before);
      j := j + PAGE_SIZE;
    }
    ReserveDropRoundTrip(before, start, i, perm);
  }

  /** The mapping loop of `sys_mmap` with its rollback: reserves every page of the range
      (0), or fails (-1) and leaves the table as it was. */
  method MapRange(pt: PageTable, start: u64, rlen: int, perm: int) returns (r: int)
    requires pt.Valid() && 0 <= rlen <= MMAP_MAX_LEN && rlen % PAGE_SIZE == 0
    modifies pt
    ensures pt.Valid()
    ensures r == 0 ==> PagesAbsent(old(pt.entries), start, rlen)
                       && pt.entries == ReservePages(old(pt.entries), start, rlen, perm)
    ensures r != 0 ==> r == -1 && pt.entries == old(pt.entries)
  {
    var i := 0;
    ReserveZero(old(pt.entries), start, perm);
    while i < rlen
      invariant 0 <= i <= rlen && i % PAGE_SIZE == 0
      invariant pt.Valid() && pt.entries == ReservePages(old(pt.entries), start, i, perm)
      invariant PagesAbsent(old(pt.entries), start, i)
    {
      var res := ReserveOne(pt, start, i, perm, old(pt.entries));
      if res != 0 {
        Rollback(pt, start, i, perm, old(pt.entries));
        return -1;
      }
      i := i + PAGE_SIZE;
    }
    r := 0;
  }

  /** `sys_mmap(start, len, port, ...)` in the lazy build, with the rollback bounded by the
      pages actually reserved. Bad arguments and a zero length change nothing. Otherwise the
      rounded range is reserved page by page with permission `MmapPerm(port)`; success (0)
      means every page of it was free and is now reserved and `max_page` covers it; failure
      (-1) leaves the address space and the process exactly as they were. */
  method SysMmap(k: ProcTable, pt: PageTable, start: u64, len: u64, port: i32) returns (r: i32)
    requires k.InUserProcess() && pt.Valid()
    modifies pt, k.pool
    ensures k.InUserProcess() && pt.Valid()
    ensures r == 0 || r == -1
    ensures !MmapArgsOk(start, len, port) ==> r == -1
    ensures MmapArgsOk(start, len, port) && len == 0 ==> r == 0
    ensures r == -1 || len == 0 ==> pt.entries == old(pt.entries) && k.pool[..] == old(k.pool[..])
    ensures MmapArgsOk(start, len, port) && len > 0 && r == 0 ==>
              var c := k.current.index;
              var rlen := RoundUp(len);
              && PagesAbsent(old(pt.entries), start, rlen)
              && pt.entries == ReservePages(old(pt.entries), start, rlen, MmapPerm(port))
              && k.pool[..] == old(k.pool[..])[c := old(k.pool[c]).(maxPage := MaxPageAfter(old(k.pool[c]).maxPage, start, rlen))]
  {
    if !PageAligned(start) || !PortValid(port) || len > MMAP_MAX_LEN {
      return -1;
    }
    if len == 0 {
      return 0;
    }
    var rlen := RoundUp(len);
    RoundUpBound(len);
    var res := MapRange(pt, start, rlen, MmapPerm(port));
    if res != 0 {
      return -1;
    }
    var c := k.current.index;
    k.pool[c] := k.pool[c].(maxPage := MaxPageAfter(k.pool[c].maxPage, start, rlen));
    r := 0;
  }

  // ---------------------------------------------------------------------------------------
  // sys_munmap

  /** The page at offset `off` of a range starting at `start`. */
  function PageAt(start: u64, off: int): u64 {
    U64(start + off)
  }

  /** Every page at an offset in `[lo, hi)` is mapped in `m`. */
  ghost predicate PagesPresent(m: map<u64, Mapping>, start: u64, lo: int, hi: int) {
    forall o :: lo <= o < hi && o % PAGE_SIZE == 0 ==> PageAt(start, o) in m
  }

  /** The number of bytes the unmapping loop covers. It runs while `a < start + len`, the end
      computed on `uint64`, so a range that reaches the top of the address space wraps to
      an end below `start` and covers nothing. */
  function MunmapSpan(start: u64, rlen: u64): (span: int)
    ensures start + rlen < U64_MOD ==> span == rlen
    ensures start + rlen >= U64_MOD ==> span == 0
  {
    var end := U64(start + rlen);
    if end > start then end - start else 0
  }

  /** The offset of the first unmapped page at or after `off` in a range of `span` bytes. */
  function FirstAbsent(m: map<u64, Mapping>, start: u64, span: int, off: nat): (r: Option<nat>)
    requires off % PAGE_SIZE == 0
    ensures r.None? <==> PagesPresent(m, start, off, span)
    ensures r.Some? ==> off <= r.value < span && r.value % PAGE_SIZE == 0 && PageAt(start, r.value) !in m
                        && PagesPresent(m, start, off, r.value)
    decreases span - off
  {
    if off >= span then None
    else if PageAt(start, off) !in m then Some(off)
    else
      var r := FirstAbsent(m, start, span, off + PAGE_SIZE);
      PresentCons(m, start, off, span);
      if r.Some? then PresentCons(m, start, off, r.value); r else r
  }

  /** Consecutive page offsets are a page apart. */
  lemma AlignedGap(off: int, o: int)
    requires off % PAGE_SIZE == 0 && o % PAGE_SIZE == 0 && off < o
    ensures off + PAGE_SIZE <= o
  {
    assert off == PAGE_SIZE * (off / PAGE_SIZE) && o == PAGE_SIZE * (o / PAGE_SIZE);
  }

  /** A run of mapped pages from `off` is the page at `off` followed by the run from the
      next page. */
  lemma PresentCons(m: map<u64, Mapping>, start: u64, off: int, hi: int)
    requires off % PAGE_SIZE == 0
    ensures PagesPresent(m, start, off, hi) <==>
              (off >= hi || PageAt(start, off) in m) && PagesPresent(m, start, off + PAGE_SIZE, hi)
  {
    if (off >= hi || PageAt(start, off) in m) && PagesPresent(m, start, off + PAGE_SIZE, hi) {
      forall o | off <= o < hi && o % PAGE_SIZE == 0
        ensures PageAt(start, o) in m
      {
        if o != off {
          AlignedGap(off, o);
        }
      }
    }
  }

  /** The end of a page-aligned range is page aligned, also when it wraps. */
  lemma AlignedEnd(start: u64, rlen: int)
    requires start % PAGE_SIZE == 0 && 0 <= rlen < U64_MOD && rlen % PAGE_SIZE == 0
    ensures U64(start + rlen) % PAGE_SIZE == 0
  {
    if start + rlen >= U64_MOD {
      assert U64(start + rlen) == start + rlen - U64_MOD;
    }
  }

  /** The next page of an aligned walk from `start` that has not reached `end` lies within
      the range. */
  lemma NextPage(start: int, a: int, end: int)
    requires start % PAGE_SIZE == 0 && a % PAGE_SIZE == 0 && end % PAGE_SIZE == 0 && start <= a < end
    ensures (a - start) % PAGE_SIZE == 0 && a + PAGE_SIZE <= end && (a + PAGE_SIZE) % PAGE_SIZE == 0
  {
  }

  /** A mapped page is skipped by the search for the first unmapped one. */
  lemma FirstAbsentSkip(m: map<u64, Mapping>, start: u64, span: int, off: nat)
    requires off % PAGE_SIZE == 0 && off < span && PageAt(start, off) in m
    ensures FirstAbsent(m, start, span, off) == FirstAbsent(m, start, span, off + PAGE_SIZE)
  {
  }

  /** One step of the lazy unmapping loop at the page `a`, which Walk found mapped. */
  method UnmapOne(pt: PageTable, start: u64, off: int, ghost before: map<u64, Mapping>)
    requires pt.Valid() && 0 <= off < MMAP_MAX_LEN && off % PAGE_SIZE == 0 && start + off < U64_MOD
    requires pt.entries == DropPages(before, start, off) && PageAt(start, off) in pt.entries
    modifies pt
    ensures pt.Valid() && pt.entries == DropPages(before, start, off + PAGE_SIZE)
    ensures PageAt(start, off) in before
  {
    var a := start + off;
    var pa := pt.Walk(a);
    if pa == 1 {
      pt.LazyUnmapPage(a);
    } else {
      pt.UnmapPage(a);
    }
    DropStep(before, start, off);
  }

  /** One iteration of the lazy unmapping loop at offset `off`: stops at an unmapped page,
      otherwise unmaps the page and moves on. */
  method UnmapStep(pt: PageTable, start: u64, off: int, span: int, ghost before: map<u64, Mapping>,
                   ghost fa0: Option<nat>)
    returns (stop: bool)
    requires pt.Valid() && 0 <= off < span <= MMAP_MAX_LEN && off % PAGE_SIZE == 0 && start + span < U64_MOD
    requires span % PAGE_SIZE == 0
    requires pt.entries == DropPages(before, start, off) && fa0 == FirstAbsent(before, start, span, off)
    modifies pt
    ensures pt.Valid() && off + PAGE_SIZE <= span && (off + PAGE_SIZE) % PAGE_SIZE == 0
    ensures stop ==> fa0 == Some(off) && pt.entries == old(pt.entries)
    ensures !stop ==> fa0 == FirstAbsent(before, start, span, off + PAGE_SIZE)
                      && pt.entries == DropPages(before, start, off + PAGE_SIZE)
  {
    NextPage(0, off, span);
    var pa := pt.Walk(start + off);
    if pa == 0 {
      PageOffset(start, off, start + off);
      return true;
    }
    UnmapOne(pt, start, off, before);
    FirstAbsentSkip(before, start, span, off);
    stop := false;
  }

  /** The span the unmapping loop covers is a page-aligned part of the address space. */
  lemma SpanFacts(start: u64, rlen: u64)
    requires PageAligned(start) && rlen <= MMAP_MAX_LEN && rlen % PAGE_SIZE == 0
    ensures var span := MunmapSpan(start, rlen);
            0 <= span <= MMAP_MAX_LEN && span % PAGE_SIZE == 0 && start + span < U64_MOD
  {
    AlignedEnd(start, rlen);
  }

  /** The lazy unmapping loop over the `span` bytes from `start`, stopping with -1 at the
      first unmapped page. */
  method UnmapPrefix(pt: PageTable, start: u64, span: int) returns (r: i32)
    requires pt.Valid() && PageAligned(start) && 0 <= span <= MMAP_MAX_LEN && span % PAGE_SIZE == 0
    requires start + span < U64_MOD
    modifies pt
    ensures pt.Valid()
    ensures var fa := FirstAbsent(old(pt.entries), start, span, 0);
            && (fa.None? ==> r == 0 && pt.entries == DropPages(old(pt.entries), start, span))
            && (fa.Some? ==> r == -1 && pt.entries == DropPages(old(pt.entries), start, fa.value))
  {
    ghost var before := pt.entries;
    ghost var fa0 := FirstAbsent(before, start, span, 0);
    ReserveZero(before, start, 0);
    var off := 0;
    while off < span
      invariant 0 <= off <= span && off % PAGE_SIZE == 0
      invariant pt.Valid() && pt.entries == DropPages(before, start, off)
      invariant fa0 == FirstAbsent(before, start, span, off)
    {
      var stop := UnmapStep(pt, start, off, span, before, fa0);
      if stop {
        return -1;
      }
      off := off + PAGE_SIZE;
    }
    r := 0;
  }

  /** The lazy unmapping loop of `sys_munmap` over `rlen` bytes from `start`. The source's
      guard `a < start + len` on `uint64` admits exactly the offsets below
      MunmapSpan(start, rlen). */
  method UnmapAscending(pt: PageTable, start: u64, rlen: u64) returns (r: i32)
    requires pt.Valid() && PageAligned(start) && rlen <= MMAP_MAX_LEN && rlen % PAGE_SIZE == 0
    modifies pt
    ensures pt.Valid()
    ensures var span := MunmapSpan(start, rlen);
            var fa := FirstAbsent(old(pt.entries), start, span, 0);
            && (fa.None? ==> r == 0 && pt.entries == DropPages(old(pt.entries), start, span))
            && (fa.Some? ==> r == -1 && pt.entries == DropPages(old(pt.entries), start, fa.value))
  {
    SpanFacts(start, rlen);
    r := UnmapPrefix(pt, start, MunmapSpan(start, rlen));
  }

  /** `sys_munmap(start, len)` in the lazy build, as written. Bad arguments and a zero
      length change nothing. Otherwise the pages of the rounded range are visited in
      ascending order and each reserved or backed page is unmapped; at the first unmapped
      page the call returns -1, and the pages before it stay unmapped. */
  method SysMunmap(pt: PageTable, start: u64, len: u64) returns (r: i32)
    requires pt.Valid()
    modifies pt
    ensures pt.Valid()
    ensures !MunmapArgsOk(start, len) ==> r == -1 && pt.entries == old(pt.entries)
    ensures MunmapArgsOk(start, len) && len == 0 ==> r == 0 && pt.entries == old(pt.entries)
    ensures MunmapArgsOk(start, len) && len > 0 ==>
              var span := MunmapSpan(start, RoundUp(len));
              var fa := FirstAbsent(old(pt.entries), start, span, 0);
              && (fa.None? ==> r == 0 && pt.entries == DropPages(old(pt.entries), start, span))
              && (fa.Some? ==> r == -1 && pt.entries == DropPages(old(pt.entries), start, fa.value))
  {
    if !PageAligned(start) || len > MMAP_MAX_LEN {
      return -1;
    }
    if len == 0 {
      return 0;
    }
    r := UnmapAscending(pt, start, RoundUp(len));
  }

  /** Whether every page of the range is mapped, found by walking the range in order. */
  method AllMapped(pt: PageTable, start: u64, span: int) returns (b: bool)
    requires pt.Valid() && PageAligned(start) && 0 <= span <= MMAP_MAX_LEN && span % PAGE_SIZE == 0
    requires start + span < U64_MOD
    ensures b <==> FirstAbsent(pt.entries, start, span, 0).None?
  {
    var off := 0;
    while off < span
      invariant 0 <= off <= span && off % PAGE_SIZE == 0
      invariant FirstAbsent(pt.entries, start, span, 0) == FirstAbsent(pt.entries, start, span, off)
    {
      NextPage(0, off, span);
      assert PageAt(start, off) == start + off;
      var pa := pt.Walk(start + off);
      if pa == 0 {
        return false;
      }
      FirstAbsentSkip(pt.entries, start, span, off);
      off := off + PAGE_SIZE;
    }
    b := true;
  }

  /** While a fully mapped range is unmapped in order, the next page is still mapped. */
  lemma StillMapped(m: map<u64, Mapping>, start: u64, off: int, span: int)
    requires PagesPresent(m, start, 0, span) && 0 <= off < span && off % PAGE_SIZE == 0 && span < U64_MOD
    ensures PageAt(start, off) in DropPages(m, start, off)
  {
    PageOffset(start, off, PageAt(start, off));
  }

  /** Unmaps every page of a range that is entirely mapped. */
  method UnmapAll(pt: PageTable, start: u64, span: int)
    requires pt.Valid() && PageAligned(start) && 0 <= span <= MMAP_MAX_LEN && span % PAGE_SIZE == 0
    requires start + span < U64_MOD && PagesPresent(pt.entries, start, 0, span)
    modifies pt
    ensures pt.Valid() && pt.entries == DropPages(old(pt.entries), start, span)
  {
    ReserveZero(pt.entries, start, 0);
    ghost var before := pt.entries;
    var off := 0;
    while off < span
      invariant 0 <= off <= span && off % PAGE_SIZE == 0
      invariant pt.Valid() && pt.entries == DropPages(before, start, off)
    {
      NextPage(0, off, span);
      StillMapped(before, start, off, span);
      UnmapOne(pt, start, off, before);
      off := off + PAGE_SIZE;
    }
  }

  /** `sys_munmap` made atomic, the way the eager build checks every page before unmapping
      any: when some page of the range is unmapped it returns -1 and changes nothing;
      otherwise it unmaps the whole range and returns 0. */
  method SysMunmapChecked(pt: PageTable, start: u64, len: u64) returns (r: i32)
    requires pt.Valid()
    modifies pt
    ensures pt.Valid()
    ensures !MunmapArgsOk(start, len) ==> r == -1 && pt.entries == old(pt.entries)
    ensures MunmapArgsOk(start, len) && len == 0 ==> r == 0 && pt.entries == old(pt.entries)
    ensures MunmapArgsOk(start, len) && len > 0 ==>
              var span := MunmapSpan(start, RoundUp(len));
              var fa := FirstAbsent(old(pt.entries), start, span, 0);
              && (fa.None? ==> r == 0 && pt.entries == DropPages(old(pt.entries), start, span))
              && (fa.Some? ==> r == -1 && pt.entries == old(pt.entries))
  {
    if !PageAligned(start) || len > MMAP_MAX_LEN {
      return -1;
    }
    if len == 0 {
      return 0;
    }
    var span := MunmapSpan(start, RoundUp(len));
    var mapped := AllMapped(pt, start, span);
    if !mapped {
      return -1;
    }
    UnmapAll(pt, start, span);
    r := 0;
  }

  /** The lazy `sys_munmap` as written is not atomic: on an address space where only the
      page at 0 is reserved, unmapping two pages from 0 finds the second page unmapped and
      returns -1 after it has already removed the first. */
  lemma MunmapAsWrittenNotAtomic()
    ensures var m := map[0 := Reserved(MmapPerm(1))];
            && FirstAbsent(m, 0, 2 * PAGE_SIZE, 0) == Some(PAGE_SIZE)
            && DropPages(m, 0, PAGE_SIZE) == map[] != m
  {
    var m := map[0 := Reserved(MmapPerm(1))];
    assert PageAt(0, 0) in m;
    assert PageAt(0, PAGE_SIZE) !in m;
    assert FirstAbsent(m, 0, 2 * PAGE_SIZE, PAGE_SIZE) == Some(PAGE_SIZE);
    assert InPages(0, PAGE_SIZE, 0);
    assert 0 in m;
  }

  /** `sys_munmap` undoes `sys_mmap`: after a range of free pages that does not reach the top
      of the address space has been reserved, unmapping it finds every page mapped and gives
      back the original address space. */
  lemma MmapThenMunmap(m: map<u64, Mapping>, start: u64, rlen: u64, perm: int)
    requires PagesAbsent(m, start, rlen) && start + rlen < U64_MOD
    ensures var m' := ReservePages(m, start, rlen, perm);
            && MunmapSpan(start, rlen) == rlen
            && FirstAbsent(m', start, rlen, 0) == None
            && DropPages(m', start, rlen) == m
  {
    var m' := ReservePages(m, start, rlen, perm);
    forall o | 0 <= o < rlen && o % PAGE_SIZE == 0
      ensures PageAt(start, o) in m'
    {
      PageOffset(start, o, PageAt(start, o));
    }
    ReserveDropRoundTrip(m, start, rlen, perm);
  }

  // ---------------------------------------------------------------------------------------
  // Scheduling parameters, heap, process identity, time

  /** `BIG_STRIDE / prio`: the pass of a process of priority `prio`, the largest value whose
      product with the priority stays within BIG_STRIDE. */
  function Pass(bigStride: nat, prio: int): (pass: int)
    requires prio > 0
    ensures 0 <= pass && pass * prio <= bigStride < (pass + 1) * prio
  {
    bigStride / prio
  }

  /** A higher priority never gets a larger pass. */
  lemma PassAntitone(bigStride: nat, p1: int, p2: int)
    requires 0 < p1 <= p2
    ensures Pass(bigStride, p2) <= Pass(bigStride, p1)
  {
    var q1 := Pass(bigStride, p1);
    var q2 := Pass(bigStride, p2);
    MulMonotone(p1, p2, q2);
    FloorBound(bigStride, p1, q2);
  }

  lemma MulMonotone(a: int, b: int, c: nat)
    requires a <= b
    ensures c * a <= c * b
  {
  }

  /** Any `q` with `q * p <= x` is at most the floor of `x / p`. */
  lemma FloorBound(x: nat, p: int, q: int)
    requires p > 0 && q * p <= x
    ensures q <= x / p
  {
    var d := x / p;
    assert x < (d + 1) * p;
    assert (q - d - 1) * p == q * p - (d + 1) * p;
    NegativeFactor(q - d - 1, p);
  }

  lemma NegativeFactor(a: int, p: int)
    requires p > 0 && a * p < 0
    ensures a < 0
  {
  }

  /** `sys_set_priority(prio)`: a priority of at most 1 is refused with -1 and changes
      nothing; otherwise the current process gets the priority and the matching pass, and the
      priority is returned. */
  method SysSetPriority(k: ProcTable, prio: i64) returns (r: u64)
    requires k.InUserProcess()
    modifies k.pool
    ensures k.InUserProcess()
    ensures prio <= 1 ==> r == U64(-1) && k.pool[..] == old(k.pool[..])
    ensures prio > 1 ==> var c := k.current.index;
              && r == prio
              && k.pool[..] == old(k.pool[..])[c := old(k.pool[c]).(prio := prio, pass := Pass(k.bigStride, prio))]
  {
    if prio <= 1 {
      return U64(-1);
    }
    var c := k.current.index;
    k.pool[c] := k.pool[c].(prio := prio, pass := Pass(k.bigStride, prio));
    r := prio;
  }

  /** `sys_sbrk(n)`: returns the break from before the call when `growproc` succeeds and -1
      (changing nothing) when it fails. */
  method SysSbrk(k: ProcTable, n: i32, alloc: (u64, u64) -> u64, dealloc: (u64, u64) -> u64) returns (r: u64)
    requires k.InUserProcess()
    modifies k.pool
    ensures k.InUserProcess()
    ensures var c := k.current.index;
            var p := old(k.pool[c]);
            var g := GrowBreak(p.programBrk, p.heapBottom, n, alloc, dealloc);
            && (g.None? ==> r == U64(-1) && k.pool[..] == old(k.pool[..]))
            && (g.Some? ==> r == p.programBrk && k.pool[..] == old(k.pool[..])[c := p.(programBrk := g.value)])
  {
    var addr := k.pool[k.current.index].programBrk;
    var res := k.GrowProc(n, alloc, dealloc);
    if res < 0 {
      return U64(-1);
    }
    r := addr;
  }

  /** `sys_getppid`: the parent's pid, or the idle process's pid for a process without
      parent. The parent slot is read as it is now, whatever it holds. */
  method SysGetPpid(k: ProcTable) returns (r: u64)
    requires k.InUserProcess()
    ensures var p := k.pool[k.current.index];
            && (p.parent.None? ==> r == IDLE_PID)
            && (p.parent.Some? ==> r == U64(k.pool[p.parent.value].pid))
  {
    var p := k.pool[k.current.index];
    if p.parent.None? {
      r := IDLE_PID;
    } else {
      r := U64(k.pool[p.parent.value].pid);
    }
  }

  /** The `TimeVal` `sys_gettimeofday` copies out (two `uint64` fields). */
  datatype TimeVal = TimeVal(sec: int, usec: int)

  /** The time `sys_gettimeofday` reports for a cycle count at `cpuFreq` cycles per second:
      whole seconds and the microseconds of the unfinished second, the product computed on
      `uint64`. */
  function TimeOfDay(cycle: u64, cpuFreq: nat): (t: TimeVal)
    requires 0 < cpuFreq < U64_MOD
    ensures t.sec * cpuFreq <= cycle < (t.sec + 1) * cpuFreq
  {
    DivBounds(cycle, cpuFreq);
    TimeVal(cycle / cpuFreq, U64((cycle % cpuFreq) * 1000000) / cpuFreq)
  }

  /** The microseconds are below a million at every frequency: when the product wraps, the
      frequency is above 2^64 / 10^6 and any `uint64` divided by it is below 10^6. While the
      product cannot overflow, which holds for every frequency up to 2^64 / 10^6 cycles per
      second, they are the fraction of the unfinished second rounded down. */
  lemma TimeOfDayCorrect(cycle: u64, cpuFreq: nat)
    requires 0 < cpuFreq < U64_MOD
    ensures TimeOfDay(cycle, cpuFreq).usec < 1000000
    ensures var t := TimeOfDay(cycle, cpuFreq);
            cpuFreq * 1000000 <= U64_MOD ==>
              t.usec * cpuFreq <= (cycle % cpuFreq) * 1000000 < (t.usec + 1) * cpuFreq
  {
    DivBounds(cycle, cpuFreq);
    var rem := cycle % cpuFreq;
    var v := U64(rem * 1000000);
    assert rem * 1000000 < cpuFreq * 1000000;
    if rem * 1000000 < U64_MOD {
      assert v == rem * 1000000;
    } else {
      assert v < U64_MOD <= rem * 1000000;
    }
    QuotientBelow(v, cpuFreq);
    if cpuFreq * 1000000 <= U64_MOD {
      assert v == rem * 1000000;
      DivBounds(rem * 1000000, cpuFreq);
    }
  }

  /** Euclidean division brackets its dividend. */
  lemma DivBounds(a: nat, b: nat)
    requires b > 0
    ensures (a / b) * b <= a < (a / b + 1) * b
  {
  }

  /** A dividend below a million times the divisor gives a quotient below a million. */
  lemma QuotientBelow(v: nat, cpuFreq: nat)
    requires 0 < cpuFreq && v < cpuFreq * 1000000
    ensures v / cpuFreq < 1000000
  {
    DivBounds(v, cpuFreq);
  }

  // ---------------------------------------------------------------------------------------
  // sys_spawn

  /** The number of free slots. */
  function UnusedCount(s: seq<Proc>): (n: nat)
    ensures n <= |s|
  {
    if s == [] then 0 else (if s[|s| - 1].state == Unused then 1 else 0) + UnusedCount(s[..|s| - 1])
  }

  /** Replacing one slot changes the number of free slots by the difference it makes. */
  lemma {:induction false} UnusedCountUpdate(s: seq<Proc>, i: nat, p: Proc)
    requires i < |s|
    ensures UnusedCount(s[i := p]) + (if s[i].state == Unused then 1 else 0)
            == UnusedCount(s) + (if p.state == Unused then 1 else 0)
  {
    if i < |s| - 1 {
      assert s[i := p][..|s| - 1] == s[..|s| - 1][i := p];
      UnusedCountUpdate(s[..|s| - 1], i, p);
    } else {
      assert s[i := p][..|s| - 1] == s[..|s| - 1];
    }
  }

  /** `sys_spawn` as written, with the result of `get_id_by_name` as `nameId` and the image
      `loader` writes as `img`; the program name is read by `copyinstr`, and `add_task` is
      not part of this model. When no slot is free it returns -1. When the name is unknown
      it returns -1 too, but the slot `allocproc` claimed stays USED: one slot fewer is free
      although nothing was spawned. Otherwise the claimed slot is loaded, its parent is the
      caller and its pid is returned. */
  method SysSpawnAsWritten(k: ProcTable, nameId: int, img: Image) returns (r: u64)
    requires k.InUserProcess()
    modifies k, k.pool
    ensures k.InUserProcess() && k.current == old(k.current) && k.idle == old(k.idle)
    ensures var f := FirstInState(old(k.pool[..]), Unused, 0);
            && (f.None? ==> r == U64(-1) && k.pool[..] == old(k.pool[..]) && k.nextPid == old(k.nextPid))
            && (f.Some? ==> k.nextPid == old(k.nextPid) + 1)
            && (f.Some? && nameId < 0 ==>
                  r == U64(-1) && k.pool[..] == old(k.pool[..])[f.value := k.Claimed(old(k.pool[f.value]), old(k.nextPid))])
            && (f.Some? && nameId >= 0 ==>
                  r == U64(old(k.nextPid))
                  && k.pool[..] == old(k.pool[..])[f.value := Loaded(k.Claimed(old(k.pool[f.value]), old(k.nextPid)), img).(parent := Some(k.current.index))])
  {
    var np := k.AllocProc();
    if np.None? {
      return U64(-1);
    }
    var i := np.value;
    if nameId < 0 {
      return U64(-1);
    }
    k.Load(i, img);
    k.SetParent(i, k.current.index);
    r := U64(k.pool[i].pid);
  }

  /** What the failed spawn as written leaves behind: claiming a free slot and keeping it
      makes one slot fewer free. */
  lemma SpawnAsWrittenLeaksSlot(k: ProcTable, s: seq<Proc>, i: nat, pid: int)
    requires i < |s| && s[i].state == Unused
    ensures UnusedCount(s[i := k.Claimed(s[i], pid)]) + 1 == UnusedCount(s)
  {
    UnusedCountUpdate(s, i, k.Claimed(s[i], pid));
  }

  /** What the corrected failed spawn leaves behind: the claimed slot is free again, so as
      many slots are free as before. */
  lemma SpawnFailureKeepsSlots(k: ProcTable, s: seq<Proc>, i: nat, pid: int)
    requires i < |s| && s[i].state == Unused
    ensures UnusedCount(s[i := k.Claimed(s[i], pid).(state := Unused)]) == UnusedCount(s)
  {
    UnusedCountUpdate(s, i, k.Claimed(s[i], pid).(state := Unused));
  }

  /** `sys_spawn` releasing the claimed slot (with `freeproc`, which also marks its task
      info exited) when the name is unknown. The pid counter advances whenever a slot was
      claimed. */
  method SysSpawn(k: ProcTable, nameId: int, img: Image) returns (r: u64)
    requires k.InUserProcess()
    modifies k, k.pool, k.info
    ensures k.InUserProcess() && k.current == old(k.current) && k.idle == old(k.idle)
    ensures var f := FirstInState(old(k.pool[..]), Unused, 0);
            && (f.None? ==> r == U64(-1) && k.pool[..] == old(k.pool[..])
                            && k.info[..] == old(k.info[..]) && k.nextPid == old(k.nextPid))
            && (f.Some? ==> k.nextPid == old(k.nextPid) + 1)
            && (f.Some? && nameId < 0 ==>
                  && r == U64(-1)
                  && k.pool[..] == old(k.pool[..])[f.value := k.Claimed(old(k.pool[f.value]), old(k.nextPid)).(state := Unused)]
                  && k.info[..] == old(k.info[..])[f.value := old(k.info[f.value]).(status := Exited)])
            && (f.Some? && nameId >= 0 ==>
                  && r == U64(old(k.nextPid))
                  && k.pool[..] == old(k.pool[..])[f.value := Loaded(k.Claimed(old(k.pool[f.value]), old(k.nextPid)), img).(parent := Some(k.current.index))]
                  && k.info[..] == old(k.info[..]))
  {
    var np := k.AllocProc();
    if np.None? {
      return U64(-1);
    }
    var i := np.value;
    if nameId < 0 {
      k.FreeProc(i);
      return U64(-1);
    }
    k.Load(i, img);
    k.SetParent(i, k.current.index);
    r := U64(k.pool[i].pid);
  }

  // ---------------------------------------------------------------------------------------
  // The dispatch of `syscall`

  /** The handlers `syscall` dispatches to. */
  datatype Handler = Write | Read | Exit | SchedYield | SetPriority | GetTimeOfDay | GetPid
                   | GetPpid | Clone | Execve | Wait4 | Spawn | Sbrk | Mmap | Munmap

  /** The system-call number of each handler (the RISC-V Linux numbers, with 400 for spawn). */
  function IdOf(h: Handler): (id: i32)
    ensures 0 < id < MAX_SYSCALL_NUM
  {
    match h
    case Read => 63
    case Write => 64
    case Exit => 93
    case SchedYield => 124
    case SetPriority => 140
    case GetTimeOfDay => 169
    case GetPid => 172
    case GetPpid => 173
    case Sbrk => 214
    case Munmap => 215
    case Clone => 220
    case Execve => 221
    case Mmap => 222
    case Wait4 => 260
    case Spawn => 400
  }

  /** The `switch (id)` of `syscall`: the handler whose case label is `id`, or none for the
      `default` branch. */
  function HandlerOf(id: i32): (h: Option<Handler>)
    ensures h.Some? ==> IdOf(h.value) == id
    ensures h.None? <==> forall g: Handler :: IdOf(g) != id
  {
    if id == 63 then Some(Read)
    else if id == 64 then Some(Write)
    else if id == 93 then Some(Exit)
    else if id == 124 then Some(SchedYield)
    else if id == 140 then Some(SetPriority)
    else if id == 169 then Some(GetTimeOfDay)
    else if id == 172 then Some(GetPid)
    else if id == 173 then Some(GetPpid)
    else if id == 214 then Some(Sbrk)
    else if id == 215 then Some(Munmap)
    else if id == 220 then Some(Clone)
    else if id == 221 then Some(Execve)
    else if id == 222 then Some(Mmap)
    else if id == 260 then Some(Wait4)
    else if id == 400 then Some(Spawn)
    else None
  }

  /** Every handler is reached through its own number, so no two cases share a label. */
  lemma HandlerOfIdOf(h: Handler)
    ensures HandlerOf(IdOf(h)) == Some(h)
  {
  }


  /** What the parts of the kernel outside this model return during one system call: the
      length `copyinstr` reports for `write`, the result of `fork`, `exec` or `wait`,
      `get_id_by_name` and the image `loader` writes for `spawn`, and
      `uvmalloc`/`uvmdealloc` for `sbrk`. */
  datatype World = World(copied: i32, extRet: u64, nameId: int, image: Image,
                         alloc: (u64, u64) -> u64, dealloc: (u64, u64) -> u64)

  /** `fork`, `exec` and `wait`: the handlers whose bodies are not part of this model. */
  predicate External(h: Option<Handler>) {
    h == Some(Clone) || h == Some(Execve) || h == Some(Wait4)
  }

  /** The results of the handlers outside the process table and the address space, for a
      caller whose pid is `pid`: `write` and `read` check the descriptor and return the
      length written or requested, `gettimeofday` returns 0, `getpid` the pid, and `fork`,
      `exec` and `wait` what the kernel outside the model returns. */
  function PlainResult(h: Handler, tf: TrapFrame, w: World, pid: int): (r: i32)
    ensures h == Write ==> r == if I32(tf.a0) != STDOUT then -1 else w.copied
    ensures h == Read ==> r == if I32(tf.a0) != STDIN then -1 else I32(tf.a2)
    ensures h == GetPid && 0 <= pid <= I32_MAX ==> r == pid
    ensures h == GetTimeOfDay ==> r == 0
    ensures h == Clone || h == Execve || h == Wait4 ==> r == I32(w.extRet)
  {
    I32OfU64(w.copied);
    match h
    case Write => if I32(tf.a0) != STDOUT then -1 else I32(U64(w.copied))
    case Read => if I32(tf.a0) != STDIN then -1 else I32(tf.a2)
    case GetPid => I32(U64(pid))
    case Clone => I32(w.extRet)
    case Execve => I32(w.extRet)
    case Wait4 => I32(w.extRet)
    case _ => 0
  }

  /** Everything a system call can change, as values: the process slots, the task infos,
      the pid counter and the caller's address space. */
  datatype KernelState = KernelState(pool: seq<Proc>, info: seq<TaskInfo>, nextPid: int,
                                     entries: map<u64, Mapping>)

  ghost function StateOf(k: ProcTable, pt: PageTable): KernelState
    reads k, k.pool, k.info, pt
  {
    KernelState(k.pool[..], k.info[..], k.nextPid, pt.entries)
  }

  /** The slots with the trap frame of slot `c` replaced by `tf`. */
  function WithTrapFrame(s: seq<Proc>, c: nat, tf: TrapFrame): seq<Proc>
    requires c < |s|
  {
    s[c := s[c].(tf := tf)]
  }

  /** The state `exit` leaves: slot `c` is UNUSED and its task is exited. */
  function ExitState(s: KernelState, c: nat): KernelState
    requires c < |s.pool| && c < |s.info|
  {
    s.(pool := s.pool[c := s.pool[c].(state := Unused)], info := s.info[c := s.info[c].(status := Exited)])
  }

  /** The well-formedness a system call needs of the state before it: `c` is a running
      slot with a task info, and its parent link, if any, points into the pool. */
  predicate CallerOk(s0: KernelState, c: nat) {
    && |s0.info| == |s0.pool| && c < |s0.pool| && s0.pool[c].state == ProcState.Running
    && (s0.pool[c].parent.Some? ==> s0.pool[c].parent.value < |s0.pool|)
  }

  /** What one system call does, for the process in slot `c` whose saved registers are
      `tf`: `h` is the handler `HandlerOf` chose (none for an unknown number), `s0` the
      state before the call, `s1` the state after it (without the store into `a0`) and `r`
      the `int` the handler returns, none for `exit`, which does not return. `spawn` and
      `munmap` are their corrected forms. Of `fork`, `exec` and `wait` only the result is
      known: the state they leave is constrained no further than its shape. */
  ghost predicate SyscallEffect(k: ProcTable, h: Option<Handler>, c: nat, tf: TrapFrame, w: World,
                                s0: KernelState, s1: KernelState, r: Option<i32>)
    requires CallerOk(s0, c)
  {
    var p := s0.pool[c];
    if h.None? then r == Some(-1) && s1 == s0
    else match h.value
      case Exit => r == None && s1 == ExitState(s0, c)
      case SchedYield => r == Some(0) && s1 == s0.(pool := s0.pool[c := p.(state := Runnable)])
      case SetPriority => SetPriorityEffect(k, c, I64(tf.a0), s0, s1, r)
      case GetPpid =>
        && r == Some(I32(if p.parent.None? then IDLE_PID else U64(s0.pool[p.parent.value].pid)))
        && s1 == s0
      case Spawn => SpawnEffect(k, c, w.nameId, w.image, s0, s1, r)
      case Sbrk => SbrkEffect(c, I32(tf.a0), w, s0, s1, r)
      case Mmap => MmapEffect(c, tf.a0, tf.a1, I32(tf.a2), s0, s1, r)
      case Munmap => MunmapEffect(tf.a0, tf.a1, s0, s1, r)
      case Clone | Execve | Wait4 =>
        && r == Some(PlainResult(h.value, tf, w, p.pid))
        && |s1.pool| == |s0.pool| && |s1.info| == |s0.info|
      case _ => r == Some(PlainResult(h.value, tf, w, p.pid)) && s1 == s0
  }

  /** `set_priority(prio)`: refused with -1 for a priority of at most 1; otherwise the
      caller gets the priority and its pass, and the priority is returned. */
  ghost predicate SetPriorityEffect(k: ProcTable, c: nat, prio: i64, s0: KernelState, s1: KernelState, r: Option<i32>)
    requires CallerOk(s0, c)
  {
    if prio <= 1 then r == Some(-1) && s1 == s0
    else r == Some(I32(prio)) && s1 == s0.(pool := s0.pool[c := s0.pool[c].(prio := prio, pass := Pass(k.bigStride, prio))])
  }

  /** `spawn`, corrected: -1 when no slot is free; otherwise the first free slot is claimed
      with the next pid, and then released again (and its task marked exited) when the
      program is unknown, or loaded with the program's image `img` and made a child of the
      caller, whose pid is returned. */
  ghost predicate SpawnEffect(k: ProcTable, c: nat, nameId: int, img: Image, s0: KernelState, s1: KernelState, r: Option<i32>)
    requires CallerOk(s0, c)
  {
    var f := FirstInState(s0.pool, Unused, 0);
    if f.None? then r == Some(-1) && s1 == s0
    else
      var np := k.Claimed(s0.pool[f.value], s0.nextPid);
      if nameId < 0 then
        && r == Some(-1)
        && s1 == s0.(pool := s0.pool[f.value := np.(state := Unused)],
                     info := s0.info[f.value := s0.info[f.value].(status := Exited)],
                     nextPid := s0.nextPid + 1)
      else
        && r == Some(I32(U64(s0.nextPid)))
        && s1 == s0.(pool := s0.pool[f.value := Loaded(np, img).(parent := Some(c))], nextPid := s0.nextPid + 1)
  }

  /** The mapping of page `va`, if any. */
  function Lookup(e: map<u64, Mapping>, va: u64): Option<Mapping> {
    if va in e then Some(e[va]) else None
  }

  /** The address space `e1` agrees with `e0` on every page outside `[lo, hi)`. */
  predicate SameOutside(e0: map<u64, Mapping>, e1: map<u64, Mapping>, lo: int, hi: int) {
    forall va: u64 :: va < lo || hi <= va ==> Lookup(e0, va) == Lookup(e1, va)
  }

  /** Agreement outside a range carries over two steps. */
  lemma SameOutsideTrans(e0: map<u64, Mapping>, e1: map<u64, Mapping>, e2: map<u64, Mapping>, lo: int, hi: int)
    requires SameOutside(e0, e1, lo, hi) && SameOutside(e1, e2, lo, hi)
    ensures SameOutside(e0, e2, lo, hi)
  {
  }

  /** `sbrk(n)`: the old break when `growproc` succeeds, which moves it as `GrowBreak`
      says, and -1 with nothing changed when it fails. A success maps (`uvmalloc`) or
      unmaps (`uvmdealloc`) heap pages of the caller between the old break and the one
      asked for; those pages are left free here, and every other page stays as it was. */
  ghost predicate SbrkEffect(c: nat, n: i32, w: World, s0: KernelState, s1: KernelState, r: Option<i32>)
    requires CallerOk(s0, c)
  {
    var p := s0.pool[c];
    var g := GrowBreak(p.programBrk, p.heapBottom, n, w.alloc, w.dealloc);
    var asked := U64(p.programBrk + n);
    if g.None? then r == Some(-1) && s1 == s0
    else
      && r == Some(I32(p.programBrk))
      && s1.pool == s0.pool[c := p.(programBrk := g.value)]
      && s1.info == s0.info && s1.nextPid == s0.nextPid
      && SameOutside(s0.entries, s1.entries, if n < 0 then asked else p.programBrk,
                     if n < 0 then p.programBrk else asked)
  }

  /** `sbrk(n)` and then `sbrk(-n)`, with allocators that move the break where asked: both
      return, the process table is as before, and no page outside the heap range
      `[brk, brk + n)` has changed. */
  lemma SbrkRoundTrip(c: nat, n: i32, w: World, s0: KernelState, s1: KernelState, s2: KernelState,
                      r1: Option<i32>, r2: Option<i32>)
    requires forall a: u64, b: u64 :: w.alloc(a, b) == b
    requires forall a: u64, b: u64 :: w.dealloc(a, b) == b
    requires CallerOk(s0, c) && 0 < n
    requires s0.pool[c].heapBottom <= s0.pool[c].programBrk
    requires s0.pool[c].programBrk + n - s0.pool[c].heapBottom <= I32_MAX && s0.pool[c].programBrk + n < U64_MOD
    requires SbrkEffect(c, n, w, s0, s1, r1) && CallerOk(s1, c) && SbrkEffect(c, -n, w, s1, s2, r2)
    ensures r1 == Some(I32(s0.pool[c].programBrk)) && r2 == Some(I32(s0.pool[c].programBrk + n))
    ensures s2.pool == s0.pool && s2.info == s0.info && s2.nextPid == s0.nextPid
    ensures SameOutside(s0.entries, s2.entries, s0.pool[c].programBrk, s0.pool[c].programBrk + n)
  {
    var p := s0.pool[c];
    var brk := p.programBrk;
    assert w.alloc(brk, U64(brk + n)) == brk + n;
    assert s1.pool[c] == p.(programBrk := brk + n);
    assert w.dealloc(brk + n, U64(brk + n - n)) == brk;
    assert s2.pool == s0.pool[c := p.(programBrk := brk + n)][c := p.(programBrk := brk)];
    assert s2.pool == s0.pool;
    SameOutsideTrans(s0.entries, s1.entries, s2.entries, brk, brk + n);
  }

  /** `mmap(start, len, port)`, with the rollback bounded by the pages actually reserved:
      0 or -1; bad arguments are refused, a zero length succeeds, and a failure or a zero
      length changes nothing; a success reserves every page of the rounded range, all of
      which were free, and moves the caller's `max_page`. */
  ghost predicate MmapEffect(c: nat, start: u64, len: u64, port: i32, s0: KernelState, s1: KernelState, r: Option<i32>)
    requires CallerOk(s0, c)
  {
    var p := s0.pool[c];
    && s1.info == s0.info && s1.nextPid == s0.nextPid
    && (r == Some(0) || r == Some(-1))
    && (!MmapArgsOk(start, len, port) ==> r == Some(-1))
    && (MmapArgsOk(start, len, port) && len == 0 ==> r == Some(0))
    && (r == Some(-1) || len == 0 ==> s1 == s0)
    && (MmapArgsOk(start, len, port) && len > 0 && r == Some(0) ==>
          var rlen := RoundUp(len);
          && PagesAbsent(s0.entries, start, rlen)
          && s1.entries == ReservePages(s0.entries, start, rlen, MmapPerm(port))
          && s1.pool == s0.pool[c := p.(maxPage := MaxPageAfter(p.maxPage, start, rlen))])
  }

  /** `munmap(start, len)`, atomic: bad arguments are refused, a zero length succeeds, and
      otherwise the whole range is unmapped (0) when every page of it is mapped, and nothing
      changes (-1) when some page is not. Only the address space can change. */
  ghost predicate MunmapEffect(start: u64, len: u64, s0: KernelState, s1: KernelState, r: Option<i32>) {
    && s1.pool == s0.pool && s1.info == s0.info && s1.nextPid == s0.nextPid
    && (!MunmapArgsOk(start, len) ==> r == Some(-1) && s1.entries == s0.entries)
    && (MunmapArgsOk(start, len) && len == 0 ==> r == Some(0) && s1.entries == s0.entries)
    && (MunmapArgsOk(start, len) && len > 0 ==>
          var span := MunmapSpan(start, RoundUp(len));
          var fa := FirstAbsent(s0.entries, start, span, 0);
          && (fa.None? ==> r == Some(0) && s1.entries == DropPages(s0.entries, start, span))
          && (fa.Some? ==> r == Some(-1) && s1.entries == s0.entries))
  }

  /** No system call changes the number of slots, and only `exit` does not return. Every
      handler whose body is part of this model leaves every slot but the caller's alone,
      except that `spawn` claims the first free slot, which is never the caller's; the
      caller keeps its trap frame and its kernel stack. */
  lemma SyscallTouchesCaller(k: ProcTable, h: Option<Handler>, c: nat, tf: TrapFrame, w: World,
                             s0: KernelState, s1: KernelState, r: Option<i32>)
    requires CallerOk(s0, c) && SyscallEffect(k, h, c, tf, w, s0, s1, r)
    ensures |s1.pool| == |s0.pool| && (r.None? <==> h == Some(Exit))
    ensures !External(h) ==> s1.pool[c].tf == s0.pool[c].tf && s1.pool[c].kstack == s0.pool[c].kstack
    ensures var f := FirstInState(s0.pool, Unused, 0);
            !External(h) ==>
              forall i :: 0 <= i < |s0.pool| && i != c && (h != Some(Spawn) || f != Some(i)) ==> s1.pool[i] == s0.pool[i]
  {
    if h == Some(Spawn) {
      var f := FirstInState(s0.pool, Unused, 0);
      assert f.Some? ==> f.value != c;
    }
  }

  /** The handlers that change nothing but the caller's own slot. */
  predicate TaskHandler(h: Handler) {
    h == Exit || h == SchedYield || h == SetPriority || h == GetPpid || h == Sbrk
  }

  /** Runs `spawn` and gives its result as an `int`. */
  method InvokeSpawn(k: ProcTable, pt: PageTable, tf: TrapFrame, w: World) returns (r: Option<i32>)
    requires k.InUserProcess()
    modifies k, k.pool, k.info
    ensures k.Valid() && k.current == old(k.current) && k.idle == old(k.idle)
    ensures k.pool[k.current.index].tf == old(k.pool[k.current.index].tf)
    ensures SyscallEffect(k, Some(Spawn), k.current.index, tf, w, old(StateOf(k, pt)), StateOf(k, pt), r)
  {
    var v := SysSpawn(k, w.nameId, w.image);
    I32OfU64(-1);
    r := Some(I32(v));
  }

  /** Runs one of the handlers that change nothing but the caller's own slot. */
  method InvokeTask(k: ProcTable, pt: PageTable, h: Handler, tf: TrapFrame, w: World) returns (r: Option<i32>)
    requires k.InUserProcess() && TaskHandler(h)
    modifies k, k.pool, k.info, pt
    ensures k.Valid() && k.current == old(k.current) && k.idle == old(k.idle)
    ensures pt.Valid() == old(pt.Valid())
    ensures k.pool[k.current.index].tf == old(k.pool[k.current.index].tf)
    ensures SyscallEffect(k, Some(h), k.current.index, tf, w, old(StateOf(k, pt)), StateOf(k, pt), r)
  {
    match h
    case Exit =>
      k.Exit(I32(tf.a0));
      r := None;
    case SchedYield =>
      k.Yield();
      r := Some(0);
    case SetPriority =>
      var v := SysSetPriority(k, I64(tf.a0));
      I32OfU64(-1);
      r := Some(I32(v));
    case GetPpid =>
      var v := SysGetPpid(k);
      r := Some(I32(v));
    case Sbrk =>
      var v := SysSbrk(k, I32(tf.a0), w.alloc, w.dealloc);
      I32OfU64(-1);
      r := Some(I32(v));
  }

  /** Runs `mmap` on the caller's address space. */
  method InvokeMmap(k: ProcTable, pt: PageTable, tf: TrapFrame, w: World) returns (r: Option<i32>)
    requires k.InUserProcess() && pt.Valid()
    modifies k.pool, pt
    ensures k.InUserProcess() && pt.Valid()
    ensures k.pool[k.current.index].tf == old(k.pool[k.current.index].tf)
    ensures SyscallEffect(k, Some(Mmap), k.current.index, tf, w, old(StateOf(k, pt)), StateOf(k, pt), r)
  {
    var v := SysMmap(k, pt, tf.a0, tf.a1, I32(tf.a2));
    r := Some(v);
  }

  /** Runs `munmap` on the caller's address space. */
  method InvokeMunmap(k: ProcTable, pt: PageTable, tf: TrapFrame, w: World) returns (r: Option<i32>)
    requires k.InUserProcess() && pt.Valid()
    modifies pt
    ensures pt.Valid()
    ensures SyscallEffect(k, Some(Munmap), k.current.index, tf, w, old(StateOf(k, pt)), StateOf(k, pt), r)
  {
    var v := SysMunmapChecked(pt, tf.a0, tf.a1);
    r := Some(v);
  }

  /** The handlers outside the process table and the address space. */
  predicate PlainHandler(h: Handler) {
    h == Write || h == Read || h == GetTimeOfDay || h == GetPid || h == Clone || h == Execve || h == Wait4
  }

  /** Runs one of the handlers outside the process table and the address space. */
  method InvokePlain(k: ProcTable, pt: PageTable, h: Handler, tf: TrapFrame, w: World) returns (r: Option<i32>)
    requires k.InUserProcess() && PlainHandler(h)
    ensures SyscallEffect(k, Some(h), k.current.index, tf, w, StateOf(k, pt), StateOf(k, pt), r)
  {
    r := Some(PlainResult(h, tf, w, k.pool[k.current.index].pid));
  }

  /** Runs handler `h` on the arguments saved in the trap frame `tf` and gives the `int` it
      returns, or none for `exit`, which does not return. `fork`, `exec` and `wait` only
      return their result here; the state they leave is not part of this model. */
  method Invoke(k: ProcTable, pt: PageTable, h: Handler, tf: TrapFrame, w: World) returns (r: Option<i32>)
    requires k.InUserProcess() && pt.Valid()
    modifies k, k.pool, k.info, pt
    ensures k.Valid() && pt.Valid() && k.current == old(k.current) && k.idle == old(k.idle)
    ensures !External(Some(h)) ==> k.pool[k.current.index].tf == old(k.pool[k.current.index].tf)
    ensures SyscallEffect(k, Some(h), k.current.index, tf, w, old(StateOf(k, pt)), StateOf(k, pt), r)
  {
    if TaskHandler(h) {
      r := InvokeTask(k, pt, h, tf, w);
    } else if h == Spawn {
      r := InvokeSpawn(k, pt, tf, w);
    } else if h == Mmap {
      r := InvokeMmap(k, pt, tf, w);
    } else if h == Munmap {
      r := InvokeMunmap(k, pt, tf, w);
    } else {
      r := InvokePlain(k, pt, h, tf, w);
    }
  }

  /** `syscall()`: reads the number from `a7` as an `int`, runs the handler of its case on
      the saved arguments, or returns -1 for a number that matches no case, and stores the
      `int` result, sign-extended, in `a0`. `exit` does not return, so nothing is stored.
      With that store taken back out, the new state is exactly `SyscallEffect` of the old. */
  method Dispatch(k: ProcTable, pt: PageTable, w: World) returns (r: Option<i32>)
    requires k.InUserProcess() && pt.Valid()
    modifies k, k.pool, k.info, pt
    ensures k.Valid() && pt.Valid() && k.current == old(k.current) && k.idle == old(k.idle)
    ensures var c := k.current.index;
            var tf := old(k.pool[c].tf);
            && SyscallEffect(k, HandlerOf(I32(tf.a7)), c, tf, w, old(StateOf(k, pt)),
                             StateOf(k, pt).(pool := WithTrapFrame(k.pool[..], c, tf)), r)
            && (r.None? <==> HandlerOf(I32(tf.a7)) == Some(Exit))
            && (r.None? ==> k.pool[c].tf == tf && k.pool[c].state == Unused && k.info[c].status == Exited)
            && (r.Some? ==> k.pool[c].tf.a0 == U64(r.value) && I32(k.pool[c].tf.a0) == r.value)
            && (r.Some? && !External(HandlerOf(I32(tf.a7))) ==> k.pool[c].tf == tf.(a0 := U64(r.value)))
  {
    var c := k.current.index;
    var tf := k.pool[c].tf;
    var h := HandlerOf(I32(tf.a7));
    if h.None? {
      r := Some(-1);
    } else {
      r := Invoke(k, pt, h.value, tf, w);
    }
    ghost var mid := k.pool[..];
    if r.Some? {
      I32OfU64(r.value);
      k.SetTrapFrame(c, k.pool[c].tf.(a0 := U64(r.value)));
    }
    if !External(h) {
      assert WithTrapFrame(k.pool[..], c, tf) == mid;
    }
  }
}
