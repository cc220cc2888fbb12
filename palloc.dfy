/** The page allocator (src/threads/palloc.c): free memory split into a kernel pool and a user
    pool, each handing out runs of contiguous pages first-fit from a bitmap of used pages kept in
    the pool's own first pages.

    Addresses are page numbers (`pg_no`); a NULL pointer is `None`. The `PAL_*` flags are the
    fields of `Flags`. */
module Palloc {
  import opened Wrappers
  import opened BitSeq
  import opened Bitmap

  /** `PGSIZE`. */
  const PGSIZE: nat := 4096
  /** The page number of the first free page: free memory starts at 1 MB. */
  const FREE_START_PAGE: nat := 256

  /** The `PAL_ASSERT`, `PAL_ZERO` and `PAL_USER` bits of `enum palloc_flags`. */
  datatype Flags = Flags(assertOnFail: bool, zero: bool, user: bool)

  /** What `palloc_get_multiple` does: return the first page of the run, return NULL, or panic. */
  datatype Alloc = Pages(first: nat) | Null | Panic

  // ---------------------------------------------------------------------------------------------
  // Pool layout arithmetic

  /** `DIV_ROUND_UP (x, PGSIZE)`. */
  function PagesFor(bytes: nat): (n: nat)
    ensures n * PGSIZE >= bytes
    ensures n > 0 ==> (n - 1) * PGSIZE < bytes
  {
    (bytes + PGSIZE - 1) / PGSIZE
  }

  /** `bm_pages`: the pages the used map of a pool of `pageCnt` pages takes. */
  function BmPages(pageCnt: nat): nat {
    PagesFor(BufSize(pageCnt))
  }

  /** Where `init_pool` puts things in a pool of `pageCnt` pages starting at page `start`: the
      used map in the first `bmPages` pages, then `usable` pages from page `base` on. */
  datatype Layout = Layout(bmPages: nat, usable: nat, base: nat)

  /** `init_pool`'s arithmetic: `None` when the used map does not fit, where the kernel panics. */
  function InitPool(start: nat, pageCnt: nat): (r: Option<Layout>)
    ensures r.None? <==> BmPages(pageCnt) > pageCnt
    ensures r.Some? ==> r.value.bmPages * PGSIZE >= BufSize(r.value.usable)
    ensures r.Some? ==> r.value.bmPages + r.value.usable == pageCnt
    ensures r.Some? ==> r.value.base == start + r.value.bmPages
  {
    var bm := BmPages(pageCnt);
    if bm > pageCnt then None
    else
      BufSizeMono(pageCnt - bm, pageCnt);
      Some(Layout(bm, pageCnt - bm, start + bm))
  }

  /** A bitmap for fewer bits never needs a larger buffer. */
  lemma BufSizeMono(a: nat, b: nat)
    requires a <= b
    ensures BufSize(a) <= BufSize(b)
  {
    assert (a + ELEM_BITS - 1) / ELEM_BITS <= (b + ELEM_BITS - 1) / ELEM_BITS;
  }

  /** `palloc_init`'s split of the free pages: the user pool gets half of them, rounded down, but
      no more than `userPageLimit`; the kernel pool gets the rest. */
  function UserPages(freePages: nat, userPageLimit: nat): (u: nat)
    ensures u <= freePages / 2 && u <= userPageLimit
    ensures u == freePages / 2 || u == userPageLimit
  {
    var u := freePages / 2;
    if u > userPageLimit then userPageLimit else u
  }

  /** `free_pages`: from 1 MB to the end of RAM. */
  function FreePages(initRamPages: nat): nat
    requires initRamPages >= FREE_START_PAGE
  {
    initRamPages - FREE_START_PAGE
  }

  /** The kernel pool is never smaller than the user pool, and the two cover the free pages exactly. */
  lemma SplitCovers(freePages: nat, userPageLimit: nat)
    ensures UserPages(freePages, userPageLimit) <= freePages
    ensures UserPages(freePages, userPageLimit) <= freePages - UserPages(freePages, userPageLimit)
    ensures (freePages - UserPages(freePages, userPageLimit)) + UserPages(freePages, userPageLimit) == freePages
  {
  }

  /** `kernel_pages` of `palloc_init`: the free pages the user pool does not take. Together with
      the user pool they cover the free pages exactly. */
  function KernelPages(initRamPages: nat, userPageLimit: nat): (k: nat)
    requires initRamPages >= FREE_START_PAGE
    ensures k + UserPages(FreePages(initRamPages), userPageLimit) == FreePages(initRamPages)
  {
    FreePages(initRamPages) - UserPages(FreePages(initRamPages), userPageLimit)
  }

  /** With a user page limit of 0 (`-ul=0`) the user pool has no pages, yet its used map still
      needs a page for its header: `init_pool` panics on it, so `palloc_init` does too. */
  lemma NoUserPagesPanics(initRamPages: nat)
    requires initRamPages >= FREE_START_PAGE
    ensures UserPages(FreePages(initRamPages), 0) == 0
    ensures InitPool(FREE_START_PAGE + KernelPages(initRamPages, 0), UserPages(FreePages(initRamPages), 0)).None?
  {
    assert BufSize(0) >= HEADER_SIZE;
  }

  /** `page_from_pool`: whether page `page` is one of the `size` usable pages from `base`. */
  predicate InPool(base: nat, size: nat, page: nat) {
    base <= page < base + size
  }

  /** The pools laid out by `palloc_init` do not overlap: every usable page of the kernel pool
      comes before every usable page of the user pool. */
  lemma PoolsDisjoint(initRamPages: nat, userPageLimit: nat, page: nat)
    requires initRamPages >= FREE_START_PAGE
    requires InitPool(FREE_START_PAGE, KernelPages(initRamPages, userPageLimit)).Some?
    requires InitPool(FREE_START_PAGE + KernelPages(initRamPages, userPageLimit),
                      UserPages(FreePages(initRamPages), userPageLimit)).Some?
    ensures var kernelPages := KernelPages(initRamPages, userPageLimit);
            var k := InitPool(FREE_START_PAGE, kernelPages).value;
            var u := InitPool(FREE_START_PAGE + kernelPages, UserPages(FreePages(initRamPages), userPageLimit)).value;
            !(InPool(k.base, k.usable, page) && InPool(u.base, u.usable, page))
  {
  }

  // ---------------------------------------------------------------------------------------------
  // Allocation and release on the used map, as functions of its bits

  /** The used map after `palloc_get_multiple` of `cnt` pages: the first free run from index 0 is
      marked used, or nothing changes when there is none. */
  function AllocBits(used: seq<bool>, cnt: nat): seq<bool>
    requires |used| < BITMAP_ERROR
  {
    var idx := ScanFrom(used, 0, cnt, false, BITMAP_ERROR);
    if idx == BITMAP_ERROR then used else SetRange(used, idx, cnt, true)
  }

  /** Allocating a run and releasing the same run restores the used map. */
  lemma AllocFreeRestores(used: seq<bool>, cnt: nat)
    requires |used| < BITMAP_ERROR
    ensures var idx := ScanFrom(used, 0, cnt, false, BITMAP_ERROR);
            idx != BITMAP_ERROR ==> SetRange(AllocBits(used, cnt), idx, cnt, false) == used
  {
    var idx := ScanFrom(used, 0, cnt, false, BITMAP_ERROR);
    if idx != BITMAP_ERROR {
      SetRangeUndo(used, idx, cnt, false);
    }
  }

  /** A successful allocation takes the first run of `cnt` free pages, which becomes used, and
      changes no other page; a failed one changes nothing. */
  lemma AllocTakesFreeRun(used: seq<bool>, cnt: nat)
    requires |used| < BITMAP_ERROR
    ensures var idx := ScanFrom(used, 0, cnt, false, BITMAP_ERROR);
            idx != BITMAP_ERROR ==>
              && idx + cnt <= |used|
              && AllEqual(used[idx..idx + cnt], false)
              && (forall j :: 0 <= j < idx ==> !Window(used, j, cnt, false))
              && AllEqual(AllocBits(used, cnt)[idx..idx + cnt], true)
              && (forall i :: 0 <= i < |used| && !(idx <= i < idx + cnt) ==> AllocBits(used, cnt)[i] == used[i])
  {
    var idx := ScanFrom(used, 0, cnt, false, BITMAP_ERROR);
    if idx != BITMAP_ERROR {
      var w := AllocBits(used, cnt)[idx..idx + cnt];
      forall k | 0 <= k < |w|
        ensures w[k]
      {
        assert w[k] == AllocBits(used, cnt)[idx + k];
      }
    }
  }

  /** A successful allocation of `cnt` pages uses exactly `cnt` more pages. */
  lemma AllocCounts(used: seq<bool>, cnt: nat)
    requires |used| < BITMAP_ERROR
    ensures var idx := ScanFrom(used, 0, cnt, false, BITMAP_ERROR);
            idx != BITMAP_ERROR ==> CountOf(AllocBits(used, cnt), true) == CountOf(used, true) + cnt
  {
    var idx := ScanFrom(used, 0, cnt, false, BITMAP_ERROR);
    if idx != BITMAP_ERROR {
      SetFreeRunCount(used, idx, cnt);
    }
  }

  /** A pool: `struct pool` without its lock. */
  class Pool {
    /** `used_map`: bit `i` is set when page `base + i` is in use. */
    const usedMap: Bitmap
    /** `base`: the page number of the first usable page. */
    const base: nat

    ghost predicate Valid() {
      usedMap.Valid()
    }

    /** The used map's bits. */
    ghost function Used(): (s: seq<bool>)
      reads usedMap.bits
      requires Valid()
      ensures |s| == usedMap.bitCnt
    {
      usedMap.Bits()
    }

    /** `init_pool` when the used map fits: the map takes the first `bmPages` pages, every other
        page is free. */
    constructor Init(start: nat, pageCnt: nat)
      requires InitPool(start, pageCnt).Some? && pageCnt < BITMAP_ERROR
      ensures Valid() && fresh(usedMap) && fresh(usedMap.bits)
      ensures base == InitPool(start, pageCnt).value.base
      ensures usedMap.bitCnt == InitPool(start, pageCnt).value.usable
      ensures Used() == Repeat(false, usedMap.bitCnt)
    {
      var layout := InitPool(start, pageCnt).value;
      usedMap := new Bitmap.CreateInBuf(layout.usable, layout.bmPages * PGSIZE);
      base := layout.base;
    }

    /** `page_from_pool`. */
    function PageFromPool(page: nat): (b: bool)
      requires Valid()
      ensures b <==> InPool(base, usedMap.bitCnt, page)
    {
      var startPage := base;
      var endPage := startPage + usedMap.Size();
      page >= startPage && page < endPage
    }

    /** `palloc_get_multiple` on this pool. */
    method GetMultiple(assertOnFail: bool, pageCnt: nat) returns (r: Alloc)
      requires Valid()
      modifies usedMap.bits
      ensures pageCnt == 0 ==> r == Null && Used() == old(Used())
      ensures pageCnt > 0 ==>
                var idx := ScanFrom(old(Used()), 0, pageCnt, false, BITMAP_ERROR);
                && Used() == AllocBits(old(Used()), pageCnt)
                && (idx != BITMAP_ERROR ==> r == Pages(base + idx))
                && (idx == BITMAP_ERROR ==> r == if assertOnFail then Panic else Null)
    {
      if pageCnt == 0 {
        return Null;
      }
      ghost var used := Used();
      var pageIdx := usedMap.ScanAndFlip(0, pageCnt, false);
      assert Used() == AllocBits(used, pageCnt);
      if pageIdx != BITMAP_ERROR {
        r := Pages(base + pageIdx);
      } else if assertOnFail {
        r := Panic;
      } else {
        r := Null;
      }
    }

    /** The part of `palloc_free_multiple` after the pool is found: the run must lie in the pool
        and be in use (the kernel asserts `bitmap_all` on it), and becomes free. */
    method FreeMultiple(page: nat, pageCnt: nat)
      requires Valid() && PageFromPool(page)
      requires page - base + pageCnt <= usedMap.bitCnt
      requires AllEqual(Used()[page - base..page - base + pageCnt], true)
      modifies usedMap.bits
      ensures Used() == SetRange(old(Used()), page - base, pageCnt, false)
    {
      var pageIdx := page - base;
      usedMap.SetMultiple(pageIdx, pageCnt, false);
    }
  }

  /** The two pools of `palloc.c`. */
  class PageAllocator {
    const kernelPool: Pool
    const userPool: Pool
    /** `kernel_pages`. */
    const kernelPages: nat

    ghost predicate Valid() {
      kernelPool.Valid() && userPool.Valid() && kernelPool.usedMap.bits != userPool.usedMap.bits
      && kernelPool.base + kernelPool.usedMap.bitCnt <= userPool.base
    }

    /** `palloc_init` with `init_ram_pages` pages of RAM, when neither pool's used map is too big
        for its pool (the kernel panics otherwise). */
    constructor Init(initRamPages: nat, userPageLimit: nat)
      requires FREE_START_PAGE <= initRamPages < BITMAP_ERROR
      requires InitPool(FREE_START_PAGE, KernelPages(initRamPages, userPageLimit)).Some?
      requires InitPool(FREE_START_PAGE + KernelPages(initRamPages, userPageLimit),
                        UserPages(FreePages(initRamPages), userPageLimit)).Some?
      ensures Valid()
      ensures kernelPages == KernelPages(initRamPages, userPageLimit)
      ensures kernelPool.base == InitPool(FREE_START_PAGE, kernelPages).value.base
      ensures kernelPool.usedMap.bitCnt == InitPool(FREE_START_PAGE, kernelPages).value.usable
      ensures userPool.base
                == InitPool(FREE_START_PAGE + kernelPages, UserPages(FreePages(initRamPages), userPageLimit)).value.base
      ensures userPool.usedMap.bitCnt
                == InitPool(FREE_START_PAGE + kernelPages, UserPages(FreePages(initRamPages), userPageLimit)).value.usable
      ensures kernelPool.Used() == Repeat(false, kernelPool.usedMap.bitCnt)
      ensures userPool.Used() == Repeat(false, userPool.usedMap.bitCnt)
      ensures fresh(kernelPool.usedMap.bits) && fresh(userPool.usedMap.bits)
    {
      var kernelCnt := KernelPages(initRamPages, userPageLimit);
      kernelPages := kernelCnt;
      var kernel, user := NewPools(kernelCnt, UserPages(FreePages(initRamPages), userPageLimit));
      kernelPool, userPool := kernel, user;
    }

    /** The two `init_pool` calls of `palloc_init`: `kernelCnt` pages from the start of free memory,
        then `userCnt` pages right after them. */
    static method NewPools(kernelCnt: nat, userCnt: nat) returns (kernel: Pool, user: Pool)
      requires kernelCnt < BITMAP_ERROR && userCnt < BITMAP_ERROR
      requires InitPool(FREE_START_PAGE, kernelCnt).Some?
      requires InitPool(FREE_START_PAGE + kernelCnt, userCnt).Some?
      ensures kernel.Valid() && user.Valid() && kernel.usedMap.bits != user.usedMap.bits
      ensures kernel.base == InitPool(FREE_START_PAGE, kernelCnt).value.base
      ensures kernel.usedMap.bitCnt == InitPool(FREE_START_PAGE, kernelCnt).value.usable
      ensures user.base == InitPool(FREE_START_PAGE + kernelCnt, userCnt).value.base
      ensures user.usedMap.bitCnt == InitPool(FREE_START_PAGE + kernelCnt, userCnt).value.usable
      ensures kernel.Used() == Repeat(false, kernel.usedMap.bitCnt)
      ensures user.Used() == Repeat(false, user.usedMap.bitCnt)
      ensures fresh(kernel.usedMap.bits) && fresh(user.usedMap.bits)
    {
      kernel := new Pool.Init(FREE_START_PAGE, kernelCnt);
      ghost var kernelUsed := kernel.Used();
      user := new Pool.Init(FREE_START_PAGE + kernelCnt, userCnt);
      assert kernel.Used() == kernelUsed;
    }

    /** `palloc_get_multiple`: the pool is the user pool exactly when `PAL_USER` is set. Zeroing
        for `PAL_ZERO` does not change the maps. */
    method GetMultiple(flags: Flags, pageCnt: nat) returns (r: Alloc)
      requires Valid()
      modifies kernelPool.usedMap.bits, userPool.usedMap.bits
      ensures Valid()
      ensures var pool := if flags.user then userPool else kernelPool;
              var other := if flags.user then kernelPool else userPool;
              && other.Used() == old(other.Used())
              && (pageCnt == 0 ==> r == Null && pool.Used() == old(pool.Used()))
              && (pageCnt > 0 ==>
                    var idx := ScanFrom(old(pool.Used()), 0, pageCnt, false, BITMAP_ERROR);
                    && pool.Used() == AllocBits(old(pool.Used()), pageCnt)
                    && (idx != BITMAP_ERROR ==> r == Pages(pool.base + idx))
                    && (idx == BITMAP_ERROR ==> r == if flags.assertOnFail then Panic else Null))
    {
      var pool := if flags.user then userPool else kernelPool;
      r := pool.GetMultiple(flags.assertOnFail, pageCnt);
    }

    /** `palloc_get_page`. */
    method GetPage(flags: Flags) returns (r: Alloc)
      requires Valid()
      modifies kernelPool.usedMap.bits, userPool.usedMap.bits
      ensures Valid()
      ensures var pool := if flags.user then userPool else kernelPool;
              var other := if flags.user then kernelPool else userPool;
              var idx := ScanFrom(old(pool.Used()), 0, 1, false, BITMAP_ERROR);
              && other.Used() == old(other.Used())
              && pool.Used() == AllocBits(old(pool.Used()), 1)
              && (idx != BITMAP_ERROR ==> r == Pages(pool.base + idx))
              && (idx == BITMAP_ERROR ==> r == if flags.assertOnFail then Panic else Null)
    {
      r := GetMultiple(flags, 1);
    }

    /** `palloc_free_multiple`: nothing happens for NULL or zero pages; otherwise the run must lie
        in one of the pools, the kernel pool being tried first, and be in use. */
    method FreeMultiple(pages: Option<nat>, pageCnt: nat)
      requires Valid()
      requires pages.Some? && pageCnt > 0 ==>
                 var p := pages.value;
                 var pool := if kernelPool.PageFromPool(p) then kernelPool else userPool;
                 && pool.PageFromPool(p)
                 && p - pool.base + pageCnt <= pool.usedMap.bitCnt
                 && AllEqual(pool.Used()[p - pool.base..p - pool.base + pageCnt], true)
      modifies kernelPool.usedMap.bits, userPool.usedMap.bits
      ensures Valid()
      ensures pages.None? || pageCnt == 0 ==>
                kernelPool.Used() == old(kernelPool.Used()) && userPool.Used() == old(userPool.Used())
      ensures pages.Some? && pageCnt > 0 ==>
                var p := pages.value;
                var pool := if kernelPool.PageFromPool(p) then kernelPool else userPool;
                var other := if kernelPool.PageFromPool(p) then userPool else kernelPool;
                && pool.Used() == SetRange(old(pool.Used()), p - pool.base, pageCnt, false)
                && other.Used() == old(other.Used())
    {
      if pages.None? || pageCnt == 0 {
        return;
      }
      var p := pages.value;
      if kernelPool.PageFromPool(p) {
        kernelPool.FreeMultiple(p, pageCnt);
      } else {
        userPool.FreeMultiple(p, pageCnt);
      }
    }

    /** `palloc_free_page`. */
    method FreePage(page: Option<nat>)
      requires Valid()
      requires page.Some? ==>
                 var p := page.value;
                 var pool := if kernelPool.PageFromPool(p) then kernelPool else userPool;
                 && pool.PageFromPool(p)
                 && pool.Used()[p - pool.base]
      modifies kernelPool.usedMap.bits, userPool.usedMap.bits
      ensures Valid()
      ensures page.None? ==>
                kernelPool.Used() == old(kernelPool.Used()) && userPool.Used() == old(userPool.Used())
      ensures page.Some? ==>
                var p := page.value;
                var pool := if kernelPool.PageFromPool(p) then kernelPool else userPool;
                var other := if kernelPool.PageFromPool(p) then userPool else kernelPool;
                && pool.Used() == old(pool.Used())[p - pool.base := false]
                && other.Used() == old(other.Used())
    {
      if page.Some? {
        var p := page.value;
        var pool := if kernelPool.PageFromPool(p) then kernelPool else userPool;
        ghost var used, i := pool.Used(), p - pool.base;
        assert used[i..i + 1] == [used[i]];
      }
      FreeMultiple(page, 1);
      if page.Some? {
        var p := page.value;
        var pool := if kernelPool.PageFromPool(p) then kernelPool else userPool;
        assert SetRange(old(pool.Used()), p - pool.base, 1, false) == old(pool.Used())[p - pool.base := false];
      }
    }
  }
}
