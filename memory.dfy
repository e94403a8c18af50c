/**
 * Physical frame allocator (kernel/mm/memory.c).
 *
 * The source keeps one bit per 4096-byte frame in an array of 64-bit words:
 * frame `index` is bit `index % 64` of word `index / 64`. The model keeps the
 * same words as a flat array of flags, so flag `w * 64 + b` is bit `b` of word
 * `w`; a word is "all ones" when its 64 flags are set.
 */
module Memory {
  const PAGE_SIZE: nat := 4096
  const WORD_BITS: nat := 64
  /** managed_memory_start: everything below 1 MiB is reserved. */
  const MANAGED_START: nat := 0x10_0000
  const LOW_FRAMES: nat := 256
  const U64: nat := 0x1_0000_0000_0000_0000
  /** (size_t)-1, the "not found" index. */
  const NOT_FOUND: nat := 0xFFFF_FFFF_FFFF_FFFF
  const KERNEL_VIRTUAL_BASE: nat := 0xFFFF_FFFF_8000_0000
  /** The bitmap lives at KERNEL_VIRTUAL_BASE + 4 MiB, i.e. physical frame 1024. */
  const BITMAP_FRAME: nat := 0x40_0000 / 4096

  /** size_t increment and decrement, wrapping at 2^64. */
  function Inc(x: nat, n: nat): (r: nat)
    ensures r < U64
    ensures x + n < U64 ==> r == x + n
  {
    (x + n) % U64
  }

  function Dec(x: nat): (r: nat)
    requires x < U64
    ensures r < U64
    ensures x == 0 ==> r == U64 - 1
    ensures x > 0 ==> r == x - 1
  {
    (x - 1) % U64
  }

  /** Number of set flags in s. */
  function Count(s: seq<bool>): (r: nat)
    ensures r <= |s|
  {
    if s == [] then 0 else Count(s[..|s| - 1]) + (if s[|s| - 1] then 1 else 0)
  }

  lemma {:induction false} CountUpdate(s: seq<bool>, i: nat, b: bool)
    requires i < |s|
    ensures Count(s[i := b]) + (if s[i] then 1 else 0) == Count(s) + (if b then 1 else 0)
  {
    var n := |s| - 1;
    if i == n {
      assert s[i := b][..n] == s[..n];
    } else {
      assert s[i := b][..n] == s[..n][i := b];
      CountUpdate(s[..n], i, b);
    }
  }

  lemma {:induction false} CountAllClear(s: seq<bool>)
    requires forall k :: 0 <= k < |s| ==> !s[k]
    ensures Count(s) == 0
  {
    if s != [] {
      CountAllClear(s[..|s| - 1]);
    }
  }

  lemma {:induction false} CountSplit(s: seq<bool>, m: nat)
    requires m <= |s|
    ensures Count(s) == Count(s[..m]) + Count(s[m..])
  {
    if m < |s| {
      var n := |s| - 1;
      assert s[..n][..m] == s[..m];
      assert s[m..][..|s[m..]| - 1] == s[..n][m..];
      CountSplit(s[..n], m);
    } else {
      assert s[..m] == s;
      assert s[m..] == [];
    }
  }

  /** Every flag of s in [start, start + n) is clear. */
  predicate RunClear(s: seq<bool>, start: nat, n: nat)
  {
    forall k :: start <= k < start + n && k < |s| ==> !s[k]
  }

  /** Index of the first clear flag of s, or NOT_FOUND when all are set. */
  function FirstClear(s: seq<bool>): (r: nat)
    requires |s| < NOT_FOUND
    ensures r == NOT_FOUND || (r < |s| && !s[r])
    ensures forall k :: 0 <= k < |s| && k < r ==> s[k]
  {
    FirstClearFrom(s, 0)
  }

  function FirstClearFrom(s: seq<bool>, from: nat): (r: nat)
    requires |s| < NOT_FOUND && from <= |s|
    requires forall k :: 0 <= k < from ==> s[k]
    ensures r == NOT_FOUND || (from <= r < |s| && !s[r])
    ensures forall k :: 0 <= k < |s| && k < r ==> s[k]
    decreases |s| - from
  {
    if from == |s| then NOT_FOUND
    else if !s[from] then from
    else FirstClearFrom(s, from + 1)
  }

  /**
   * Lowest start of n clear flags lying inside s, or NOT_FOUND when there is
   * no such run.
   */
  function FirstRun(s: seq<bool>, n: nat): (r: nat)
    requires 1 <= n && |s| < NOT_FOUND
    ensures r == NOT_FOUND || (r + n <= |s| && RunClear(s, r, n))
    ensures forall s0: nat :: s0 + n <= |s| && s0 < r ==> !RunClear(s, s0, n)
  {
    FirstRunFrom(s, n, 0)
  }

  function FirstRunFrom(s: seq<bool>, n: nat, from: nat): (r: nat)
    requires 1 <= n && |s| < NOT_FOUND
    requires forall s0: nat :: s0 < from && s0 + n <= |s| ==> !RunClear(s, s0, n)
    ensures r == NOT_FOUND || (r + n <= |s| && RunClear(s, r, n))
    ensures forall s0: nat :: s0 + n <= |s| && s0 < r ==> !RunClear(s, s0, n)
    decreases |s| + 1 - from
  {
    if from + n > |s| then NOT_FOUND
    else if RunClear(s, from, n) then from
    else FirstRunFrom(s, n, from + 1)
  }

  /** Frames of the kernel image: pages of [kernelStart, kernelEnd), physical. */
  function KernelFirstFrame(kernelStart: nat): nat
  {
    kernelStart / PAGE_SIZE
  }

  function KernelFrameCount(kernelStart: nat, kernelEnd: nat): nat
  {
    if kernelEnd <= kernelStart then 0 else (kernelEnd - kernelStart + PAGE_SIZE - 1) / PAGE_SIZE
  }

  /** Pages occupied by a bitmap of `entries` 8-byte words. */
  function BitmapFrameCount(entries: nat): nat
  {
    (entries * 8 + PAGE_SIZE - 1) / PAGE_SIZE
  }

  /** total_pages as mm_init computes it from mem_upper (in KiB), in size_t arithmetic. */
  function TotalPagesFor(memUpperKb: nat): nat
  {
    (memUpperKb * 1024) % U64 / PAGE_SIZE
  }

  function EntriesFor(totalPages: nat): nat
  {
    (totalPages + WORD_BITS - 1) / WORD_BITS
  }

  /**
   * Whether every flag that mm_init and setup_page_bitmap set lies inside the
   * bitmap: the low megabyte, the kernel image and the bitmap's own pages.
   * The source never checks this.
   */
  predicate InitFits(memUpperKb: nat, kernelStart: nat, kernelEnd: nat)
  {
    var cap := EntriesFor(TotalPagesFor(memUpperKb)) * WORD_BITS;
    LOW_FRAMES <= cap
    && KernelFirstFrame(kernelStart) + KernelFrameCount(kernelStart, kernelEnd) <= cap
    && BITMAP_FRAME + BitmapFrameCount(EntriesFor(TotalPagesFor(memUpperKb))) <= cap
  }

  /** kernel/kernel.c calls mm_init(0): no bitmap word exists, yet 256 low frames are marked. */
  lemma ZeroMemoryInitOverflows(kernelStart: nat, kernelEnd: nat)
    ensures TotalPagesFor(0) == 0 && EntriesFor(0) == 0
    ensures !InitFits(0, kernelStart, kernelEnd)
  {
  }

  function VmGetPhys(virt: nat): (r: nat)
    requires virt < U64
    ensures virt >= KERNEL_VIRTUAL_BASE ==> r + KERNEL_VIRTUAL_BASE == virt
    ensures virt < KERNEL_VIRTUAL_BASE ==> r == 0
  {
    if virt >= KERNEL_VIRTUAL_BASE then virt - KERNEL_VIRTUAL_BASE else 0
  }

  lemma VmGetPhysInverse(phys: nat)
    requires phys < U64 - KERNEL_VIRTUAL_BASE
    ensures VmGetPhys(KERNEL_VIRTUAL_BASE + phys) == phys
  {
  }

  class FrameAllocator {
    /** page_bitmap, word by word: flag w * 64 + b is bit b of word w. */
    var bitmap: array<bool>
    /** page_bitmap_entries */
    var entries: nat
    var totalPages: nat
    var usedPages: nat

    ghost predicate Valid()
      reads this
    {
      totalPages < U64 / PAGE_SIZE
      && entries == EntriesFor(totalPages)
      && bitmap.Length == entries * WORD_BITS
      && usedPages < U64
    }

    /** The counter equals the number of set flags. */
    ghost predicate Consistent()
      reads this, bitmap
    {
      usedPages == Count(bitmap[..])
    }

    /** No flag past total_pages (a padding bit of the last word) is set. */
    ghost predicate PaddingClear()
      reads this, bitmap
    {
      forall k :: totalPages <= k < bitmap.Length ==> !bitmap[k]
    }

    /**
     * mm_init with setup_page_bitmap, as written: every marking writes
     * without a bounds check, so the model needs InitFits; used_pages counts
     * every marking, overlapping or not. The kernel bounds come from linker
     * symbols and are taken here as physical addresses.
     */
    constructor Init(memUpperKb: nat, kernelStart: nat, kernelEnd: nat)
      requires InitFits(memUpperKb, kernelStart, kernelEnd)
      ensures Valid() && fresh(bitmap)
      ensures totalPages == TotalPagesFor(memUpperKb) && entries == EntriesFor(totalPages)
      ensures forall k :: 0 <= k < bitmap.Length ==>
        bitmap[k] == (k < LOW_FRAMES
                      || KernelFirstFrame(kernelStart) <= k < KernelFirstFrame(kernelStart) + KernelFrameCount(kernelStart, kernelEnd)
                      || BITMAP_FRAME <= k < BITMAP_FRAME + BitmapFrameCount(entries))
      ensures usedPages == LOW_FRAMES + KernelFrameCount(kernelStart, kernelEnd) + BitmapFrameCount(entries)
    {
      totalPages := TotalPagesFor(memUpperKb);
      entries := EntriesFor(TotalPagesFor(memUpperKb));
      bitmap := new bool[EntriesFor(TotalPagesFor(memUpperKb)) * WORD_BITS](_ => false);
      usedPages := 0;
      new;
      MarkRun(0, LOW_FRAMES);
      MarkRun(KernelFirstFrame(kernelStart), KernelFrameCount(kernelStart, kernelEnd));
      MarkRun(BITMAP_FRAME, BitmapFrameCount(entries));
    }

    /**
     * mm_init with the marking confined to frames below total_pages and the
     * counter raised only for flags that were clear: the counter then always
     * equals the number of set flags.
     */
    constructor InitChecked(memUpperKb: nat, kernelStart: nat, kernelEnd: nat)
      ensures Valid() && Consistent() && PaddingClear() && fresh(bitmap)
      ensures totalPages == TotalPagesFor(memUpperKb) && entries == EntriesFor(totalPages)
      ensures forall k :: 0 <= k < bitmap.Length ==>
        bitmap[k] == (k < totalPages
                      && (k < LOW_FRAMES
                          || KernelFirstFrame(kernelStart) <= k < KernelFirstFrame(kernelStart) + KernelFrameCount(kernelStart, kernelEnd)
                          || BITMAP_FRAME <= k < BITMAP_FRAME + BitmapFrameCount(entries)))
    {
      totalPages := TotalPagesFor(memUpperKb);
      entries := EntriesFor(TotalPagesFor(memUpperKb));
      bitmap := new bool[EntriesFor(TotalPagesFor(memUpperKb)) * WORD_BITS](_ => false);
      usedPages := 0;
      new;
      CountAllClear(bitmap[..]);
      Reserve(0, LOW_FRAMES);
      Reserve(KernelFirstFrame(kernelStart), KernelFrameCount(kernelStart, kernelEnd));
      Reserve(BITMAP_FRAME, BitmapFrameCount(entries));
    }

    /** A marking loop of mm_init: bitmap_set and used_pages++ for each frame. */
    method MarkRun(first: nat, count: nat)
      requires Valid() && first + count <= bitmap.Length
      modifies this`usedPages, bitmap
      ensures Valid()
      ensures forall k :: 0 <= k < bitmap.Length ==> bitmap[k] == (old(bitmap[k]) || first <= k < first + count)
      ensures usedPages == Inc(old(usedPages), count)
    {
      var i := 0;
      while i < count
        invariant 0 <= i <= count
        invariant Valid()
        invariant forall k :: 0 <= k < bitmap.Length ==> bitmap[k] == (old(bitmap[k]) || first <= k < first + i)
        invariant usedPages == Inc(old(usedPages), i)
      {
        BitmapSet(first + i);
        usedPages := Inc(usedPages, 1);
        i := i + 1;
      }
    }

    /** The bounded marking of InitChecked: only frames below total_pages, counted once. */
    method Reserve(first: nat, count: nat)
      requires Valid() && Consistent() && PaddingClear()
      modifies this`usedPages, bitmap
      ensures Valid() && Consistent() && PaddingClear()
      ensures forall k :: 0 <= k < bitmap.Length ==>
        bitmap[k] == (old(bitmap[k]) || (first <= k < first + count && k < totalPages))
    {
      var i := 0;
      while i < count
        invariant 0 <= i <= count
        invariant Valid() && Consistent() && PaddingClear()
        invariant forall k :: 0 <= k < bitmap.Length ==>
          bitmap[k] == (old(bitmap[k]) || (first <= k < first + i && k < totalPages))
      {
        if first + i < totalPages && !BitmapTest(first + i) {
          CountUpdate(bitmap[..], first + i, true);
          BitmapSet(first + i);
          usedPages := usedPages + 1;
        }
        i := i + 1;
      }
    }

    /** bitmap_set: sets bit index % 64 of word index / 64 and nothing else. */
    method BitmapSet(index: nat)
      requires Valid() && index / WORD_BITS < entries
      modifies bitmap
      ensures bitmap[..] == old(bitmap[..])[index := true]
    {
      var entry := index / WORD_BITS;
      var bit := index % WORD_BITS;
      bitmap[entry * WORD_BITS + bit] := true;
    }

    /** bitmap_clear: clears bit index % 64 of word index / 64 and nothing else. */
    method BitmapClear(index: nat)
      requires Valid() && index / WORD_BITS < entries
      modifies bitmap
      ensures bitmap[..] == old(bitmap[..])[index := false]
    {
      var entry := index / WORD_BITS;
      var bit := index % WORD_BITS;
      bitmap[entry * WORD_BITS + bit] := false;
    }

    /** bitmap_test: reads the same bit that bitmap_set and bitmap_clear write. */
    function BitmapTest(index: nat): (r: bool)
      requires Valid() && index / WORD_BITS < entries
      reads this, bitmap
      ensures index < bitmap.Length && r == bitmap[index]
    {
      var entry := index / WORD_BITS;
      var bit := index % WORD_BITS;
      bitmap[entry * WORD_BITS + bit]
    }

    /** page_bitmap[w] == ~0ULL */
    predicate WordFull(w: nat)
      requires Valid() && w < entries
      reads this, bitmap
    {
      forall k :: w * WORD_BITS <= k < w * WORD_BITS + WORD_BITS ==> bitmap[k]
    }

    /**
     * bitmap_find_free: the first clear flag over all entries * 64 flags,
     * including the padding flags past total_pages, or NOT_FOUND.
     */
    method FindFree() returns (r: nat)
      requires Valid()
      ensures r == FirstClear(bitmap[..])
      ensures r == NOT_FOUND <==> forall k :: 0 <= k < bitmap.Length ==> bitmap[k]
    {
      var i := 0;
      while i < entries
        invariant 0 <= i <= entries
        invariant forall k :: 0 <= k < i * WORD_BITS ==> bitmap[k]
      {
        if !WordFull(i) {
          var j := 0;
          while j < WORD_BITS
            invariant 0 <= j <= WORD_BITS
            invariant forall k :: 0 <= k < i * WORD_BITS + j ==> bitmap[k]
          {
            if !bitmap[i * WORD_BITS + j] {
              r := i * WORD_BITS + j;
              assert bitmap[..][r] == bitmap[r];
              return;
            }
            j := j + 1;
          }
        }
        i := i + 1;
      }
      r := NOT_FOUND;
      assert forall k :: 0 <= k < bitmap.Length ==> bitmap[..][k];
    }

    /**
     * The search bounded by total_pages: what bitmap_find_free evidently
     * intends, a frame that exists.
     */
    method FindFreeBounded() returns (r: nat)
      requires Valid()
      ensures r == FirstClear(bitmap[..totalPages])
      ensures r == NOT_FOUND || r < totalPages
    {
      var i := 0;
      while i < totalPages
        invariant 0 <= i <= totalPages
        invariant forall k :: 0 <= k < i ==> bitmap[k]
      {
        if !bitmap[i] {
          r := i;
          assert bitmap[..totalPages][r] == bitmap[r];
          return;
        }
        i := i + 1;
      }
      r := NOT_FOUND;
      assert forall k :: 0 <= k < totalPages ==> bitmap[..totalPages][k];
    }

    /**
     * bitmap_find_free_contiguous: NOT_FOUND for n == 0, bitmap_find_free for
     * n == 1, and otherwise the lowest run of n clear frames below total_pages.
     */
    method FindFreeContiguous(n: nat) returns (r: nat)
      requires Valid()
      ensures n == 0 ==> r == NOT_FOUND
      ensures n == 1 ==> r == FirstClear(bitmap[..])
      ensures n >= 2 ==> r == FirstRun(bitmap[..totalPages], n)
    {
      if n == 0 {
        return NOT_FOUND;
      }
      if n == 1 {
        r := FindFree();
        return;
      }
      ghost var s := bitmap[..totalPages];
      var start, count := 0, 0;
      var i := 0;
      while i < totalPages
        invariant 0 <= i <= totalPages
        invariant count <= i && count < n
        invariant RunClear(s, i - count, count)
        invariant count > 0 ==> start == i - count
        invariant i - count > 0 ==> s[i - count - 1]
        invariant forall s0: nat :: s0 + n <= i ==> !RunClear(s, s0, n)
      {
        if !bitmap[i] {
          if count == 0 {
            start := i;
          }
          count := count + 1;
          if count >= n {
            assert s[i] == bitmap[i];
            RunFound(s, n, start, i + 1);
            return start;
          }
        } else {
          count := 0;
        }
        assert s[i] == bitmap[i];
        NoRunEndsAt(s, n, i, count);
        i := i + 1;
      }
      r := NOT_FOUND;
      assert forall s0: nat :: s0 + n <= |s| ==> !RunClear(s, s0, n);
    }

    /**
     * mm_alloc_page: the first clear flag is set and the counter rises by 1;
     * 0 when every flag is set.
     */
    method AllocPage() returns (addr: nat)
      requires Valid()
      modifies this`usedPages, bitmap
      ensures Valid()
      ensures var p := FirstClear(old(bitmap[..]));
        if p == NOT_FOUND then
          addr == 0 && bitmap[..] == old(bitmap[..]) && usedPages == old(usedPages)
        else
          !old(bitmap[p]) && bitmap[..] == old(bitmap[..])[p := true]
          && addr == (p * PAGE_SIZE) % U64 && usedPages == Inc(old(usedPages), 1)
      ensures old(Consistent()) ==> Consistent()
    {
      var page := FindFree();
      if page == NOT_FOUND {
        return 0;
      }
      CountUpdate(bitmap[..], page, true);
      BitmapSet(page);
      usedPages := Inc(usedPages, 1);
      addr := (page * PAGE_SIZE) % U64;
    }

    /**
     * mm_alloc_pages: the n frames found by bitmap_find_free_contiguous were
     * all clear and are all set; the counter rises by n. 0 on failure.
     */
    method AllocPages(pages: nat) returns (addr: nat, ghost start: nat)
      requires Valid()
      modifies this`usedPages, bitmap
      ensures Valid()
      ensures start == NOT_FOUND ==>
        addr == 0 && bitmap[..] == old(bitmap[..]) && usedPages == old(usedPages)
      ensures start != NOT_FOUND ==>
        1 <= pages && start + pages <= bitmap.Length
        && (pages >= 2 ==> start + pages <= totalPages)
        && RunClear(old(bitmap[..]), start, pages)
        && (forall k :: 0 <= k < bitmap.Length ==> bitmap[k] == (old(bitmap[k]) || start <= k < start + pages))
        && addr == (start * PAGE_SIZE) % U64 && usedPages == Inc(old(usedPages), pages)
      ensures pages == 0 ==> start == NOT_FOUND
      ensures pages == 1 ==> start == FirstClear(old(bitmap[..]))
      ensures pages >= 2 ==> start == FirstRun(old(bitmap[..totalPages]), pages)
      ensures old(Consistent()) ==> Consistent()
    {
      var page := FindFreeContiguous(pages);
      start := page;
      if page == NOT_FOUND {
        return 0, start;
      }
      if pages >= 2 {
        RunOfPrefix(bitmap[..], totalPages, page, pages);
      }
      SetRun(page, pages);
      usedPages := Inc(usedPages, pages);
      addr := (page * PAGE_SIZE) % U64;
    }

    /** The marking loop of mm_alloc_pages: bitmap_set on each frame of a clear run. */
    method SetRun(page: nat, pages: nat)
      requires Valid() && page + pages <= bitmap.Length
      requires RunClear(bitmap[..], page, pages)
      modifies bitmap
      ensures forall k :: 0 <= k < bitmap.Length ==> bitmap[k] == (old(bitmap[k]) || page <= k < page + pages)
      ensures Count(bitmap[..]) == Count(old(bitmap[..])) + pages
    {
      var i := 0;
      while i < pages
        invariant 0 <= i <= pages
        invariant forall k :: 0 <= k < bitmap.Length ==> bitmap[k] == (old(bitmap[k]) || page <= k < page + i)
        invariant Count(bitmap[..]) == Count(old(bitmap[..])) + i
      {
        assert !old(bitmap[..])[page + i];
        CountUpdate(bitmap[..], page + i, true);
        BitmapSet(page + i);
        i := i + 1;
      }
    }

    /**
     * mm_free_page: ignored below 1 MiB and at or past total_pages; otherwise
     * the flag is cleared and the counter drops by 1 whether or not the flag
     * was set.
     */
    method FreePage(addr: nat)
      requires Valid()
      modifies this`usedPages, bitmap
      ensures Valid()
      ensures addr < MANAGED_START || addr / PAGE_SIZE >= totalPages ==>
        bitmap[..] == old(bitmap[..]) && usedPages == old(usedPages)
      ensures addr >= MANAGED_START && addr / PAGE_SIZE < totalPages ==>
        bitmap[..] == old(bitmap[..])[addr / PAGE_SIZE := false] && usedPages == Dec(old(usedPages))
      ensures old(Consistent()) && (addr >= MANAGED_START && addr / PAGE_SIZE < totalPages ==> old(bitmap[addr / PAGE_SIZE]))
        ==> Consistent()
    {
      if addr < MANAGED_START {
        return;
      }
      var page := addr / PAGE_SIZE;
      if page >= totalPages {
        return;
      }
      CountUpdate(bitmap[..], page, false);
      BitmapClear(page);
      usedPages := Dec(usedPages);
    }

    /** mm_free_page that drops the counter only when the flag was set. */
    method FreePageChecked(addr: nat)
      requires Valid() && Consistent()
      modifies this`usedPages, bitmap
      ensures Valid() && Consistent()
      ensures addr < MANAGED_START || addr / PAGE_SIZE >= totalPages ==> bitmap[..] == old(bitmap[..])
      ensures addr >= MANAGED_START && addr / PAGE_SIZE < totalPages ==>
        bitmap[..] == old(bitmap[..])[addr / PAGE_SIZE := false]
    {
      if addr < MANAGED_START {
        return;
      }
      var page := addr / PAGE_SIZE;
      if page >= totalPages {
        return;
      }
      if BitmapTest(page) {
        CountUpdate(bitmap[..], page, false);
        BitmapClear(page);
        usedPages := usedPages - 1;
      }
    }

    /**
     * mm_free_pages: mm_free_page on each of the n pages from addr; the
     * frames that lie in [256, total_pages) are cleared, one decrement each.
     */
    method FreePages(addr: nat, pages: nat)
      requires Valid()
      modifies this`usedPages, bitmap
      ensures Valid()
      ensures forall k :: 0 <= k < bitmap.Length ==>
        bitmap[k] == (old(bitmap[k]) && !FreedBy(addr, pages, totalPages, k))
      ensures usedPages == DecBy(old(usedPages), FreedCount(addr, pages, totalPages))
    {
      var i := 0;
      while i < pages
        invariant 0 <= i <= pages
        invariant Valid()
        invariant forall k :: 0 <= k < bitmap.Length ==>
          bitmap[k] == (old(bitmap[k]) && !FreedBy(addr, i, totalPages, k))
        invariant usedPages == DecBy(old(usedPages), FreedCount(addr, i, totalPages))
      {
        var a := addr + i * PAGE_SIZE;
        assert a / PAGE_SIZE == addr / PAGE_SIZE + i;
        assert a < MANAGED_START <==> addr / PAGE_SIZE + i < LOW_FRAMES;
        ghost var u := usedPages;
        FreePage(a);
        if LOW_FRAMES <= addr / PAGE_SIZE + i < totalPages {
          assert FreedCount(addr, i + 1, totalPages) == FreedCount(addr, i, totalPages) + 1;
          assert usedPages == Dec(u);
        } else {
          assert FreedCount(addr, i + 1, totalPages) == FreedCount(addr, i, totalPages);
          assert usedPages == u;
        }
        i := i + 1;
      }
    }

    /** mm_get_total_pages */
    function GetTotalPages(): nat
      reads this
    {
      totalPages
    }

    /** mm_get_free_pages: total_pages - used_pages in size_t arithmetic. */
    function GetFreePages(): (r: nat)
      requires Valid()
      reads this
      ensures r < U64
    {
      (totalPages - usedPages) % U64
    }

    /**
     * While the counter is consistent and no padding flag is set,
     * mm_get_free_pages is the number of clear flags below total_pages.
     */
    lemma FreePagesCountsClearFrames()
      requires Valid() && Consistent() && PaddingClear()
      ensures GetFreePages() == totalPages - Count(bitmap[..totalPages])
      ensures GetTotalPages() - GetFreePages() == Count(bitmap[..totalPages])
    {
      var s := bitmap[..];
      CountSplit(s, totalPages);
      assert s[..totalPages] == bitmap[..totalPages];
      CountAllClear(s[totalPages..]);
    }
  }

  /** Frame k is one of the first n pages from addr that mm_free_page accepts. */
  predicate FreedBy(addr: nat, n: nat, totalPages: nat, k: nat)
  {
    addr / PAGE_SIZE <= k < addr / PAGE_SIZE + n && LOW_FRAMES <= k < totalPages
  }

  /** How many of the first i pages from addr mm_free_page accepts. */
  function FreedCount(addr: nat, i: nat, totalPages: nat): nat
  {
    if i == 0 then 0
    else FreedCount(addr, i - 1, totalPages)
         + (if LOW_FRAMES <= addr / PAGE_SIZE + i - 1 < totalPages then 1 else 0)
  }

  /** size_t subtraction of n, one wrapping decrement at a time. */
  function DecBy(x: nat, n: nat): (r: nat)
    requires x < U64
    ensures r < U64
  {
    if n == 0 then x else Dec(DecBy(x, n - 1))
  }

  /** A run found in the first m flags is a run of the whole sequence. */
  lemma RunOfPrefix(s: seq<bool>, m: nat, page: nat, n: nat)
    requires m <= |s| < NOT_FOUND && 1 <= n
    requires FirstRun(s[..m], n) == page && page != NOT_FOUND
    ensures page + n <= m && RunClear(s, page, n)
  {
    forall k | page <= k < page + n && k < |s|
      ensures !s[k]
    {
      assert s[..m][k] == s[k];
    }
  }

  lemma {:induction false} RunFound(s: seq<bool>, n: nat, start: nat, end: nat)
    requires 1 <= n && |s| < NOT_FOUND && end <= |s| && start + n == end
    requires RunClear(s, start, n)
    requires forall s0: nat :: s0 + n <= end - 1 ==> !RunClear(s, s0, n)
    ensures FirstRun(s, n) == start
  {
  }

  lemma {:induction false} NoRunEndsAt(s: seq<bool>, n: nat, i: nat, count: nat)
    requires 2 <= n && i < |s| && count < n && count <= i + 1
    requires s[i] ==> count == 0
    requires !s[i] ==> (count >= 1 && RunClear(s, i + 1 - count, count)
                        && (i + 1 - count > 0 ==> s[i - count]))
    requires forall s0: nat :: s0 + n <= i ==> !RunClear(s, s0, n)
    ensures forall s0: nat :: s0 + n <= i + 1 ==> !RunClear(s, s0, n)
  {
    forall s0: nat | s0 + n == i + 1
      ensures !RunClear(s, s0, n)
    {
      if s[i] {
        assert s0 <= i < s0 + n;
      } else {
        assert s0 <= i - count < s0 + n;
      }
    }
  }

  /**
   * The double free of mm_free_page: when the flag is already clear, the
   * state after the free no longer counts its set flags.
   */
  lemma DoubleFreeDrifts(s: seq<bool>, used: nat, page: nat)
    requires |s| < U64 && page < |s| && !s[page] && used == Count(s)
    ensures Dec(used) != Count(s[page := false])
  {
    assert s[page := false] == s;
  }

  /**
   * bitmap_find_free can return a padding flag: one page of memory gives one
   * word, and with frame 0 in use the search answers frame 1.
   */
  lemma FindFreeReturnsPadding()
    ensures var s := [true] + seq(63, _ => false);
      |s| == EntriesFor(1) * WORD_BITS && FirstClear(s) == 1 && FirstClear(s) >= 1
  {
    var s := [true] + seq(63, _ => false);
    assert !s[1];
    assert s[0];
  }
}
