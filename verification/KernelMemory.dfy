/** memory_init: which pages are set aside at boot, where the heap ends up, and what that
    means for every page handed out afterwards. */
module KernelMemory {
  import opened Bytes
  import opened FlatMemory
  import opened Pages
  import P = PageOwnership
  import opened HeapBlocks
  import opened KernelHeap

  const HEAP_PAGES: nat := 256
  const LOW_MEMORY: nat := 0x0010_0000
  const MAPPED_BYTES: nat := 0x0400_0000

  /** The page count for the boot record's memory size in MiB: 64 when there is no record or
      it says 0, and never more than 64. */
  function MappedPages(bootMb: Option<Word32>): (pages: nat)
    ensures 256 <= pages <= MAX_PAGES && pages % 256 == 0
  {
    var mb := if bootMb.Some? && bootMb.value != 0 then bootMb.value else 64;
    (if mb > 64 then 64 else mb) * 256
  }

  function ReservedTop(kernelEnd: Word): Word {
    AlignUp(if kernelEnd > LOW_MEMORY then kernelEnd else LOW_MEMORY, PAGE_SIZE)
  }

  /** The pages memory_init marks before it places the heap. */
  function Reserved(pages: nat, kernelEnd: Word): (r: seq<bool>)
    ensures |r| == pages
  {
    var low := Marked(AllFree(pages), 0, ReservedTop(kernelEnd) / PAGE_SIZE, true);
    Marked(low, WINDOW_START / PAGE_SIZE, WINDOW_END / PAGE_SIZE, true)
  }

  /** The record's memory size decides the number of pages: its MiB up to 64, and 64 MiB when
      there is no record or it names none. */
  lemma MappedBytes(bootMb: Option<Word32>)
    ensures bootMb == None || bootMb == Some(0) ==> MappedPages(bootMb) * 4096 == 0x400_0000
    ensures forall mb :: bootMb == Some(mb) && 0 < mb <= 64 ==> MappedPages(bootMb) * 4096 == mb * 0x10_0000
    ensures forall mb :: bootMb == Some(mb) && 64 < mb ==> MappedPages(bootMb) * 4096 == 0x400_0000
  {}

  /** The pages set aside are exactly those of low memory, the kernel and the app window; of
      these only the window when the end of the kernel wraps around. */
  lemma ReservedExactly(pages: nat, kernelEnd: Word, p: nat)
    requires p < pages <= MAX_PAGES
    ensures
      var at := p * 4096;
      Reserved(pages, kernelEnd)[p]
      <==> || 0x40_0000 <= at < 0x80_0000
           || (kernelEnd <= 0xFFFF_FFFF_FFFF_F000 && (at < 0x10_0000 || at < kernelEnd))
  {
    var top := if kernelEnd > LOW_MEMORY then kernelEnd else LOW_MEMORY;
    if kernelEnd <= 0xFFFF_FFFF_FFFF_F000 {
      PageRounding(top);
    } else {
      assert ReservedTop(kernelEnd) == 0;
    }
  }

  lemma PageRounding(x: Word)
    requires x <= 0xFFFF_FFFF_FFFF_F000
    ensures AlignUp(x, 4096) == 4096 * ((x + 4095) / 4096)
    ensures forall p: nat :: p < AlignUp(x, 4096) / 4096 <==> p * 4096 < x
  {}

  /** Low memory and the kernel are set aside exactly when the end of the kernel rounds up to
      a page boundary without wrapping around. */
  lemma LowPagesReserved(pages: nat, kernelEnd: Word)
    requires 256 <= pages
    ensures (forall p :: 0 <= p < pages && (p * PAGE_SIZE < LOW_MEMORY || p * PAGE_SIZE < kernelEnd)
              ==> Reserved(pages, kernelEnd)[p])
        <==> kernelEnd <= WORD_LIMIT - PAGE_SIZE
  {
    if kernelEnd <= WORD_LIMIT - PAGE_SIZE {
      var top := if kernelEnd > LOW_MEMORY then kernelEnd else LOW_MEMORY;
      assert top <= ReservedTop(kernelEnd) < top + PAGE_SIZE;
    } else {
      assert ReservedTop(kernelEnd) == 0;
      assert !Reserved(pages, kernelEnd)[0];
    }
  }

  lemma WindowPagesReserved(pages: nat, kernelEnd: Word, p: nat)
    requires p < pages && WINDOW_START <= p * PAGE_SIZE < WINDOW_END
    ensures Reserved(pages, kernelEnd)[p]
  {}

  /** When the end of the kernel wraps around, nothing but the window is reserved. */
  lemma WrappedReservesNothingLow(pages: nat, kernelEnd: Word)
    requires 256 <= pages && kernelEnd > WORD_LIMIT - PAGE_SIZE
    ensures FirstRun(Reserved(pages, kernelEnd), HEAP_PAGES, 0) == Some(0)
  {
    assert ReservedTop(kernelEnd) == 0;
    assert RunFree(Reserved(pages, kernelEnd), 0, HEAP_PAGES);
    LowestRunFound(Reserved(pages, kernelEnd), HEAP_PAGES, 0);
  }

  /** The pool after boot: the heap's pages are the first grant. */
  ghost function BootPool(pages: nat, kernelEnd: Word): P.Pool {
    P.Step(P.Pool(Reserved(pages, kernelEnd), {}), P.Alloc(HEAP_PAGES))
  }

  /** The heap's blocks when it is set up while the given pages are in use: none when its
      pages cannot be found or start at null. */
  ghost function PlacedBlocks(used: seq<bool>): seq<Block> {
    match FirstRun(used, HEAP_PAGES, 0)
    case None => []
    case Some(s) => if s == 0 then [] else Initial(s * PAGE_SIZE, (s + HEAP_PAGES) * PAGE_SIZE)
  }

  ghost function BootBlocks(pages: nat, kernelEnd: Word): seq<Block> {
    PlacedBlocks(Reserved(pages, kernelEnd))
  }

  /** Where the heap's first page is, for every memory size and every kernel end that does not
      wrap: right behind the kernel if the mebibyte fits below the app window, else behind
      the window or the kernel, whichever ends later; and nowhere if it fits neither place. */
  function HeapPage(pages: nat, kernelEnd: Word): Option<nat> {
    var top := ((if kernelEnd > 0x10_0000 then kernelEnd else 0x10_0000) + 4095) / 4096;
    var high := if top > 2048 then top else 2048;
    if top + 256 <= 1024 && top + 256 <= pages then Some(top)
    else if high + 256 <= pages then Some(high)
    else None
  }

  /** The free pages before the heap is placed, as two stretches. */
  lemma FreeBeforeHeap(pages: nat, kernelEnd: Word)
    requires pages <= MAX_PAGES && kernelEnd <= 0xFFFF_FFFF_FFFF_F000
    ensures
      var top := ((if kernelEnd > 0x10_0000 then kernelEnd else 0x10_0000) + 4095) / 4096;
      forall p :: 0 <= p < pages ==> (Reserved(pages, kernelEnd)[p] <==> p < top || 1024 <= p < 2048)
  {
    hide Reserved;
    forall p: nat | p < pages
      ensures
        var top := ((if kernelEnd > 0x10_0000 then kernelEnd else 0x10_0000) + 4095) / 4096;
        Reserved(pages, kernelEnd)[p] <==> p < top || 1024 <= p < 2048
    {
      ReservedExactly(pages, kernelEnd, p);
    }
  }

  lemma RunNeedsFree(used: seq<bool>, s: nat, count: nat, p: nat)
    requires s <= p < s + count && (p < |used| ==> used[p])
    ensures !RunFree(used, s, count)
  {}

  lemma HeapPlace(pages: nat, kernelEnd: Word)
    requires pages <= MAX_PAGES && kernelEnd <= 0xFFFF_FFFF_FFFF_F000
    ensures FirstRun(Reserved(pages, kernelEnd), HEAP_PAGES, 0) == HeapPage(pages, kernelEnd)
  {
    hide FirstRun, Reserved;
    var used, place := Reserved(pages, kernelEnd), HeapPage(pages, kernelEnd);
    FreeBeforeHeap(pages, kernelEnd);
    var top := ((if kernelEnd > 0x10_0000 then kernelEnd else 0x10_0000) + 4095) / 4096;
    forall s: nat | place.None? || s < place.value ensures !RunFree(used, s, HEAP_PAGES) {
      if s < top {
        RunNeedsFree(used, s, 256, s);
      } else if s < 2048 && 1024 < s + 256 {
        RunNeedsFree(used, s, 256, if s < 1024 then 1024 else s);
      } else {
        RunNeedsFree(used, s, 256, s + 255);
      }
    }
    if place.Some? {
      LowestRunFound(used, HEAP_PAGES, place.value);
    }
  }

  /** So after boot the heap is a single free block of one MiB, less its header, in that place;
      there is none when the kernel's end wraps. */
  lemma BootHeap(pages: nat, kernelEnd: Word)
    requires 256 <= pages <= MAX_PAGES
    ensures
      BootBlocks(pages, kernelEnd) ==
        if kernelEnd > 0xFFFF_FFFF_FFFF_F000 then []
        else match HeapPage(pages, kernelEnd) case None => [] case Some(s) => [Block(s * 4096, 0xF_FFE0, true)]
  {
    hide FirstRun, Reserved;
    if kernelEnd <= 0xFFFF_FFFF_FFFF_F000 {
      HeapPlace(pages, kernelEnd);
    } else {
      WrappedReservesNothingLow(pages, kernelEnd);
    }
  }

  /** And the pages in use after boot are those set aside and the heap's, and no others. */
  lemma BootUses(pages: nat, kernelEnd: Word, p: nat)
    requires p < pages <= MAX_PAGES && kernelEnd <= 0xFFFF_FFFF_FFFF_F000
    ensures
      var at, place := p * 4096, HeapPage(pages, kernelEnd);
      BootPool(pages, kernelEnd).used[p]
      <==> || at < 0x10_0000 || at < kernelEnd || 0x40_0000 <= at < 0x80_0000
           || (place.Some? && place.value <= p < place.value + 256)
  {
    hide FirstRun, Reserved, HeapPage;
    ReservedExactly(pages, kernelEnd, p);
    HeapPlace(pages, kernelEnd);
  }

  /** A page that lies above null, low memory and the kernel. */
  ghost predicate Above(page: nat, kernelEnd: Word) {
    0 < page && LOW_MEMORY <= page * PAGE_SIZE && kernelEnd <= page * PAGE_SIZE
  }

  /** Over every run from boot: the owned pages lie in mapped memory, outside the app window,
      and above the kernel unless its end wraps around; and a grant takes only pages that
      nobody owned. */
  lemma OwnedPagesClear(pages: nat, kernelEnd: Word, es: seq<P.Event>, count: nat)
    requires 256 <= pages && P.LegalRun(BootPool(pages, kernelEnd), es)
    ensures
      var pool := P.Run(BootPool(pages, kernelEnd), es);
      && (forall p :: p in pool.owned ==>
            && p < pages && !(WINDOW_START <= p * PAGE_SIZE < WINDOW_END)
            && (kernelEnd <= WORD_LIMIT - PAGE_SIZE ==> Above(p, kernelEnd)))
      && (P.Granted(pool, count).Some? ==> P.PagesOf(P.Granted(pool, count).value, count) !! pool.owned)
  {
    hide FirstRun, Reserved;
    var reserved := Reserved(pages, kernelEnd);
    var pool := P.Run(BootPool(pages, kernelEnd), es);
    P.AllocKeepsSound(P.Pool(reserved, {}), reserved, HEAP_PAGES);
    P.RunKeepsSound(BootPool(pages, kernelEnd), reserved, es);
    P.AllocKeepsSound(pool, reserved, count);
    LowPagesReserved(pages, kernelEnd);
    forall p | p in pool.owned
      ensures p < pages && !(WINDOW_START <= p * PAGE_SIZE < WINDOW_END)
      ensures kernelEnd <= WORD_LIMIT - PAGE_SIZE ==> Above(p, kernelEnd)
    {
      if WINDOW_START <= p * PAGE_SIZE < WINDOW_END {
        WindowPagesReserved(pages, kernelEnd, p);
      }
    }
  }

  /** Every page ever granted lies above null, low memory and the kernel, in every run, exactly
      when the end of the kernel rounds up without wrapping around: when it does wrap, the
      heap's own grant starts at null. */
  lemma GrantsStayClear(pages: nat, kernelEnd: Word)
    requires 256 <= pages
    ensures
      (forall es: seq<P.Event>, p: nat :: P.LegalRun(BootPool(pages, kernelEnd), es) && p in P.Run(BootPool(pages, kernelEnd), es).owned
         ==> Above(p, kernelEnd))
      <==> kernelEnd <= WORD_LIMIT - PAGE_SIZE
  {
    hide FirstRun, Reserved, P.Step;
    if kernelEnd <= WORD_LIMIT - PAGE_SIZE {
      forall es: seq<P.Event>, p: nat | P.LegalRun(BootPool(pages, kernelEnd), es) && p in P.Run(BootPool(pages, kernelEnd), es).owned
        ensures Above(p, kernelEnd)
      {
        OwnedPagesClear(pages, kernelEnd, es, 0);
      }
    } else {
      WrappedHeapAtNull(pages, kernelEnd);
      var none: seq<P.Event> := [];
      assert P.LegalRun(BootPool(pages, kernelEnd), none);
      assert 0 in P.Run(BootPool(pages, kernelEnd), none).owned && !Above(0, kernelEnd);
    }
  }

  /** With a kernel end that wraps around, the heap is granted pages 0 to 255: the allocator
      answers null, no heap is set up, and the pages stay in use. */
  lemma WrappedHeapAtNull(pages: nat, kernelEnd: Word)
    requires 256 <= pages && kernelEnd > WORD_LIMIT - PAGE_SIZE
    ensures P.PagesOf(0, HEAP_PAGES) <= BootPool(pages, kernelEnd).owned
    ensures P.Reply(P.Pool(Reserved(pages, kernelEnd), {}), P.Alloc(HEAP_PAGES)) == 0
    ensures BootBlocks(pages, kernelEnd) == []
  {
    hide FirstRun, Reserved;
    WrappedReservesNothingLow(pages, kernelEnd);
  }

  /** The heap's pages form an aligned region of mapped memory. */
  lemma HeapRegion(used: seq<bool>)
    requires |used| <= MAX_PAGES
    ensures Aligned16(0) && Aligned16(HEAP_PAGES * PAGE_SIZE)
    ensures
      match FirstRun(used, HEAP_PAGES, 0)
      case None => true
      case Some(s) => Aligned16(s * 4096) && s * 4096 + 0x10_0000 <= MAPPED_BYTES
  {
    hide FirstRun;
    match FirstRun(used, HEAP_PAGES, 0)
    case None =>
    case Some(s) =>
      assert RunFree(used, s, HEAP_PAGES);
      assert s * 4096 == 16 * (s * 256);
  }

  class KernelMemory {
    const mem: array<Byte>
    const pages: PageAllocator
    const heap: Heap

    constructor ()
      ensures Valid() && fresh(mem) && fresh(pages) && fresh(pages.bitmap) && fresh(heap)
    {
      var cells := new Byte[MAPPED_BYTES];
      mem := cells;
      pages := new PageAllocator();
      heap := new Heap(cells);
    }

    ghost predicate Valid()
      reads this, mem, pages, pages.bitmap, heap
    {
      && mem.Length == MAPPED_BYTES && heap.mem == mem
      && pages.Valid()
    }

    method HeapInit()
      requires Valid()
      modifies heap, mem, pages.bitmap
      ensures pages.Valid() && heap.Valid()
      ensures
        match FirstRun(old(pages.Used()), HEAP_PAGES, 0)
        case None => pages.Used() == old(pages.Used())
        case Some(s) => pages.Used() == Marked(old(pages.Used()), s, s + HEAP_PAGES, true)
      ensures heap.blocks == PlacedBlocks(old(pages.Used()))
    {
      hide FirstRun, Marked, RunFree, Headed, Tiles, Aligned, Coalesced, Aligned16;
      HeapRegion(pages.Used());
      var region := pages.PageAlloc(HEAP_PAGES);
      heap.Init(region, HEAP_PAGES * PAGE_SIZE);
    }

    /** The first half of memory_init: what is set aside before the heap is placed. */
    method ReservePages(bootMb: Option<Word32>, kernelEnd: Word)
      requires Valid()
      modifies pages, pages.bitmap
      ensures pages.Valid() && pages.totalPages == MappedPages(bootMb)
      ensures pages.Used() == Reserved(MappedPages(bootMb), kernelEnd)
    {
      assert AlignUp(WINDOW_END, PAGE_SIZE) == WINDOW_END;
      assert AlignUp(ReservedTop(kernelEnd), PAGE_SIZE) == ReservedTop(kernelEnd);
      hide Marked, AlignUp;
      pages.Reset(MappedPages(bootMb));
      var top := if kernelEnd > LOW_MEMORY then kernelEnd else LOW_MEMORY;
      var reservedTop := AlignUp(top, PAGE_SIZE);
      pages.MarkRange(0, reservedTop, true);
      pages.MarkRange(WINDOW_START, WINDOW_END, true);
    }

    method MemoryInit(bootMb: Option<Word32>, kernelEnd: Word)
      requires Valid()
      modifies heap, mem, pages, pages.bitmap
      ensures pages.Valid() && heap.Valid()
      ensures pages.totalPages == MappedPages(bootMb)
      ensures pages.Used() == BootPool(MappedPages(bootMb), kernelEnd).used
      ensures heap.blocks == BootBlocks(MappedPages(bootMb), kernelEnd)
    {
      hide FirstRun, Marked, Reserved, PlacedBlocks, MappedPages, Headed, Tiles, Aligned, Coalesced;
      ReservePages(bootMb, kernelEnd);
      HeapInit();
    }
  }
}
