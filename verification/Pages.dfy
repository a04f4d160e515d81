/** The physical page allocator: a bitmap of used pages scanned for runs of free ones. */
module Pages {
  import opened Bytes

  const PAGE_SIZE: nat := 4096
  const MAX_PAGES: nat := 16384 // 64 MiB of mapped memory

  // ---------- The pages as a sequence of used/free ----------

  ghost predicate RunFree(used: seq<bool>, start: nat, count: nat) {
    && start + count <= |used|
    && forall p :: start <= p < start + count ==> !used[p]
  }

  /** The naive search: try every start from `from` on. */
  ghost function FirstRun(used: seq<bool>, count: nat, from: nat): (r: Option<nat>)
    ensures r.Some? ==> from <= r.value && RunFree(used, r.value, count)
    ensures r.Some? ==> forall s :: from <= s < r.value ==> !RunFree(used, s, count)
    ensures r.None? ==> forall s :: from <= s ==> !RunFree(used, s, count)
    decreases |used| - from
  {
    if |used| < from + count then None
    else if RunFree(used, from, count) then Some(from)
    else if |used| <= from then None
    else FirstRun(used, count, from + 1)
  }

  function Marked(used: seq<bool>, lo: nat, hi: nat, value: bool): (r: seq<bool>)
    ensures |r| == |used|
    ensures forall p :: 0 <= p < |used| ==> r[p] == if lo <= p < hi then value else used[p]
  {
    seq(|used|, p requires 0 <= p < |used| => if lo <= p < hi then value else used[p])
  }

  /** The lowest free run is the one the naive search finds. */
  lemma LowestRunFound(used: seq<bool>, count: nat, start: nat)
    requires RunFree(used, start, count)
    requires forall s :: 0 <= s < start ==> !RunFree(used, s, count)
    ensures FirstRun(used, count, 0) == Some(start)
  {
    hide FirstRun;
    var r := FirstRun(used, count, 0);
    assert r.Some? ==> !(r.value < start) && !(start < r.value);
  }

  function AllFree(count: nat): (r: seq<bool>)
    ensures |r| == count
    ensures forall p :: 0 <= p < count ==> !r[p]
  {
    seq(count, _ => false)
  }

  function CountUsed(used: seq<bool>): nat {
    if used == [] then 0 else CountUsed(used[..|used| - 1]) + (if used[|used| - 1] then 1 else 0)
  }

  lemma {:induction false} CountBounded(used: seq<bool>)
    ensures CountUsed(used) <= |used|
  {
    if used != [] { CountBounded(used[..|used| - 1]); }
  }

  // ---------- One byte of the bitmap ----------

  function Mask(k: nat): bv8
    requires k < 8
  {
    if k == 0 then 0x01 else if k == 1 then 0x02 else if k == 2 then 0x04 else if k == 3 then 0x08
    else if k == 4 then 0x10 else if k == 5 then 0x20 else if k == 6 then 0x40 else 0x80
  }

  predicate Bit(b: bv8, k: nat)
    requires k < 8
  {
    b & Mask(k) != 0
  }

  lemma SetBits(b: bv8, k: nat, j: nat)
    requires k < 8 && j < 8
    ensures Bit(b | Mask(k), j) == (j == k || Bit(b, j))
  {}

  lemma ClearBits(b: bv8, k: nat, j: nat)
    requires k < 8 && j < 8
    ensures Bit(b & !Mask(k), j) == (j != k && Bit(b, j))
  {}

  predicate BitAt(bits: seq<bv8>, index: nat)
    requires index < |bits| * 8
  {
    Bit(bits[index / 8], index % 8)
  }

  /** The pages a bitmap says are used. */
  ghost function UsedPages(bits: seq<bv8>, total: nat): (used: seq<bool>)
    requires total <= |bits| * 8
    ensures |used| == total
    ensures forall i :: 0 <= i < total ==> used[i] == BitAt(bits, i)
  {
    seq(total, i requires 0 <= i < total => BitAt(bits, i))
  }

  /** A byte of the bitmap with one page marked used or free. */
  function WithBit(b: bv8, k: nat, value: bool): bv8
    requires k < 8
  {
    if value then b | Mask(k) else b & !Mask(k)
  }

  lemma WithBitSets(b: bv8, k: nat, value: bool, j: nat)
    requires k < 8 && j < 8
    ensures Bit(WithBit(b, k, value), j) == if j == k then value else Bit(b, j)
  {
    SetBits(b, k, j);
    ClearBits(b, k, j);
    hide Bit, Mask;
  }

  lemma SetPage(bits: seq<bv8>, total: nat, index: nat, value: bool)
    requires index < total <= |bits| * 8
    ensures UsedPages(bits[index / 8 := WithBit(bits[index / 8], index % 8, value)], total)
         == UsedPages(bits, total)[index := value]
  {
    hide Bit, WithBit;
    var byte, k := index / 8, index % 8;
    var next := bits[byte := WithBit(bits[byte], k, value)];
    forall i | 0 <= i < total ensures BitAt(next, i) == if i == index then value else BitAt(bits, i) {
      if i / 8 == byte {
        WithBitSets(bits[byte], k, value, i % 8);
        assert i == 8 * byte + i % 8 && index == 8 * byte + k;
      }
    }
  }

  // ---------- The allocator ----------

  class PageAllocator {
    const bitmap: array<bv8>
    var totalPages: nat

    ghost predicate Valid()
      reads this
    {
      bitmap.Length * 8 == MAX_PAGES && totalPages <= MAX_PAGES
    }

    constructor ()
      ensures Valid() && totalPages == 0 && fresh(bitmap)
    {
      bitmap := new bv8[2048];
      totalPages := 0;
    }

    ghost function Used(): (used: seq<bool>)
      requires Valid()
      reads this, bitmap
      ensures |used| == totalPages
    {
      UsedPages(bitmap[..], totalPages)
    }

    predicate BitmapTest(index: nat)
      requires Valid() && index < totalPages
      reads this, bitmap
      ensures BitmapTest(index) == Used()[index]
    {
      Bit(bitmap[index / 8], index % 8)
    }

    /** Start over with the given number of pages, all free. */
    method Reset(pages: nat)
      requires Valid() && pages <= MAX_PAGES
      modifies this`totalPages, bitmap
      ensures Valid() && totalPages == pages
      ensures Used() == AllFree(pages)
    {
      for i := 0 to bitmap.Length
        invariant forall j :: 0 <= j < i ==> bitmap[j] == 0
      {
        bitmap[i] := 0;
      }
      totalPages := pages;
      assert forall k: nat :: k < 8 ==> !Bit(0, k);
      assert Used() == AllFree(pages);
    }

    method BitmapSet(index: nat, used: bool)
      requires Valid() && index < totalPages
      modifies bitmap
      ensures Used() == old(Used())[index := used]
    {
      hide UsedPages, WithBit;
      ghost var before := bitmap[..];
      SetPage(before, totalPages, index, used);
      var byte := index / 8;
      bitmap[byte] := WithBit(bitmap[byte], index % 8, used);
      assert bitmap[..] == before[byte := WithBit(before[byte], index % 8, used)];
    }

    method MarkRange(start: Word, end: Word, used: bool)
      requires Valid()
      modifies bitmap
      ensures Used() == Marked(old(Used()), start / PAGE_SIZE, AlignUp(end, PAGE_SIZE) / PAGE_SIZE, used)
    {
      var firstPage := start / PAGE_SIZE;
      var lastPage := AlignUp(end, PAGE_SIZE) / PAGE_SIZE;
      if lastPage > totalPages {
        lastPage := totalPages;
      }
      var page := firstPage;
      while page < lastPage
        invariant firstPage <= page && (page <= lastPage || page == firstPage)
        invariant Used() == Marked(old(Used()), firstPage, page, used)
      {
        BitmapSet(page, used);
        page := page + 1;
      }
    }

    method CountUsedPages() returns (usedPages: nat)
      requires Valid()
      ensures usedPages == CountUsed(Used()) && usedPages <= totalPages
    {
      usedPages := 0;
      for page := 0 to totalPages
        invariant usedPages == CountUsed(Used()[..page])
      {
        assert Used()[..page + 1][..page] == Used()[..page];
        if BitmapTest(page) {
          usedPages := usedPages + 1;
        }
      }
      assert Used()[..totalPages] == Used();
      CountBounded(Used());
    }

    /** One pass over the bitmap finds what the naive search finds. */
    method PageAlloc(pageCount: nat) returns (address: nat)
      requires Valid()
      modifies bitmap
      ensures pageCount == 0 ==> address == 0 && Used() == old(Used())
      ensures pageCount != 0 ==>
        match FirstRun(old(Used()), pageCount, 0)
        case None => address == 0 && Used() == old(Used())
        case Some(start) =>
          address == start * PAGE_SIZE && Used() == Marked(old(Used()), start, start + pageCount, true)
      ensures pageCount != 0 && (0 < totalPages ==> old(Used())[0]) ==>
        (address == 0 <==> forall s :: !RunFree(old(Used()), s, pageCount))
    {
      hide FirstRun, Used;
      if pageCount == 0 {
        return 0;
      }
      ghost var used := Used();
      var runStart, runLength := 0, 0;
      for page := 0 to totalPages
        invariant Used() == used
        invariant runLength <= page && runLength < pageCount
        invariant runLength > 0 ==> runStart == page - runLength
        invariant RunFree(used, page - runLength, runLength)
        invariant forall s :: 0 <= s < page - runLength ==> !RunFree(used, s, pageCount)
      {
        if !BitmapTest(page) {
          if runLength == 0 {
            runStart := page;
          }
          runLength := runLength + 1;
          if runLength == pageCount {
            LowestRunFound(used, pageCount, runStart);
            for mark := runStart to runStart + pageCount
              invariant Used() == Marked(used, runStart, mark, true)
            {
              BitmapSet(mark, true);
            }
            return runStart * PAGE_SIZE;
          }
        } else {
          assert used[page];
          runLength := 0;
        }
      }
      return 0;
    }

    method PageFree(address: nat, pageCount: nat)
      requires Valid()
      modifies bitmap
      ensures Used() ==
        if address == 0 then old(Used())
        else Marked(old(Used()), address / PAGE_SIZE, address / PAGE_SIZE + pageCount, false)
    {
      if address == 0 || pageCount == 0 {
        return;
      }
      var page := address / PAGE_SIZE;
      var index := 0;
      while index < pageCount && page + index < totalPages
        invariant index <= pageCount
        invariant Used() == Marked(old(Used()), page, page + index, false)
      {
        BitmapSet(page + index, false);
        index := index + 1;
      }
    }
  }
}
