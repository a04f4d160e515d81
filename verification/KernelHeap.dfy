/** kmalloc and kfree over headers kept in the same memory as the payloads they manage. */
module KernelHeap {
  import opened Bytes
  import opened FlatMemory
  import opened HeapBlocks
  import opened HeapLaws

  // ---------- A block header in memory ----------

  datatype Header = Header(size: nat, free: bool, next: nat, prev: nat)

  // Field offsets.
  const FREE: nat := 8
  const NEXT: nat := 16
  const PREV: nat := 24

  function HeaderAt(m: seq<Byte>, at: nat): Header
    requires at + HEADER <= |m|
  {
    Header(Load64(m, at), m[at + FREE] != 0, Load64(m, at + NEXT), Load64(m, at + PREV))
  }

  /** Only the header at the given address was written. */
  ghost predicate OnlyHeader(before: seq<Byte>, after: seq<Byte>, at: nat)
    requires at + HEADER <= |before|
  {
    && SameOutside(before, after, at, at + HEADER)
    && forall b: nat {:trigger HeaderAt(after, b)} ::
         b + HEADER <= |before| && (b + HEADER <= at || at + HEADER <= b) ==> HeaderAt(after, b) == HeaderAt(before, b)
  }

  lemma FieldsKept(before: seq<Byte>, after: seq<Byte>, at: nat, field: nat)
    requires at + HEADER <= |before| && field in {0, FREE, NEXT, PREV}
    requires SameOutside(before, after, at + field, at + field + 8)
    ensures OnlyHeader(before, after, at)
    ensures
      var was, now := HeaderAt(before, at), HeaderAt(after, at);
      && (field != 0 ==> now.size == was.size) && (field != FREE ==> now.free == was.free)
      && (field != NEXT ==> now.next == was.next) && (field != PREV ==> now.prev == was.prev)
  {
    forall b: nat | b + 8 <= |before| && (b + 8 <= at + field || at + field + 8 <= b)
      ensures Load64(after, b) == Load64(before, b)
    {
      Load64Kept(before, after, b);
    }
  }

  method Fetch(mem: array<Byte>, at: nat) returns (h: Header)
    requires at + HEADER <= mem.Length
    ensures h == HeaderAt(mem[..], at)
  {
    h := HeaderAt(mem[..], at);
  }

  method SetSize(mem: array<Byte>, at: nat, size: Word)
    requires at + HEADER <= mem.Length
    modifies mem
    ensures HeaderAt(mem[..], at) == old(HeaderAt(mem[..], at)).(size := size)
    ensures OnlyHeader(old(mem[..]), mem[..], at)
  {
    ghost var before := mem[..];
    Store64(mem, at, size);
    FieldsKept(before, mem[..], at, 0);
  }

  method SetFree(mem: array<Byte>, at: nat, free: bool)
    requires at + HEADER <= mem.Length
    modifies mem
    ensures HeaderAt(mem[..], at) == old(HeaderAt(mem[..], at)).(free := free)
    ensures OnlyHeader(old(mem[..]), mem[..], at)
  {
    ghost var before := mem[..];
    mem[at + FREE] := if free then 1 else 0;
    FieldsKept(before, mem[..], at, FREE);
  }

  method SetNext(mem: array<Byte>, at: nat, next: Word)
    requires at + HEADER <= mem.Length
    modifies mem
    ensures HeaderAt(mem[..], at) == old(HeaderAt(mem[..], at)).(next := next)
    ensures OnlyHeader(old(mem[..]), mem[..], at)
  {
    ghost var before := mem[..];
    Store64(mem, at + NEXT, next);
    FieldsKept(before, mem[..], at, NEXT);
  }

  method SetPrev(mem: array<Byte>, at: nat, prev: Word)
    requires at + HEADER <= mem.Length
    modifies mem
    ensures HeaderAt(mem[..], at) == old(HeaderAt(mem[..], at)).(prev := prev)
    ensures OnlyHeader(old(mem[..]), mem[..], at)
  {
    ghost var before := mem[..];
    Store64(mem, at + PREV, prev);
    FieldsKept(before, mem[..], at, PREV);
  }

  // ---------- What an operation may write ----------

  ghost predicate InHeader(bs: seq<Block>, a: int) {
    exists j :: 0 <= j < |bs| && bs[j].addr <= a < bs[j].addr + HEADER
  }

  /** Only block i and headers were written. */
  ghost predicate Confined(before: seq<Byte>, after: seq<Byte>, bs: seq<Block>, i: nat)
    requires i < |bs|
  {
    && |before| == |after|
    && forall a :: 0 <= a < |before| && !(bs[i].addr <= a < bs[i].End()) && !InHeader(bs, a) ==> before[a] == after[a]
  }

  /** No byte in the payload of a kept block changed, and none outside lo..hi. */
  ghost predicate Preserved(before: seq<Byte>, after: seq<Byte>, kept: set<Block>, lo: nat, hi: nat) {
    && |before| == |after|
    && (forall a :: 0 <= a < |before| && !(lo <= a < hi) ==> before[a] == after[a])
    && forall b :: b in kept ==> forall a :: b.Payload() <= a < b.End() && a < |before| ==> before[a] == after[a]
  }

  lemma ConfinedPreserves(before: seq<Byte>, after: seq<Byte>, bs: seq<Block>, lo: nat, hi: nat, i: nat)
    requires Tiles(bs, lo, hi) && i < |bs| && Confined(before, after, bs, i)
    ensures Preserved(before, after, Live(bs) - {bs[i]}, lo, hi)
  {
    TilesAscend(bs, lo, hi);
    forall b, a | b in Live(bs) - {bs[i]} && b.Payload() <= a < b.End() && a < |before|
      ensures before[a] == after[a]
    {
      var j :| 0 <= j < |bs| && bs[j] == b;
      assert j != i;
      assert !InHeader(bs, a);
    }
  }

  /** The address of block i, and null past either end of the list. */
  ghost function AddrAt(bs: seq<Block>, i: int): nat {
    if 0 <= i < |bs| then bs[i].addr else 0
  }

  /** Block i cut in two free blocks, the first with `size` payload bytes. */
  ghost function SplitAt(bs: seq<Block>, i: nat, size: nat): (cs: seq<Block>)
    requires i < |bs| && Splits(bs[i], size)
    ensures |cs| == |bs| + 1
    ensures forall j :: 0 <= j < i ==> cs[j] == bs[j]
    ensures cs[i] == Block(bs[i].addr, size, true)
    ensures cs[i + 1] == Block(bs[i].addr + HEADER + size, bs[i].size - size - HEADER, true)
    ensures forall j :: i + 1 < j < |cs| ==> cs[j] == bs[j - 1]
  {
    bs[..i]
    + [Block(bs[i].addr, size, true), Block(bs[i].addr + HEADER + size, bs[i].size - size - HEADER, true)]
    + bs[i + 1..]
  }

  lemma SplitKeepsTiles(bs: seq<Block>, lo: nat, hi: nat, i: nat, size: nat)
    requires Tiles(bs, lo, hi) && i < |bs| && Splits(bs[i], size)
    ensures Tiles(SplitAt(bs, i, size), lo, hi)
  {
    hide SplitAt;
    var cs := SplitAt(bs, i, size);
    assert i + 1 < |bs| ==> bs[i].End() == bs[i + 1].addr;
    assert 0 < i ==> bs[i - 1].End() == bs[i].addr;
    forall p, q | 0 <= p && q == p + 1 && q < |cs| ensures cs[p].End() == cs[q].addr {
      if p < i {
        assert bs[p].End() == bs[q].addr;
      } else if i + 1 < p {
        assert bs[p - 1].End() == bs[q - 1].addr;
      }
    }
  }

  ghost predicate OnlyHeaders(before: seq<Byte>, after: seq<Byte>, written: set<nat>) {
    && |before| == |after|
    && (forall a :: 0 <= a < |before| && (forall h :: h in written ==> a < h || h + HEADER <= a) ==> before[a] == after[a])
    && forall b: nat {:trigger HeaderAt(after, b)} ::
         b + HEADER <= |before| && (forall h :: h in written ==> b + HEADER <= h || h + HEADER <= b)
         ==> HeaderAt(after, b) == HeaderAt(before, b)
  }

  ghost function Pointees(p: nat): set<nat> {
    if p == 0 then {} else {p}
  }

  /** The header writes that cut `size` bytes off the block at the given address. */
  ghost predicate SplitWritten(before: seq<Byte>, after: seq<Byte>, block: nat, size: nat) {
    var split := block + HEADER + size;
    && split + HEADER <= |before| == |after|
    && var was := HeaderAt(before, block);
    && size + HEADER <= was.size
    && OnlyHeaders(before, after, {block, split} + Pointees(was.next))
    && HeaderAt(after, block) == Header(size, was.free, split, was.prev)
    && HeaderAt(after, split) == Header(was.size - size - HEADER, true, was.next, block)
    && (was.next != 0 ==>
          was.next + HEADER <= |before| && HeaderAt(after, was.next) == HeaderAt(before, was.next).(prev := split))
  }

  method WriteSplit(mem: array<Byte>, block: nat, size: nat)
    requires block + HEADER + size + HEADER <= mem.Length < WORD_LIMIT
    requires size + HEADER <= HeaderAt(mem[..], block).size < WORD_LIMIT
    requires
      var next := HeaderAt(mem[..], block).next;
      next != 0 ==> block + HEADER + size + HEADER <= next && next + HEADER <= mem.Length
    modifies mem
    ensures SplitWritten(old(mem[..]), mem[..], block, size)
  {
    hide HeaderAt;
    var split := block + HEADER + size;
    var was := Fetch(mem, block);
    SetSize(mem, split, was.size - size - HEADER);
    SetFree(mem, split, true);
    SetNext(mem, split, was.next);
    SetPrev(mem, split, block);
    if was.next != 0 {
      SetPrev(mem, was.next, split);
    }
    SetNext(mem, block, split);
    SetSize(mem, block, size);
  }

  /** Block i of the list has its header in place. */
  ghost predicate HeaderIs(m: seq<Byte>, bs: seq<Block>, i: nat)
    requires i < |bs|
  {
    && bs[i].End() <= |m|
    && HeaderAt(m, bs[i].addr) == Header(bs[i].size, bs[i].free, AddrAt(bs, i + 1), AddrAt(bs, i - 1))
  }

  /** The headers in memory form the list both ways. */
  ghost predicate Headed(m: seq<Byte>, bs: seq<Block>) {
    forall i {:trigger HeaderIs(m, bs, i)} :: 0 <= i < |bs| ==> HeaderIs(m, bs, i)
  }

  /** A block that keeps its neighbours keeps its header if the writes miss it. */
  lemma KeptHeader(before: seq<Byte>, after: seq<Byte>, written: set<nat>, bs: seq<Block>, j: nat, cs: seq<Block>, k: nat)
    requires OnlyHeaders(before, after, written)
    requires j < |bs| && k < |cs| && cs[k] == bs[j] && HeaderIs(before, bs, j)
    requires AddrAt(cs, k + 1) == AddrAt(bs, j + 1) && AddrAt(cs, k - 1) == AddrAt(bs, j - 1)
    requires forall h :: h in written ==> bs[j].addr + HEADER <= h || h + HEADER <= bs[j].addr
    ensures HeaderIs(after, cs, k)
  {}

  /** The headers form a doubly linked list in address order: each block's next pointer is
      its right neighbour, whose prev pointer leads back, and the ends are null. */
  lemma LinksAreMutual(m: seq<Byte>, bs: seq<Block>, i: nat)
    requires Headed(m, bs) && i < |bs|
    ensures bs[i].End() <= |m|
    ensures
      var next, prev := HeaderAt(m, bs[i].addr).next, HeaderAt(m, bs[i].addr).prev;
      && (i + 1 < |bs| ==>
            next == bs[i + 1].addr && next + HEADER <= |m| && HeaderAt(m, next).prev == bs[i].addr)
      && (i + 1 == |bs| ==> next == 0)
      && (0 < i ==>
            prev == bs[i - 1].addr && prev + HEADER <= |m| && HeaderAt(m, prev).next == bs[i].addr)
      && (i == 0 ==> prev == 0)
  {
    hide HeaderAt;
    assert HeaderIs(m, bs, i);
    if i + 1 < |bs| { assert HeaderIs(m, bs, i + 1); }
    if 0 < i { assert HeaderIs(m, bs, i - 1); }
  }

  /** Block i and its right neighbour, as merging them needs to see their headers. */
  lemma NeighbourHeaders(m: seq<Byte>, bs: seq<Block>, lo: nat, hi: nat, i: nat)
    requires Tiles(bs, lo, hi) && Headed(m, bs) && hi <= |m| && i + 1 < |bs|
    ensures
      var l, r := bs[i].addr, bs[i + 1].addr;
      && l + HEADER <= r && r + HEADER <= |m|
      && var left, right := HeaderAt(m, l), HeaderAt(m, r);
      && left.next == r && right.prev == l && left.size + HEADER + right.size <= |m|
      && (right.next != 0 ==> r + HEADER <= right.next && right.next + HEADER <= |m|)
  {
    hide HeaderAt, Tiles;
    TilesAscend(bs, lo, hi);
    assert HeaderIs(m, bs, i) && HeaderIs(m, bs, i + 1);
  }

  lemma SplitNear(before: seq<Byte>, after: seq<Byte>, bs: seq<Block>, i: nat, size: nat)
    requires i < |bs| && bs[i].free && Splits(bs[i], size) && HeaderIs(before, bs, i)
    requires i + 1 < |bs| ==> HeaderIs(before, bs, i + 1) && bs[i].End() == bs[i + 1].addr
    requires SplitWritten(before, after, bs[i].addr, size)
    ensures
      var cs := SplitAt(bs, i, size);
      && HeaderIs(after, cs, i) && HeaderIs(after, cs, i + 1)
      && (i + 2 < |cs| ==> HeaderIs(after, cs, i + 2))
  {
    hide HeaderAt, SplitAt;
  }

  lemma SplitFar(before: seq<Byte>, after: seq<Byte>, bs: seq<Block>, i: nat, size: nat, j: nat)
    requires i < |bs| && bs[i].free && Splits(bs[i], size) && HeaderIs(before, bs, i)
    requires SplitWritten(before, after, bs[i].addr, size)
    requires j < |bs| && HeaderIs(before, bs, j)
    requires j < i ==> bs[j].End() <= bs[i].addr && (i + 1 < |bs| ==> bs[j].End() <= bs[i + 1].addr)
    requires j >= i ==> i + 1 < j && bs[i].End() <= bs[j].addr && bs[i + 1].End() <= bs[j].addr
    ensures
      var cs := SplitAt(bs, i, size);
      HeaderIs(after, cs, if j < i then j else j + 1)
  {
    hide HeaderAt, SplitAt;
    var written := {bs[i].addr, bs[i].addr + HEADER + size} + Pointees(AddrAt(bs, i + 1));
    KeptHeader(before, after, written, bs, j, SplitAt(bs, i, size), if j < i then j else j + 1);
  }

  lemma SplitConfined(before: seq<Byte>, after: seq<Byte>, bs: seq<Block>, i: nat, size: nat)
    requires i < |bs| && bs[i].free && Splits(bs[i], size) && HeaderIs(before, bs, i)
    requires SplitWritten(before, after, bs[i].addr, size)
    ensures Confined(before, after, bs, i)
  {
    hide HeaderAt;
    assert i + 1 < |bs| ==> forall a :: bs[i + 1].addr <= a < bs[i + 1].addr + HEADER ==> InHeader(bs, a);
  }

  lemma SplitHeaded(before: seq<Byte>, after: seq<Byte>, bs: seq<Block>, lo: nat, hi: nat, i: nat, size: nat)
    requires Tiles(bs, lo, hi) && Headed(before, bs) && i < |bs| && bs[i].free && Splits(bs[i], size)
    requires SplitWritten(before, after, bs[i].addr, size)
    ensures Headed(after, SplitAt(bs, i, size))
  {
    hide HeaderAt, HeaderIs, SplitWritten, SplitAt;
    TilesAscend(bs, lo, hi);
    assert HeaderIs(before, bs, i);
    assert i + 1 < |bs| ==> HeaderIs(before, bs, i + 1) && bs[i].End() == bs[i + 1].addr;
    SplitNear(before, after, bs, i, size);
    var cs := SplitAt(bs, i, size);
    forall k | 0 <= k < |cs| ensures HeaderIs(after, cs, k) {
      if k < i || i + 2 < k {
        var j := if k < i then k else k - 1;
        assert HeaderIs(before, bs, j);
        SplitFar(before, after, bs, i, size, j);
      }
    }
  }

  // ---------- Merging two neighbours ----------

  /** The header writes by which the block at l swallows the block at r. */
  ghost predicate JoinWritten(before: seq<Byte>, after: seq<Byte>, l: nat, r: nat) {
    && l + HEADER <= |before| == |after| && r + HEADER <= |before|
    && var left, right := HeaderAt(before, l), HeaderAt(before, r);
    && OnlyHeaders(before, after, {l} + Pointees(right.next))
    && HeaderAt(after, l) == left.(size := left.size + HEADER + right.size, next := right.next)
    && (right.next != 0 ==>
          right.next + HEADER <= |before| && HeaderAt(after, right.next) == HeaderAt(before, right.next).(prev := l))
  }

  method WriteMergeNext(mem: array<Byte>, block: nat)
    requires block + HEADER <= mem.Length < WORD_LIMIT
    requires
      var was := HeaderAt(mem[..], block);
      && block + HEADER <= was.next && was.next + HEADER <= mem.Length
      && var right := HeaderAt(mem[..], was.next);
      && was.size + HEADER + right.size < WORD_LIMIT
      && (right.next != 0 ==> was.next + HEADER <= right.next && right.next + HEADER <= mem.Length)
    modifies mem
    ensures JoinWritten(old(mem[..]), mem[..], block, old(HeaderAt(mem[..], block).next))
  {
    hide HeaderAt;
    var was := Fetch(mem, block);
    var next := Fetch(mem, was.next);
    SetSize(mem, block, was.size + HEADER + next.size);
    SetNext(mem, block, next.next);
    if next.next != 0 {
      SetPrev(mem, next.next, block);
    }
  }

  method WriteMergePrev(mem: array<Byte>, block: nat)
    requires block + HEADER <= mem.Length < WORD_LIMIT
    requires
      var was := HeaderAt(mem[..], block);
      && was.prev + HEADER <= block
      && HeaderAt(mem[..], was.prev).size + HEADER + was.size < WORD_LIMIT
      && (was.next != 0 ==> block + HEADER <= was.next && was.next + HEADER <= mem.Length)
    modifies mem
    ensures JoinWritten(old(mem[..]), mem[..], old(HeaderAt(mem[..], block).prev), block)
  {
    hide HeaderAt;
    var was := Fetch(mem, block);
    var prev := Fetch(mem, was.prev);
    SetSize(mem, was.prev, prev.size + HEADER + was.size);
    SetNext(mem, was.prev, was.next);
    if was.next != 0 {
      SetPrev(mem, was.next, was.prev);
    }
  }

  lemma JoinKeepsTiles(bs: seq<Block>, lo: nat, hi: nat, i: nat)
    requires Tiles(bs, lo, hi) && i + 1 < |bs|
    ensures Tiles(Join(bs, i), lo, hi)
  {
    hide Join;
    var cs := Join(bs, i);
    assert bs[i].End() == bs[i + 1].addr;
    assert i + 2 < |bs| ==> bs[i + 1].End() == bs[i + 2].addr;
    assert 0 < i ==> bs[i - 1].End() == bs[i].addr;
    forall p, q | 0 <= p && q == p + 1 && q < |cs| ensures cs[p].End() == cs[q].addr {
      if p < i {
        assert bs[p].End() == bs[q].addr;
      } else if i < p {
        assert bs[p + 1].End() == bs[q + 1].addr;
      }
    }
  }

  lemma JoinNear(before: seq<Byte>, after: seq<Byte>, bs: seq<Block>, i: nat)
    requires i + 1 < |bs| && HeaderIs(before, bs, i) && HeaderIs(before, bs, i + 1)
    requires bs[i].End() == bs[i + 1].addr
    requires i + 2 < |bs| ==> HeaderIs(before, bs, i + 2) && bs[i + 1].End() == bs[i + 2].addr
    requires JoinWritten(before, after, bs[i].addr, bs[i + 1].addr)
    ensures HeaderIs(after, Join(bs, i), i)
    ensures i + 2 < |bs| ==> HeaderIs(after, Join(bs, i), i + 1)
  {
    hide HeaderAt, Join;
  }

  lemma JoinFar(before: seq<Byte>, after: seq<Byte>, bs: seq<Block>, i: nat, j: nat)
    requires i + 1 < |bs| && HeaderIs(before, bs, i + 1)
    requires JoinWritten(before, after, bs[i].addr, bs[i + 1].addr)
    requires j < |bs| && HeaderIs(before, bs, j)
    requires j < i ==> bs[j].End() <= bs[i].addr && (i + 2 < |bs| ==> bs[j].End() <= bs[i + 2].addr)
    requires j >= i ==> i + 2 < j && bs[i].End() <= bs[j].addr && bs[i + 2].End() <= bs[j].addr
    ensures HeaderIs(after, Join(bs, i), if j < i then j else j - 1)
  {
    hide HeaderAt, Join;
    var written := {bs[i].addr} + Pointees(AddrAt(bs, i + 2));
    KeptHeader(before, after, written, bs, j, Join(bs, i), if j < i then j else j - 1);
  }

  lemma JoinHeaded(before: seq<Byte>, after: seq<Byte>, bs: seq<Block>, lo: nat, hi: nat, i: nat)
    requires Tiles(bs, lo, hi) && Headed(before, bs) && i + 1 < |bs|
    requires JoinWritten(before, after, bs[i].addr, bs[i + 1].addr)
    ensures Headed(after, Join(bs, i))
  {
    hide HeaderAt, HeaderIs, JoinWritten, Join;
    TilesAscend(bs, lo, hi);
    assert HeaderIs(before, bs, i) && HeaderIs(before, bs, i + 1);
    assert i + 2 < |bs| ==> HeaderIs(before, bs, i + 2) && bs[i + 1].End() == bs[i + 2].addr;
    JoinNear(before, after, bs, i);
    var cs := Join(bs, i);
    forall k | 0 <= k < |cs| ensures HeaderIs(after, cs, k) {
      if k < i || i + 1 < k {
        var j := if k < i then k else k + 1;
        assert HeaderIs(before, bs, j);
        JoinFar(before, after, bs, i, j);
      }
    }
  }

  lemma JoinInHeaders(before: seq<Byte>, after: seq<Byte>, bs: seq<Block>, i: nat)
    requires i + 1 < |bs| && HeaderIs(before, bs, i + 1)
    requires JoinWritten(before, after, bs[i].addr, bs[i + 1].addr)
    ensures forall a :: 0 <= a < |before| && !InHeader(bs, a) ==> before[a] == after[a]
  {
    hide HeaderAt;
    assert forall a :: bs[i].addr <= a < bs[i].addr + HEADER ==> InHeader(bs, a);
    assert i + 2 < |bs| ==> forall a :: bs[i + 2].addr <= a < bs[i + 2].addr + HEADER ==> InHeader(bs, a);
  }

  // ---------- Changing a block's free flag ----------

  /** Marking a block leaves the list's addresses and extents alone. */
  lemma MarkKeepsTiles(bs: seq<Block>, lo: nat, hi: nat, i: nat, free: bool)
    requires Tiles(bs, lo, hi) && i < |bs|
    ensures Tiles(bs[i := bs[i].(free := free)], lo, hi)
    ensures forall j :: AddrAt(bs[i := bs[i].(free := free)], j) == AddrAt(bs, j)
  {}

  lemma FlagHeaded(before: seq<Byte>, after: seq<Byte>, bs: seq<Block>, lo: nat, hi: nat, i: nat, free: bool)
    requires Tiles(bs, lo, hi) && Headed(before, bs) && i < |bs| && hi <= |before| == |after|
    requires bs[i].addr + HEADER <= |before| && OnlyHeader(before, after, bs[i].addr)
    requires HeaderAt(after, bs[i].addr) == HeaderAt(before, bs[i].addr).(free := free)
    ensures Headed(after, bs[i := bs[i].(free := free)])
    ensures Tiles(bs[i := bs[i].(free := free)], lo, hi)
  {
    hide HeaderAt, Tiles, AddrAt;
    TilesAscend(bs, lo, hi);
    MarkKeepsTiles(bs, lo, hi, i, free);
    var cs := bs[i := bs[i].(free := free)];
    forall k | 0 <= k < |cs| ensures HeaderIs(after, cs, k) {
      assert HeaderIs(before, bs, k);
      assert k < i ==> bs[k].End() <= bs[i].addr;
      assert i < k ==> bs[i].End() <= bs[k].addr;
    }
  }

  lemma HeaderKept(before: seq<Byte>, after: seq<Byte>, b: nat)
    requires b + HEADER <= |before| == |after|
    requires forall a :: b <= a < b + HEADER ==> before[a] == after[a]
    ensures HeaderAt(after, b) == HeaderAt(before, b)
  {
    hide Load64;
    Load64Kept(before, after, b);
    Load64Kept(before, after, b + NEXT);
    Load64Kept(before, after, b + PREV);
  }

  lemma Load64Kept(before: seq<Byte>, after: seq<Byte>, at: nat)
    requires at + 8 <= |before| == |after|
    requires forall a :: at <= a < at + 8 ==> before[a] == after[a]
    ensures Load64(after, at) == Load64(before, at)
  {
    assert before[at..at + 8] == after[at..at + 8];
  }

  // ---------- The allocator ----------

  lemma HeadAddr(bs: seq<Block>, lo: nat, hi: nat)
    requires Tiles(bs, lo, hi) && (lo == 0 <==> bs == [])
    ensures AddrAt(bs, 0) == lo
    ensures forall i :: 0 <= i < |bs| ==> bs[i].addr != 0
  {
    TilesAscend(bs, lo, hi);
  }

  lemma JoinHeaders(bs: seq<Block>, i: nat)
    requires i + 1 < |bs|
    ensures forall a :: InHeader(Join(bs, i), a) ==> InHeader(bs, a)
  {
    hide Join;
    var cs := Join(bs, i);
    forall a | InHeader(cs, a) ensures InHeader(bs, a) {
      var j :| 0 <= j < |cs| && cs[j].addr <= a < cs[j].addr + HEADER;
      assert cs[j].addr == bs[if j <= i then j else j + 1].addr;
    }
  }

  lemma MarkHeaders(bs: seq<Block>, i: nat, free: bool)
    requires i < |bs|
    ensures forall a :: InHeader(bs[i := bs[i].(free := free)], a) ==> InHeader(bs, a)
  {
    var cs := bs[i := bs[i].(free := free)];
    forall a | InHeader(cs, a) ensures InHeader(bs, a) {
      var j :| 0 <= j < |cs| && cs[j].addr <= a < cs[j].addr + HEADER;
      assert cs[j].addr == bs[j].addr;
    }
  }

  lemma CarveIsSplitMark(bs: seq<Block>, i: nat, size: nat)
    requires i < |bs| && Fits(bs[i], size)
    ensures
      var cut := if Splits(bs[i], size) then SplitAt(bs, i, size) else bs;
      Carve(bs, i, size) == cut[i := cut[i].(free := false)]
  {}

  class Heap {
    const mem: array<Byte>
    var head: nat
    var totalBytes: nat
    ghost var blocks: seq<Block>

    constructor (mem: array<Byte>)
      requires mem.Length < WORD_LIMIT
      ensures this.mem == mem && Valid() && blocks == []
    {
      this.mem := mem;
      head, totalBytes, blocks := 0, 0, [];
    }

    ghost predicate Linked()
      reads this, mem
    {
      && head + totalBytes <= mem.Length < WORD_LIMIT
      && (head == 0 <==> blocks == [])
      && Tiles(blocks, head, head + totalBytes)
      && Headed(mem[..], blocks)
    }

    ghost predicate Valid()
      reads this, mem
    {
      Linked() && Canonical(blocks, head, head + totalBytes)
    }

    /** heap_init over the region page_alloc returned; a null region leaves no heap. */
    method Init(region: nat, bytes: nat)
      requires region + bytes <= mem.Length < WORD_LIMIT
      requires Aligned16(region) && Aligned16(bytes) && HEADER <= bytes
      modifies this, mem
      ensures Valid()
      ensures head == region && totalBytes == (if region == 0 then 0 else bytes)
      ensures blocks == if region == 0 then [] else Initial(region, region + bytes)
      ensures SameOutside(old(mem[..]), mem[..], region, region + bytes)
      ensures region == 0 ==> mem[..] == old(mem[..])
    {
      hide HeaderAt;
      if region == 0 {
        head, totalBytes, blocks := 0, 0, [];
        return;
      }
      totalBytes := bytes;
      head := region;
      SetSize(mem, head, totalBytes - HEADER);
      SetFree(mem, head, true);
      SetNext(mem, head, 0);
      SetPrev(mem, head, 0);
      blocks := Initial(region, region + bytes);
      Aligned16Sum(bytes, HEADER);
    }

    /** Turn the tail of a free block into a block of its own. */
    method Split(block: nat, size: nat, ghost i: nat)
      requires Linked() && i < |blocks| && block == blocks[i].addr
      requires blocks[i].free && Splits(blocks[i], size)
      modifies this`blocks, mem
      ensures Linked()
      ensures blocks == SplitAt(old(blocks), i, size)
      ensures Confined(old(mem[..]), mem[..], old(blocks), i)
    {
      hide HeaderAt;
      TilesAscend(blocks, head, head + totalBytes);
      assert HeaderIs(mem[..], blocks, i);
      WriteSplit(mem, block, size);
      SplitConfined(old(mem[..]), mem[..], blocks, i, size);
      SplitHeaded(old(mem[..]), mem[..], blocks, head, head + totalBytes, i, size);
      SplitKeepsTiles(blocks, head, head + totalBytes, i, size);
      blocks := SplitAt(blocks, i, size);
    }

    method Mark(block: nat, free: bool, ghost i: nat)
      requires Linked() && i < |blocks| && block == blocks[i].addr
      modifies this`blocks, mem
      ensures Linked()
      ensures blocks == old(blocks)[i := old(blocks)[i].(free := free)]
      ensures SameOutside(old(mem[..]), mem[..], block, block + HEADER)
    {
      hide HeaderAt;
      TilesAscend(blocks, head, head + totalBytes);
      SetFree(mem, block, free);
      FlagHeaded(old(mem[..]), mem[..], blocks, head, head + totalBytes, i, free);
      blocks := blocks[i := blocks[i].(free := free)];
    }

    /** Merge a block with its right neighbour. */
    method MergeNext(block: nat, ghost i: nat)
      requires Linked() && i + 1 < |blocks| && block == blocks[i].addr
      modifies this`blocks, mem
      ensures Linked() && blocks == Join(old(blocks), i)
      ensures forall a :: 0 <= a < mem.Length && !InHeader(old(blocks), a) ==> mem[a] == old(mem[a])
    {
      hide HeaderAt, Join, Tiles, Headed, JoinWritten;
      NeighbourHeaders(mem[..], blocks, head, head + totalBytes, i);
      WriteMergeNext(mem, block);
      JoinMerges(old(mem[..]), i);
    }

    /** Merge a block with its left neighbour. */
    method MergePrev(block: nat, ghost i: nat)
      requires Linked() && 0 < i < |blocks| && block == blocks[i].addr
      modifies this`blocks, mem
      ensures Linked() && blocks == Join(old(blocks), i - 1)
      ensures forall a :: 0 <= a < mem.Length && !InHeader(old(blocks), a) ==> mem[a] == old(mem[a])
    {
      hide HeaderAt, Join, Tiles, Headed, JoinWritten;
      NeighbourHeaders(mem[..], blocks, head, head + totalBytes, i - 1);
      WriteMergePrev(mem, block);
      JoinMerges(old(mem[..]), i - 1);
    }

    ghost method JoinMerges(before: seq<Byte>, i: nat)
      requires head + totalBytes <= mem.Length < WORD_LIMIT && 0 < head
      requires Tiles(blocks, head, head + totalBytes) && Headed(before, blocks) && i + 1 < |blocks|
      requires JoinWritten(before, mem[..], blocks[i].addr, blocks[i + 1].addr)
      modifies this`blocks
      ensures Linked() && blocks == Join(old(blocks), i)
      ensures forall a :: 0 <= a < mem.Length && !InHeader(old(blocks), a) ==> mem[a] == before[a]
    {
      hide HeaderAt, Join;
      assert HeaderIs(before, blocks, i + 1);
      JoinInHeaders(before, mem[..], blocks, i);
      JoinHeaded(before, mem[..], blocks, head, head + totalBytes, i);
      JoinKeepsTiles(blocks, head, head + totalBytes, i);
      blocks := Join(blocks, i);
    }

    method Kmalloc(size: Word) returns (p: nat)
      requires Valid()
      modifies this`blocks, mem
      ensures Valid()
      ensures (blocks, p) == Malloc(old(blocks), size)
      ensures Preserved(old(mem[..]), mem[..], Live(old(blocks)), head, head + totalBytes)
      ensures p == 0 ==> mem[..] == old(mem[..])
    {
      hide HeaderAt, Carve, Tiles, Aligned, Coalesced;
      if size == 0 || head == 0 {
        return 0;
      }
      var rounded := AlignUp(size, 16);
      var block := head;
      ghost var i := 0;
      HeadAddr(blocks, head, head + totalBytes);
      while block != 0
        invariant blocks == old(blocks) && mem[..] == old(mem[..])
        invariant i <= |blocks| && block == AddrAt(blocks, i)
        invariant FirstFit(blocks, rounded, 0) == FirstFit(blocks, rounded, i)
        decreases |blocks| - i
      {
        assert HeaderIs(mem[..], blocks, i);
        var h := Fetch(mem, block);
        if !h.free || h.size < rounded {
          block := h.next;
          i := i + 1;
          continue;
        }
        ghost var bs := blocks;
        if rounded + HEADER + 16 <= h.size {
          Split(block, rounded, i);
        }
        Mark(block, false, i);
        CarveIsSplitMark(bs, i, rounded);
        MallocKeepsCanonical(bs, head, head + totalBytes, size);
        ConfinedPreserves(old(mem[..]), mem[..], bs, head, head + totalBytes, i);
        assert Live(bs) - {bs[i]} == Live(bs);
        return block + HEADER;
      }
      return 0;
    }

    /** The second half of kfree: merge a freed block with its free neighbours. */
    method Coalesce(block: nat, ghost i: nat)
      requires Linked() && i < |blocks| && block == blocks[i].addr
      modifies this`blocks, mem
      ensures Linked() && blocks == MergeAround(old(blocks), i)
      ensures forall a :: 0 <= a < mem.Length && !InHeader(old(blocks), a) ==> mem[a] == old(mem[a])
    {
      hide HeaderAt, Join, Tiles;
      HeadAddr(blocks, head, head + totalBytes);
      assert HeaderIs(mem[..], blocks, i);
      var h := Fetch(mem, block);
      if h.next != 0 {
        assert HeaderIs(mem[..], blocks, i + 1);
        var next := Fetch(mem, h.next);
        if next.free {
          JoinHeaders(blocks, i);
          MergeNext(block, i);
        }
      }
      assert HeaderIs(mem[..], blocks, i);
      h := Fetch(mem, block);
      if h.prev != 0 {
        assert HeaderIs(mem[..], blocks, i - 1);
        var prev := Fetch(mem, h.prev);
        if prev.free {
          MergePrev(block, i);
        }
      }
    }

    method Kfree(ptr: nat)
      requires Valid()
      requires ptr == 0 || IsLive(blocks, ptr)
      modifies this`blocks, mem
      ensures Valid()
      ensures blocks == Free(old(blocks), ptr)
      ensures Preserved(old(mem[..]), mem[..], Live(blocks), head, head + totalBytes)
      ensures ptr == 0 ==> mem[..] == old(mem[..])
    {
      hide HeaderAt, MergeAround, Tiles, Aligned, Coalesced;
      if ptr == 0 {
        return;
      }
      ghost var bs := blocks;
      ghost var i := Find(bs, ptr);
      var block := ptr - HEADER;
      Mark(block, true, i);
      MarkHeaders(bs, i, true);
      Coalesce(block, i);
      assert Canonical(blocks, head, head + totalBytes) by {
        ReleaseKeepsCanonical(bs, head, head + totalBytes, i);
      }
      assert Preserved(old(mem[..]), mem[..], Live(blocks), head, head + totalBytes) by {
        ReleaseRemovesLive(bs, head, head + totalBytes, i);
        ConfinedPreserves(old(mem[..]), mem[..], bs, head, head + totalBytes, i);
      }
    }

    /** A client's store into memory that is not a header. */
    method Poke(at: nat, value: Byte)
      requires Valid() && head <= at < head + totalBytes && !InHeader(blocks, at)
      modifies mem
      ensures Valid()
      ensures mem[..] == old(mem[..])[at := value]
    {
      hide Tiles, Aligned, Coalesced;
      mem[at] := value;
      forall i | 0 <= i < |blocks| ensures HeaderIs(mem[..], blocks, i) {
        assert old(HeaderIs(mem[..], blocks, i));
        HeaderKept(old(mem[..]), mem[..], blocks[i].addr);
      }
    }

    /** memory_heap_free_bytes: the sum over the free blocks. */
    method FreeByteCount() returns (freeBytes: nat)
      requires Valid()
      ensures freeBytes == FreeBytes(blocks)
      ensures freeBytes + LiveBytes(blocks) + HEADER * |blocks| == totalBytes
    {
      hide HeaderAt, Tiles, Aligned, Coalesced;
      freeBytes := 0;
      var block := head;
      ghost var i := 0;
      TilingConserves(blocks, head, head + totalBytes);
      HeadAddr(blocks, head, head + totalBytes);
      while block != 0
        invariant i <= |blocks| && block == AddrAt(blocks, i)
        invariant freeBytes + FreeBytes(blocks[i..]) == FreeBytes(blocks)
        decreases |blocks| - i
      {
        assert HeaderIs(mem[..], blocks, i);
        var h := Fetch(mem, block);
        if h.free {
          freeBytes := freeBytes + h.size;
        }
        block := h.next;
        i := i + 1;
      }
    }
  }
}
