/** The kernel heap as a list of blocks in address order: what kmalloc and kfree do to
    that list, and the laws that hold over every run. The class Heap keeps the list as
    headers in memory. */
module HeapBlocks {
  import opened Bytes

  const HEADER: nat := 32

  datatype Block = Block(addr: nat, size: nat, free: bool) {
    function Payload(): nat { addr + HEADER }
    function End(): nat { addr + HEADER + size }
  }

  // ---------- The invariant ----------

  /** The blocks lie end to end from lo to hi. */
  ghost predicate Tiles(bs: seq<Block>, lo: nat, hi: nat) {
    && (bs == [] ==> lo == hi)
    && (bs != [] ==> bs[0].addr == lo && bs[|bs| - 1].End() == hi)
    && forall i, j {:trigger bs[i], bs[j]} :: 0 <= i && j == i + 1 && j < |bs| ==> bs[i].End() == bs[j].addr
  }

  ghost predicate Aligned(bs: seq<Block>) {
    forall i :: 0 <= i < |bs| ==> Aligned16(bs[i].addr) && Aligned16(bs[i].size)
  }

  /** No two neighbouring blocks are both free. */
  ghost predicate Coalesced(bs: seq<Block>) {
    forall i, j {:trigger bs[i], bs[j]} :: 0 <= i && j == i + 1 && j < |bs| ==> !(bs[i].free && bs[j].free)
  }

  ghost predicate Canonical(bs: seq<Block>, lo: nat, hi: nat) {
    Tiles(bs, lo, hi) && Aligned(bs) && Coalesced(bs)
  }

  function Initial(lo: nat, hi: nat): seq<Block>
    requires lo + HEADER <= hi
  {
    [Block(lo, hi - lo - HEADER, true)]
  }

  /** The blocks handed out and not yet returned. */
  ghost function Live(bs: seq<Block>): set<Block> {
    set b | b in bs && !b.free
  }

  lemma {:induction false} TilesAscend(bs: seq<Block>, lo: nat, hi: nat)
    requires Tiles(bs, lo, hi)
    ensures forall i :: 0 <= i < |bs| ==> lo <= bs[i].addr && bs[i].End() <= hi
    ensures forall i, j :: 0 <= i < j < |bs| ==> bs[i].End() <= bs[j].addr
  {
    if bs != [] {
      var rest := bs[1..];
      if rest != [] {
        assert bs[0].End() == bs[1].addr;
        assert rest[|rest| - 1] == bs[|bs| - 1];
        TilesAscend(rest, bs[0].End(), hi);
        assert forall i :: 1 <= i < |bs| ==> bs[i] == rest[i - 1];
      }
    }
  }

  /** Distinct blocks of a tiling, header and payload together, do not overlap. */
  lemma BlocksDisjoint(bs: seq<Block>, lo: nat, hi: nat, a: Block, b: Block)
    requires Tiles(bs, lo, hi) && a in bs && b in bs && a != b
    ensures a.End() <= b.addr || b.End() <= a.addr
    ensures a.addr != b.addr
    ensures lo <= a.addr && a.End() <= hi
  {
    TilesAscend(bs, lo, hi);
    var i :| 0 <= i < |bs| && bs[i] == a;
    var j :| 0 <= j < |bs| && bs[j] == b;
    assert i < j || j < i;
  }

  lemma SpliceAligned(bs: seq<Block>, i: nat, k: nat, xs: seq<Block>)
    requires Aligned(bs) && Aligned(xs) && i < k <= |bs|
    ensures Aligned(bs[..i] + xs + bs[k..])
  {
    hide Aligned16;
  }

  /** Neighbours in the spliced list are neighbours in one of the two, or meet at a seam. */
  lemma SplicePair(bs: seq<Block>, lo: nat, hi: nat, i: nat, k: nat, xs: seq<Block>, p: nat)
    requires Tiles(bs, lo, hi) && Coalesced(bs) && i < k <= |bs|
    requires xs != [] && Tiles(xs, bs[i].addr, bs[k - 1].End()) && Coalesced(xs)
    requires 0 < i ==> !(bs[i - 1].free && xs[0].free)
    requires k < |bs| ==> !(xs[|xs| - 1].free && bs[k].free)
    requires p + 1 < i + |xs| + |bs| - k
    ensures
      var ns := bs[..i] + xs + bs[k..];
      ns[p].End() == ns[p + 1].addr && !(ns[p].free && ns[p + 1].free)
  {
    var shift := i + |xs| - k;
    if p + 1 < i {
      assert bs[p].End() == bs[p + 1].addr;
    } else if p < i {
      assert bs[i - 1].End() == bs[i].addr;
    } else if p + 1 < i + |xs| {
      assert xs[p - i].End() == xs[p + 1 - i].addr;
    } else if p < i + |xs| {
      assert bs[k - 1].End() == bs[k].addr;
    } else {
      assert bs[p - shift].End() == bs[p + 1 - shift].addr;
    }
  }

  /** Putting other blocks in place of blocks i..k keeps the invariant when they cover the
      same stretch and leave no free neighbours at the two seams. */
  lemma SpliceKeepsCanonical(bs: seq<Block>, lo: nat, hi: nat, i: nat, k: nat, xs: seq<Block>)
    requires Canonical(bs, lo, hi) && i < k <= |bs|
    requires xs != [] && Canonical(xs, bs[i].addr, bs[k - 1].End())
    requires 0 < i ==> !(bs[i - 1].free && xs[0].free)
    requires k < |bs| ==> !(xs[|xs| - 1].free && bs[k].free)
    ensures Canonical(bs[..i] + xs + bs[k..], lo, hi)
  {
    hide Aligned;
    SpliceAligned(bs, i, k, xs);
    var ns := bs[..i] + xs + bs[k..];
    forall p, q | 0 <= p && q == p + 1 && q < |ns|
      ensures ns[p].End() == ns[q].addr && !(ns[p].free && ns[q].free)
    {
      SplicePair(bs, lo, hi, i, k, xs, p);
    }
  }

  lemma FreeBlockNeighbours(bs: seq<Block>, i: nat)
    requires Coalesced(bs) && i < |bs| && bs[i].free
    ensures i + 1 < |bs| ==> !bs[i + 1].free
    ensures 0 < i ==> !bs[i - 1].free
  {}

  // ---------- kmalloc ----------

  predicate Fits(b: Block, size: nat) {
    b.free && size <= b.size
  }

  /** The first block at or after `from` that can hold the size; |bs| when there is none. */
  function FirstFit(bs: seq<Block>, size: nat, from: nat): (i: nat)
    requires from <= |bs|
    ensures from <= i <= |bs|
    ensures i < |bs| ==> Fits(bs[i], size)
    ensures forall j :: from <= j < i ==> !Fits(bs[j], size)
    decreases |bs| - from
  {
    if from == |bs| || Fits(bs[from], size) then from else FirstFit(bs, size, from + 1)
  }

  predicate Splits(b: Block, size: nat) {
    size + HEADER + 16 <= b.size
  }

  /** Take `size` bytes out of block i; the rest becomes a free block if it is large enough. */
  function Carve(bs: seq<Block>, i: nat, size: nat): seq<Block>
    requires i < |bs| && size <= bs[i].size
  {
    var b := bs[i];
    if Splits(b, size) then
      bs[..i]
      + [Block(b.addr, size, false), Block(b.addr + HEADER + size, b.size - size - HEADER, true)]
      + bs[i + 1..]
    else
      bs[i := b.(free := false)]
  }

  /** The list after kmalloc(size), and the pointer it returns (0 for null). */
  function Malloc(bs: seq<Block>, size: Word): (seq<Block>, nat) {
    if size == 0 || bs == [] then (bs, 0) else
    var rounded := AlignUp(size, 16);
    var i := FirstFit(bs, rounded, 0);
    if i == |bs| then (bs, 0) else (Carve(bs, i, rounded), bs[i].Payload())
  }

  lemma RoundingAligns(size: Word)
    ensures Aligned16(AlignUp(size, 16))
    ensures size <= WORD_LIMIT - 16 ==> size <= AlignUp(size, 16) < size + 16
    ensures size > WORD_LIMIT - 16 ==> AlignUp(size, 16) == 0
  {}

  /** What takes the place of the block that kmalloc found. */
  function Cut(b: Block, size: nat): (c: seq<Block>)
    requires size <= b.size
    ensures c != [] && !c[0].free
  {
    if Splits(b, size) then
      [Block(b.addr, size, false), Block(b.addr + HEADER + size, b.size - size - HEADER, true)]
    else
      [b.(free := false)]
  }

  lemma CutAligned(b: Block, size: nat)
    requires size <= b.size && Aligned16(b.addr) && Aligned16(b.size) && Aligned16(size)
    ensures Aligned(Cut(b, size))
  {
    hide Aligned16;
    Aligned16Sum(b.addr, size);
    Aligned16Sum(b.size, size);
    if Splits(b, size) {
      AlignedHeader(b.addr + size, b.size - size);
      assert b.addr + HEADER + size == b.addr + size + HEADER;
    }
  }

  lemma AlignedHeader(x: int, y: int)
    requires Aligned16(x) && Aligned16(y)
    ensures Aligned16(x + HEADER) && Aligned16(y - HEADER)
  {
    Aligned16Sum(x, HEADER);
    Aligned16Sum(y, HEADER);
  }

  lemma CutCanonical(b: Block, size: nat)
    requires size <= b.size && Aligned16(b.addr) && Aligned16(b.size) && Aligned16(size)
    ensures Canonical(Cut(b, size), b.addr, b.End())
  {
    hide Aligned, Aligned16;
    CutAligned(b, size);
  }

  lemma CarveIsCut(bs: seq<Block>, i: nat, size: nat)
    requires i < |bs| && size <= bs[i].size
    ensures Carve(bs, i, size) == bs[..i] + Cut(bs[i], size) + bs[i + 1..]
  {}

  lemma BlockAligned(bs: seq<Block>, lo: nat, hi: nat, i: nat)
    requires Canonical(bs, lo, hi) && i < |bs|
    ensures Aligned16(bs[i].addr) && Aligned16(bs[i].size)
  {}

  lemma CarveKeepsCanonical(bs: seq<Block>, lo: nat, hi: nat, i: nat, size: nat)
    requires Canonical(bs, lo, hi) && i < |bs| && Fits(bs[i], size) && Aligned16(size)
    ensures Canonical(Carve(bs, i, size), lo, hi)
  {
    BlockAligned(bs, lo, hi, i);
    assert Coalesced(bs);
    hide Canonical, Carve, Cut, Aligned16;
    CutCanonical(bs[i], size);
    FreeBlockNeighbours(bs, i);
    SpliceKeepsCanonical(bs, lo, hi, i, i + 1, Cut(bs[i], size));
    CarveIsCut(bs, i, size);
  }

  lemma MallocKeepsCanonical(bs: seq<Block>, lo: nat, hi: nat, size: Word)
    requires Canonical(bs, lo, hi)
    ensures Canonical(Malloc(bs, size).0, lo, hi)
  {
    if Malloc(bs, size).1 != 0 {
      RoundingAligns(size);
      CarveKeepsCanonical(bs, lo, hi, FirstFit(bs, AlignUp(size, 16), 0), AlignUp(size, 16));
    }
  }

  // ---------- kfree ----------

  /** Block i swallows its right neighbour. */
  function Join(bs: seq<Block>, i: nat): (cs: seq<Block>)
    requires i + 1 < |bs|
    ensures |cs| == |bs| - 1
    ensures forall j :: 0 <= j < i ==> cs[j] == bs[j]
    ensures cs[i] == Block(bs[i].addr, bs[i].size + HEADER + bs[i + 1].size, bs[i].free)
    ensures forall j :: i < j < |cs| ==> cs[j] == bs[j + 1]
  {
    bs[..i] + [Block(bs[i].addr, bs[i].size + HEADER + bs[i + 1].size, bs[i].free)] + bs[i + 2..]
  }

  /** Block i merges with a free right, then a free left neighbour. */
  function MergeAround(bs: seq<Block>, i: nat): seq<Block>
    requires i < |bs|
  {
    var right := if i + 1 < |bs| && bs[i + 1].free then Join(bs, i) else bs;
    if 0 < i && bs[i - 1].free then Join(right, i - 1) else right
  }

  function Release(bs: seq<Block>, i: nat): seq<Block>
    requires i < |bs|
  {
    MergeAround(bs[i := bs[i].(free := true)], i)
  }

  /** The position of the block with the given payload address; |bs| when there is none. */
  function Find(bs: seq<Block>, p: nat): (i: nat)
    ensures i <= |bs|
    ensures i < |bs| ==> bs[i].Payload() == p
    ensures i == |bs| ==> forall j :: 0 <= j < |bs| ==> bs[j].Payload() != p
  {
    if bs == [] then 0 else if bs[0].Payload() == p then 0 else 1 + Find(bs[1..], p)
  }

  /** p was returned by kmalloc and not freed since. */
  predicate IsLive(bs: seq<Block>, p: nat) {
    Find(bs, p) < |bs| && !bs[Find(bs, p)].free
  }

  function Free(bs: seq<Block>, p: nat): seq<Block>
    requires p == 0 || IsLive(bs, p)
  {
    if p == 0 then bs else Release(bs, Find(bs, p))
  }

  /** The first and last of the blocks that merge when block i is freed. */
  function MergeFrom(bs: seq<Block>, i: nat): (l: nat)
    requires i < |bs|
    ensures l <= i
  {
    if 0 < i && bs[i - 1].free then i - 1 else i
  }

  function MergeTo(bs: seq<Block>, i: nat): (r: nat)
    requires i < |bs|
    ensures i <= r < |bs|
  {
    if i + 1 < |bs| && bs[i + 1].free then i + 1 else i
  }

  lemma JoinedSize(bs: seq<Block>, lo: nat, hi: nat, i: nat)
    requires Tiles(bs, lo, hi) && i + 1 < |bs|
    ensures bs[i].addr + HEADER <= bs[i + 1].End()
    ensures bs[i].End() == bs[i + 1].addr
    ensures bs[i].size + HEADER + bs[i + 1].size == bs[i + 1].End() - bs[i].addr - HEADER
  {
    assert bs[i].End() == bs[i + 1].addr;
  }

  /** Blocks l..r merged into one free block. */
  function Merged(bs: seq<Block>, l: nat, r: nat): seq<Block>
    requires l <= r < |bs| && bs[l].addr + HEADER <= bs[r].End()
  {
    bs[..l] + [Block(bs[l].addr, bs[r].End() - bs[l].addr - HEADER, true)] + bs[r + 1..]
  }

  lemma JoinMerged(bs: seq<Block>, i: nat, r: nat)
    requires 0 < i <= r < |bs| && bs[i - 1].free
    requires bs[i].addr + HEADER <= bs[r].End() && bs[i - 1].End() == bs[i].addr
    ensures Join(Merged(bs, i, r), i - 1) == Merged(bs, i - 1, r)
  {
    var right := Merged(bs, i, r);
    assert right[..i - 1] == bs[..i - 1];
    assert right[i + 1..] == bs[r + 1..];
    assert right[i - 1] == bs[i - 1];
  }

  lemma RightMerge(bs: seq<Block>, i: nat)
    requires i < |bs| && bs[i].addr + HEADER <= bs[MergeTo(bs, i)].End()
    requires i + 1 < |bs| ==> bs[i].End() == bs[i + 1].addr
    ensures
      var freed := bs[i := bs[i].(free := true)];
      (if i + 1 < |bs| && bs[i + 1].free then Join(freed, i) else freed) == Merged(bs, i, MergeTo(bs, i))
  {
    var freed := bs[i := bs[i].(free := true)];
    if i + 1 < |bs| && bs[i + 1].free {
      assert freed[..i] == bs[..i] && freed[i + 2..] == bs[i + 2..];
    } else {
      assert freed == bs[..i] + [freed[i]] + bs[i + 1..];
    }
  }

  /** kfree replaces the freed block and its free neighbours by one free block. */
  lemma ReleaseIsMerge(bs: seq<Block>, lo: nat, hi: nat, i: nat)
    requires Tiles(bs, lo, hi) && i < |bs|
    ensures bs[MergeFrom(bs, i)].addr + HEADER <= bs[MergeTo(bs, i)].End()
    ensures Release(bs, i) == Merged(bs, MergeFrom(bs, i), MergeTo(bs, i))
  {
    var r := MergeTo(bs, i);
    if r == i + 1 { JoinedSize(bs, lo, hi, i); }
    if 0 < i { JoinedSize(bs, lo, hi, i - 1); }
    RightMerge(bs, i);
    if MergeFrom(bs, i) < i {
      JoinMerged(bs, i, r);
    }
  }

  /** What lies beside the merged blocks is not free. */
  lemma MergeEnds(bs: seq<Block>, i: nat)
    requires Coalesced(bs) && i < |bs|
    ensures
      var l, r := MergeFrom(bs, i), MergeTo(bs, i);
      && (0 < l ==> !bs[l - 1].free)
      && (r + 1 < |bs| ==> !bs[r + 1].free)
  {
    if 0 < i && bs[i - 1].free { FreeBlockNeighbours(bs, i - 1); }
    if i + 1 < |bs| && bs[i + 1].free { FreeBlockNeighbours(bs, i + 1); }
  }

  lemma OneBlockCanonical(b: Block)
    requires Aligned16(b.addr) && Aligned16(b.size)
    ensures Canonical([b], b.addr, b.End())
  {}

  /** The block that freeing block i leaves in place of the blocks that merge. */
  lemma MergedBlock(bs: seq<Block>, lo: nat, hi: nat, l: nat, r: nat)
    requires Canonical(bs, lo, hi) && l <= r < |bs| && bs[l].addr + HEADER <= bs[r].End()
    ensures
      var merged := Block(bs[l].addr, bs[r].End() - bs[l].addr - HEADER, true);
      Canonical([merged], bs[l].addr, bs[r].End()) && Merged(bs, l, r) == bs[..l] + [merged] + bs[r + 1..]
  {
    BlockAligned(bs, lo, hi, l);
    BlockAligned(bs, lo, hi, r);
    hide Canonical, Aligned16;
    MergedSizeAligned(bs[l], bs[r]);
    OneBlockCanonical(Block(bs[l].addr, bs[r].End() - bs[l].addr - HEADER, true));
  }

  lemma ReleaseKeepsCanonical(bs: seq<Block>, lo: nat, hi: nat, i: nat)
    requires Canonical(bs, lo, hi) && i < |bs| && !bs[i].free
    ensures Canonical(Release(bs, i), lo, hi)
  {
    assert Tiles(bs, lo, hi) && Coalesced(bs);
    hide Canonical, Tiles, Coalesced, Merged, Release, MergeFrom, MergeTo;
    ReleaseIsMerge(bs, lo, hi, i);
    MergeEnds(bs, i);
    var l, r := MergeFrom(bs, i), MergeTo(bs, i);
    var merged := Block(bs[l].addr, bs[r].End() - bs[l].addr - HEADER, true);
    MergedBlock(bs, lo, hi, l, r);
    SpliceKeepsCanonical(bs, lo, hi, l, r + 1, [merged]);
  }

  lemma MergedSizeAligned(l: Block, r: Block)
    requires Aligned16(l.addr) && Aligned16(r.addr) && Aligned16(r.size)
    ensures Aligned16(r.End() - l.addr - HEADER)
  {
    Aligned16Sum(r.addr, r.size);
    Aligned16Sum(r.addr + r.size, l.addr);
  }

  // ---------- The live blocks after each operation ----------

  lemma CarveAddsLive(bs: seq<Block>, i: nat, size: nat)
    requires i < |bs| && Fits(bs[i], size)
    ensures Live(Carve(bs, i, size))
         == Live(bs) + {Block(bs[i].addr, if Splits(bs[i], size) then size else bs[i].size, false)}
  {
    var cs := Carve(bs, i, size);
    var granted := Block(bs[i].addr, if Splits(bs[i], size) then size else bs[i].size, false);
    assert cs[i] == granted;
    forall b | b in Live(bs) ensures b in cs {
      var j :| 0 <= j < |bs| && bs[j] == b;
      assert b == cs[if j < i || !Splits(bs[i], size) then j else j + 1];
    }
  }

  lemma JoinKeepsLive(bs: seq<Block>, i: nat)
    requires i + 1 < |bs| && bs[i].free && bs[i + 1].free
    ensures Live(Join(bs, i)) == Live(bs)
  {
    var js := Join(bs, i);
    forall b | b in Live(bs) ensures b in js {
      var j :| 0 <= j < |bs| && bs[j] == b;
      assert b == js[if j < i then j else j - 1];
    }
  }

  lemma FreedIsNotLive(bs: seq<Block>, lo: nat, hi: nat, i: nat)
    requires Tiles(bs, lo, hi) && i < |bs| && !bs[i].free
    ensures Live(bs[i := bs[i].(free := true)]) == Live(bs) - {bs[i]}
  {
    TilesAscend(bs, lo, hi);
    var freed := bs[i := bs[i].(free := true)];
    forall b | b in Live(bs) - {bs[i]} ensures b in freed {
      var j :| 0 <= j < |bs| && bs[j] == b;
      assert b == freed[j];
    }
    assert forall j :: 0 <= j < |bs| && j != i ==> freed[j] == bs[j] && bs[j] != bs[i];
  }

  lemma ReleaseRemovesLive(bs: seq<Block>, lo: nat, hi: nat, i: nat)
    requires Tiles(bs, lo, hi) && i < |bs| && !bs[i].free
    ensures Live(Release(bs, i)) == Live(bs) - {bs[i]}
  {
    hide Live, Tiles;
    FreedIsNotLive(bs, lo, hi, i);
    var freed := bs[i := bs[i].(free := true)];
    if i + 1 < |bs| && bs[i + 1].free {
      JoinKeepsLive(freed, i);
      if 0 < i && bs[i - 1].free {
        JoinKeepsLive(Join(freed, i), i - 1);
      }
    } else if 0 < i && bs[i - 1].free {
      JoinKeepsLive(freed, i - 1);
    }
  }

  // ---------- Canonical form ----------

  /** The live blocks alone determine the whole list: what is free are exactly the
      maximal gaps between them. */
  lemma {:induction false} LiveDeterminesList(bs: seq<Block>, cs: seq<Block>, lo: nat, hi: nat)
    requires Tiles(bs, lo, hi) && Coalesced(bs)
    requires Tiles(cs, lo, hi) && Coalesced(cs)
    requires Live(bs) == Live(cs)
    ensures bs == cs
    decreases |bs| + |cs|
  {
    TilesAscend(bs, lo, hi);
    TilesAscend(cs, lo, hi);
    if bs == [] || cs == [] {
    } else {
      HeadsAgree(bs, cs, lo, hi);
      assert Live(bs[1..]) == Live(bs) - {bs[0]} by { TailLive(bs, lo, hi); }
      assert Live(cs[1..]) == Live(cs) - {cs[0]} by { TailLive(cs, lo, hi); }
      TailTiles(bs, lo, hi);
      TailTiles(cs, lo, hi);
      LiveDeterminesList(bs[1..], cs[1..], bs[0].End(), hi);
      assert bs == [bs[0]] + bs[1..] && cs == [cs[0]] + cs[1..];
    }
  }

  lemma TailTiles(bs: seq<Block>, lo: nat, hi: nat)
    requires bs != [] && Tiles(bs, lo, hi) && Coalesced(bs)
    ensures Tiles(bs[1..], bs[0].End(), hi) && Coalesced(bs[1..])
  {
    var rest := bs[1..];
    assert forall j :: 0 <= j < |rest| ==> rest[j] == bs[j + 1];
  }

  lemma TailLive(bs: seq<Block>, lo: nat, hi: nat)
    requires bs != [] && Tiles(bs, lo, hi)
    ensures Live(bs[1..]) == Live(bs) - {bs[0]}
  {
    var rest := bs[1..];
    forall b | b in rest ensures b in bs && b != bs[0] {
      TilesAscend(bs, lo, hi);
      var j :| 0 <= j < |rest| && rest[j] == b;
      assert b == bs[j + 1];
    }
    assert bs == [bs[0]] + rest;
  }

  lemma HeadsAgree(bs: seq<Block>, cs: seq<Block>, lo: nat, hi: nat)
    requires bs != [] && Tiles(bs, lo, hi) && Coalesced(bs)
    requires cs != [] && Tiles(cs, lo, hi) && Coalesced(cs)
    requires Live(bs) == Live(cs)
    ensures bs[0] == cs[0]
  {
    TilesAscend(bs, lo, hi);
    TilesAscend(cs, lo, hi);
    if !bs[0].free {
      assert bs[0] in Live(cs);
    } else if !cs[0].free {
      assert cs[0] in Live(bs);
    } else {
      // The first live block, or the end of the region, ends both gaps.
      if 1 < |bs| { assert bs[1] in Live(cs); }
      if 1 < |cs| { assert cs[1] in Live(bs); }
    }
  }
}
