/** What kmalloc and kfree guarantee over single calls, pairs of calls and whole runs. */
module HeapLaws {
  import opened Bytes
  import opened HeapBlocks

  // ---------- One call of kmalloc ----------

  /** Block i is the first that can hold the rounded request; kmalloc hands out its payload
      and leaves all other live blocks as they were. */
  ghost predicate ServedFrom(bs: seq<Block>, rounded: nat, cs: seq<Block>, p: nat, i: nat) {
    && i < |bs|
    && Fits(bs[i], rounded)
    && (forall j :: 0 <= j < i ==> !Fits(bs[j], rounded))
    && p == bs[i].Payload()
    && IsLive(cs, p)
    && Live(cs) == Live(bs) + {cs[Find(cs, p)]}
    && rounded <= cs[Find(cs, p)].size <= rounded + 32
  }

  lemma CarveGrants(bs: seq<Block>, lo: nat, hi: nat, i: nat, size: nat)
    requires Canonical(bs, lo, hi) && i < |bs| && Fits(bs[i], size) && Aligned16(size)
    ensures
      var cs, p := Carve(bs, i, size), bs[i].Payload();
      IsLive(cs, p) && cs[Find(cs, p)] == Cut(bs[i], size)[0]
  {
    var cs, granted := Carve(bs, i, size), Cut(bs[i], size)[0];
    CarveKeepsCanonical(bs, lo, hi, i, size);
    assert cs[i] == granted;
    hide Carve;
    LiveByPointer(cs, lo, hi, granted);
  }

  lemma CarveServes(bs: seq<Block>, lo: nat, hi: nat, i: nat, rounded: nat)
    requires Canonical(bs, lo, hi) && i < |bs| && Fits(bs[i], rounded) && Aligned16(rounded)
    requires forall j :: 0 <= j < i ==> !Fits(bs[j], rounded)
    ensures ServedFrom(bs, rounded, Carve(bs, i, rounded), bs[i].Payload(), i)
  {
    BlockAligned(bs, lo, hi, i);
    UnsplitExcess(bs[i].size, rounded);
    CarveAddsLive(bs, i, rounded);
    CarveGrants(bs, lo, hi, i, rounded);
    hide Carve, Canonical, Live, Aligned16;
  }

  lemma UnsplitExcess(available: nat, rounded: nat)
    requires Aligned16(available) && Aligned16(rounded)
    ensures available < rounded + 48 ==> available <= rounded + 32
  {}

  /** kmalloc is exact first fit: null precisely when nothing is asked for or no free block
      holds the rounded request, otherwise the first such block, cut so that at most 32 bytes beyond the
      rounded size go with it. The rest of the list follows from its live blocks
      (LiveDeterminesList). */
  lemma MallocIsFirstFit(bs: seq<Block>, lo: nat, hi: nat, size: Word)
    requires Canonical(bs, lo, hi)
    ensures
      var (cs, p), rounded := Malloc(bs, size), AlignUp(size, 16);
      && Canonical(cs, lo, hi)
      && (p == 0 <==> size == 0 || forall b :: b in bs ==> !Fits(b, rounded))
      && (p == 0 ==> cs == bs)
      && (p != 0 ==> exists i: nat :: ServedFrom(bs, rounded, cs, p, i))
  {
    MallocKeepsCanonical(bs, lo, hi, size);
    var rounded := AlignUp(size, 16);
    var i := FirstFit(bs, rounded, 0);
    if size != 0 && i < |bs| {
      RoundingAligns(size);
      CarveServes(bs, lo, hi, i, rounded);
    }
  }

  /** The pointer kmalloc returns was not live before. */
  lemma GrantedBlock(bs: seq<Block>, lo: nat, hi: nat, size: Word)
    requires Canonical(bs, lo, hi) && Malloc(bs, size).1 != 0
    ensures
      var (cs, p), rounded := Malloc(bs, size), AlignUp(size, 16);
      && IsLive(cs, p) && !IsLive(bs, p)
      && rounded <= cs[Find(cs, p)].size <= rounded + 32
      && Live(cs) == Live(bs) + {cs[Find(cs, p)]}
  {
    MallocIsFirstFit(bs, lo, hi, size);
    var (cs, p) := Malloc(bs, size);
    var i: nat :| ServedFrom(bs, AlignUp(size, 16), cs, p, i);
    if IsLive(bs, p) {
      BlocksDisjoint(bs, lo, hi, bs[Find(bs, p)], bs[i]);
    }
  }

  /** A granted block covers the request, with less than 48 bytes to spare, exactly when
      rounding the request up did not wrap around. */
  lemma GrantCoversRequest(bs: seq<Block>, lo: nat, hi: nat, size: Word)
    requires Canonical(bs, lo, hi) && Malloc(bs, size).1 != 0
    ensures
      var (cs, p) := Malloc(bs, size);
      IsLive(cs, p) && (size <= cs[Find(cs, p)].size < size + 48 <==> size <= WORD_LIMIT - 16)
  {
    GrantedBlock(bs, lo, hi, size);
    RoundingAligns(size);
  }

  /** A request within 15 bytes of the word limit wraps to 0 and is granted nothing. */
  lemma WrappedRequestGetsEmptyBlock()
    ensures Malloc(Initial(0x100000, 0x200000), WORD_LIMIT - 1)
         == ([Block(0x100000, 0, false), Block(0x100020, 0xFFFC0, true)], 0x100020)
  {
    var bs := Initial(0x100000, 0x200000);
    assert AlignUp(WORD_LIMIT - 1, 16) == 0;
    assert FirstFit(bs, 0, 0) == 0 && Splits(bs[0], 0);
    assert Carve(bs, 0, 0) == [Block(0x100000, 0, false), Block(0x100020, 0xFFFC0, true)];
  }

  // ---------- One call of kfree ----------

  lemma LiveByPointer(bs: seq<Block>, lo: nat, hi: nat, b: Block)
    requires Tiles(bs, lo, hi) && b in Live(bs)
    ensures IsLive(bs, b.Payload()) && bs[Find(bs, b.Payload())] == b
  {
    var i := Find(bs, b.Payload());
    assert i < |bs|;
    if bs[i] != b {
      BlocksDisjoint(bs, lo, hi, bs[i], b);
    }
  }

  lemma FreeRemovesBlock(bs: seq<Block>, lo: nat, hi: nat, p: nat)
    requires Canonical(bs, lo, hi) && IsLive(bs, p)
    ensures Canonical(Free(bs, p), lo, hi)
    ensures Live(Free(bs, p)) == Live(bs) - {bs[Find(bs, p)]}
  {
    if p != 0 {
      ReleaseKeepsCanonical(bs, lo, hi, Find(bs, p));
      ReleaseRemovesLive(bs, lo, hi, Find(bs, p));
    }
  }

  // ---------- Pairs of calls ----------

  /** Freeing what kmalloc just granted restores the list, split or not. */
  lemma FreeUndoesMalloc(bs: seq<Block>, lo: nat, hi: nat, size: Word)
    requires Canonical(bs, lo, hi) && Malloc(bs, size).1 != 0
    ensures
      var (cs, p) := Malloc(bs, size);
      IsLive(cs, p) && Free(cs, p) == bs
  {
    var (cs, p) := Malloc(bs, size);
    GrantedBlock(bs, lo, hi, size);
    MallocKeepsCanonical(bs, lo, hi, size);
    FreeRemovesBlock(cs, lo, hi, p);
    assert cs[Find(cs, p)] !in Live(bs) by {
      if cs[Find(cs, p)] in Live(bs) {
        LiveByPointer(bs, lo, hi, cs[Find(cs, p)]);
      }
    }
    assert Live(Free(cs, p)) == Live(bs);
    LiveDeterminesList(Free(cs, p), bs, lo, hi);
  }

  /** The order of two frees does not matter. */
  lemma FreesCommute(bs: seq<Block>, lo: nat, hi: nat, p: nat, q: nat)
    requires Canonical(bs, lo, hi) && IsLive(bs, p) && IsLive(bs, q) && p != q
    ensures IsLive(Free(bs, p), q) && IsLive(Free(bs, q), p)
    ensures Free(Free(bs, p), q) == Free(Free(bs, q), p)
  {
    hide Release, Tiles, Aligned, Coalesced;
    var b, c := bs[Find(bs, p)], bs[Find(bs, q)];
    FreeRemovesBlock(bs, lo, hi, p);
    FreeRemovesBlock(bs, lo, hi, q);
    LiveByPointer(Free(bs, p), lo, hi, c);
    LiveByPointer(Free(bs, q), lo, hi, b);
    FreeRemovesBlock(Free(bs, p), lo, hi, q);
    FreeRemovesBlock(Free(bs, q), lo, hi, p);
    assert Live(Free(Free(bs, p), q)) == Live(Free(Free(bs, q), p));
    LiveDeterminesList(Free(Free(bs, p), q), Free(Free(bs, q), p), lo, hi);
  }

  // ---------- Runs ----------

  datatype Request = Get(size: Word) | Give(ptr: nat)

  /** kfree is only given null or a live pointer. */
  predicate Legal(bs: seq<Block>, r: Request) {
    r.Give? ==> r.ptr == 0 || IsLive(bs, r.ptr)
  }

  function Step(bs: seq<Block>, r: Request): seq<Block>
    requires Legal(bs, r)
  {
    match r
    case Get(size) => Malloc(bs, size).0
    case Give(ptr) => Free(bs, ptr)
  }

  predicate LegalRun(bs: seq<Block>, rs: seq<Request>)
    decreases |rs|
  {
    rs == [] || (Legal(bs, rs[0]) && LegalRun(Step(bs, rs[0]), rs[1..]))
  }

  function Run(bs: seq<Block>, rs: seq<Request>): seq<Block>
    requires LegalRun(bs, rs)
    decreases |rs|
  {
    if rs == [] then bs else Run(Step(bs, rs[0]), rs[1..])
  }

  lemma StepKeepsCanonical(bs: seq<Block>, lo: nat, hi: nat, r: Request)
    requires Canonical(bs, lo, hi) && Legal(bs, r)
    ensures Canonical(Step(bs, r), lo, hi)
  {
    match r
    case Get(size) => MallocKeepsCanonical(bs, lo, hi, size);
    case Give(ptr) => if ptr != 0 { FreeRemovesBlock(bs, lo, hi, ptr); }
  }

  lemma {:induction false} RunKeepsCanonical(bs: seq<Block>, lo: nat, hi: nat, rs: seq<Request>)
    requires Canonical(bs, lo, hi) && LegalRun(bs, rs)
    ensures Canonical(Run(bs, rs), lo, hi)
    decreases |rs|
  {
    if rs != [] {
      StepKeepsCanonical(bs, lo, hi, rs[0]);
      RunKeepsCanonical(Step(bs, rs[0]), lo, hi, rs[1..]);
    }
  }

  function FreeBytes(bs: seq<Block>): nat {
    if bs == [] then 0 else (if bs[0].free then bs[0].size else 0) + FreeBytes(bs[1..])
  }

  function LiveBytes(bs: seq<Block>): nat {
    if bs == [] then 0 else (if bs[0].free then 0 else bs[0].size) + LiveBytes(bs[1..])
  }

  lemma {:induction false} TilingConserves(bs: seq<Block>, lo: nat, hi: nat)
    requires Tiles(bs, lo, hi)
    ensures FreeBytes(bs) + LiveBytes(bs) + HEADER * |bs| == hi - lo
  {
    if bs != [] {
      var rest := bs[1..];
      if rest != [] {
        assert bs[0].End() == bs[1].addr;
        assert forall j :: 0 <= j < |rest| ==> rest[j] == bs[j + 1];
      }
      TilingConserves(rest, bs[0].End(), hi);
    }
  }

  lemma {:induction false} LiveBytesOf(a: seq<Block>, b: seq<Block>)
    ensures LiveBytes(a + b) == LiveBytes(a) + LiveBytes(b)
    decreases |a|
  {
    if a == [] {
      assert a + b == b;
    } else {
      LiveBytesOf(a[1..], b);
      assert (a + b)[1..] == a[1..] + b;
    }
  }

  /** What is live counts its payload, what is free counts nothing. */
  lemma {:induction false} NothingLiveCountsNothing(bs: seq<Block>)
    requires Live(bs) == {}
    ensures LiveBytes(bs) == 0
    decreases |bs|
  {
    if bs != [] {
      assert bs[0].free == (bs[0] !in Live(bs));
      assert Live(bs[1..]) <= Live(bs);
      NothingLiveCountsNothing(bs[1..]);
    }
  }

  lemma LiveBytesAround(bs: seq<Block>, l: nat, r: nat, xs: seq<Block>)
    requires l <= r <= |bs|
    ensures LiveBytes(bs[..l] + xs + bs[r..]) == LiveBytes(bs) - LiveBytes(bs[l..r]) + LiveBytes(xs)
  {
    assert bs == bs[..l] + bs[l..r] + bs[r..];
    LiveBytesOf(bs[..l] + bs[l..r], bs[r..]);
    LiveBytesOf(bs[..l], bs[l..r]);
    LiveBytesOf(bs[..l] + xs, bs[r..]);
    LiveBytesOf(bs[..l], xs);
  }

  lemma LiveBytesOfOne(b: Block)
    ensures LiveBytes([b]) == if b.free then 0 else b.size
  {}

  lemma LiveBytesOfCut(b: Block, size: nat)
    requires Fits(b, size)
    ensures LiveBytes(Cut(b, size)) == Cut(b, size)[0].size
  {
    LiveBytesOfOne(Cut(b, size)[0]);
    if Splits(b, size) {
      LiveBytesOf([Cut(b, size)[0]], [Cut(b, size)[1]]);
      LiveBytesOfOne(Cut(b, size)[1]);
      assert Cut(b, size) == [Cut(b, size)[0]] + [Cut(b, size)[1]];
    } else {
      assert Cut(b, size) == [Cut(b, size)[0]];
    }
  }

  lemma CarveMovesBytes(bs: seq<Block>, i: nat, size: nat)
    requires i < |bs| && Fits(bs[i], size)
    ensures LiveBytes(Carve(bs, i, size)) == LiveBytes(bs) + Cut(bs[i], size)[0].size
  {
    CarveIsCut(bs, i, size);
    LiveBytesOfCut(bs[i], size);
    hide LiveBytes, Cut, Carve;
    LiveBytesAround(bs, i, i + 1, Cut(bs[i], size));
    LiveBytesOfOne(bs[i]);
    assert bs[i..i + 1] == [bs[i]];
  }

  /** A grant moves its bytes from the free to the live ones, and a split 32 more to a header. */
  lemma GrantMovesBytes(bs: seq<Block>, lo: nat, hi: nat, size: Word)
    requires Canonical(bs, lo, hi) && Malloc(bs, size).1 != 0
    ensures
      var (cs, p) := Malloc(bs, size);
      && IsLive(cs, p)
      && LiveBytes(cs) == LiveBytes(bs) + cs[Find(cs, p)].size
      && FreeBytes(cs) == FreeBytes(bs) - cs[Find(cs, p)].size - 32 * (|cs| - |bs|)
  {
    hide LiveBytes, FreeBytes, Carve, Cut, Tiles, Aligned, Coalesced;
    var cs, rounded := Malloc(bs, size).0, AlignUp(size, 16);
    var i := FirstFit(bs, rounded, 0);
    RoundingAligns(size);
    hide AlignUp;
    CarveGrants(bs, lo, hi, i, rounded);
    CarveMovesBytes(bs, i, rounded);
    MallocKeepsCanonical(bs, lo, hi, size);
    TilingConserves(bs, lo, hi);
    TilingConserves(cs, lo, hi);
  }

  lemma FreeBlockCountsNothing(xs: seq<Block>)
    requires |xs| == 0 || (|xs| == 1 && xs[0].free)
    ensures LiveBytes(xs) == 0
  {}

  lemma LiveBytesOfMerged(bs: seq<Block>, i: nat)
    requires i < |bs| && !bs[i].free
    ensures LiveBytes(bs[MergeFrom(bs, i)..MergeTo(bs, i) + 1]) == bs[i].size
  {
    hide LiveBytes;
    var l, r := MergeFrom(bs, i), MergeTo(bs, i);
    var left, right := bs[l..i], bs[i + 1..r + 1];
    assert bs[l..r + 1] == left + [bs[i]] + right;
    LiveBytesOf(left + [bs[i]], right);
    LiveBytesOf(left, [bs[i]]);
    LiveBytesOfOne(bs[i]);
    FreeBlockCountsNothing(left);
    FreeBlockCountsNothing(right);
  }

  /** Freeing moves them back, and 32 more for every header that goes. */
  lemma FreeMovesBytes(bs: seq<Block>, lo: nat, hi: nat, p: nat)
    requires Canonical(bs, lo, hi) && p != 0 && IsLive(bs, p)
    ensures LiveBytes(Free(bs, p)) == LiveBytes(bs) - bs[Find(bs, p)].size
    ensures FreeBytes(Free(bs, p)) == FreeBytes(bs) + bs[Find(bs, p)].size + 32 * (|bs| - |Free(bs, p)|)
  {
    hide LiveBytes, FreeBytes, Release, Tiles, Aligned, Coalesced;
    var i := Find(bs, p);
    var l, r := MergeFrom(bs, i), MergeTo(bs, i);
    ReleaseIsMerge(bs, lo, hi, i);
    var merged := Block(bs[l].addr, bs[r].End() - bs[l].addr - HEADER, true);
    LiveBytesAround(bs, l, r + 1, [merged]);
    LiveBytesOfOne(merged);
    LiveBytesOfMerged(bs, i);
    ReleaseKeepsCanonical(bs, lo, hi, i);
    TilingConserves(bs, lo, hi);
    TilingConserves(Free(bs, p), lo, hi);
  }

  /** A live payload is aligned, lies in the region, and overlaps no other block, header
      or payload. */
  ghost predicate LiesApart(b: Block, bs: seq<Block>, lo: nat, hi: nat) {
    && Aligned16(b.Payload()) && lo <= b.addr && b.End() <= hi
    && forall c :: c in bs && c != b ==> c.End() <= b.addr || b.End() <= c.addr
  }

  lemma LiveLiesApart(bs: seq<Block>, lo: nat, hi: nat, b: Block)
    requires Canonical(bs, lo, hi) && b in bs
    ensures LiesApart(b, bs, lo, hi)
  {
    forall c | c in bs && c != b ensures c.End() <= b.addr || b.End() <= c.addr {
      BlocksDisjoint(bs, lo, hi, b, c);
    }
    TilesAscend(bs, lo, hi);
    var i :| 0 <= i < |bs| && bs[i] == b;
    Aligned16Sum(bs[i].addr, HEADER);
  }

  /** Every state reachable from the fresh heap: the blocks tile the region without two free
      neighbours, all bytes are accounted for, and the live payloads lie apart. */
  lemma ReachableHeap(lo: nat, hi: nat, rs: seq<Request>)
    requires Aligned16(lo) && Aligned16(hi) && lo + HEADER <= hi
    requires LegalRun(Initial(lo, hi), rs)
    ensures
      var bs := Run(Initial(lo, hi), rs);
      && Canonical(bs, lo, hi)
      && FreeBytes(bs) + LiveBytes(bs) + HEADER * |bs| == hi - lo
      && forall b :: b in Live(bs) ==> LiesApart(b, bs, lo, hi)
  {
    RunKeepsCanonical(Initial(lo, hi), lo, hi, rs);
    var bs := Run(Initial(lo, hi), rs);
    TilingConserves(bs, lo, hi);
    forall b | b in Live(bs) ensures LiesApart(b, bs, lo, hi) {
      LiveLiesApart(bs, lo, hi, b);
    }
  }

  lemma NothingLiveIsInitial(bs: seq<Block>, lo: nat, hi: nat)
    requires Canonical(bs, lo, hi) && lo + HEADER <= hi && Live(bs) == {}
    ensures bs == Initial(lo, hi)
  {
    LiveDeterminesList(bs, Initial(lo, hi), lo, hi);
  }

  /** A run that leaves nothing live leaves the one free block it started from, whatever
      was allocated and in whatever order it was freed. */
  lemma AllFreedRestores(lo: nat, hi: nat, rs: seq<Request>)
    requires Aligned16(lo) && Aligned16(hi) && lo + HEADER <= hi
    requires LegalRun(Initial(lo, hi), rs)
    ensures Live(Run(Initial(lo, hi), rs)) == {} <==> Run(Initial(lo, hi), rs) == Initial(lo, hi)
  {
    RunKeepsCanonical(Initial(lo, hi), lo, hi, rs);
    if Live(Run(Initial(lo, hi), rs)) == {} {
      NothingLiveIsInitial(Run(Initial(lo, hi), rs), lo, hi);
    }
  }

  /** Every order in which the live pointers can be freed is legal and ends in the same
      single free block. */
  lemma {:induction false} FreeingAllInAnyOrder(bs: seq<Block>, lo: nat, hi: nat, ps: seq<nat>)
    requires Canonical(bs, lo, hi) && lo + HEADER <= hi
    requires forall p :: p in ps ==> IsLive(bs, p)
    requires forall i, j :: 0 <= i < j < |ps| ==> ps[i] != ps[j]
    requires forall b :: b in Live(bs) ==> b.Payload() in ps
    ensures LegalRun(bs, Gives(ps)) && Run(bs, Gives(ps)) == Initial(lo, hi)
    decreases |ps|
  {
    hide Release, Tiles, Aligned, Coalesced;
    if ps == [] {
      assert Live(bs) == {};
      NothingLiveIsInitial(bs, lo, hi);
    } else {
      var p, rest := ps[0], ps[1..];
      var cs := Free(bs, p);
      FreeRemovesBlock(bs, lo, hi, p);
      forall q | q in rest ensures IsLive(cs, q) {
        assert q in ps && q != p;
        LiveByPointer(cs, lo, hi, bs[Find(bs, q)]);
      }
      forall b | b in Live(cs) ensures b.Payload() in rest {
        assert b.Payload() in ps;
        LiveByPointer(bs, lo, hi, b);
      }
      FreeingAllInAnyOrder(cs, lo, hi, rest);
      assert Gives(ps)[1..] == Gives(rest);
    }
  }

  function Gives(ps: seq<nat>): (rs: seq<Request>)
    ensures |rs| == |ps|
  {
    seq(|ps|, i requires 0 <= i < |ps| => Give(ps[i]))
  }

  // ---------- Block sizes ----------

  ghost predicate Positive(bs: seq<Block>) {
    forall i :: 0 <= i < |bs| ==> 16 <= bs[i].size
  }

  /** As long as no request wraps around, every block keeps at least 16 payload bytes. */
  lemma {:induction false} RunKeepsPositive(bs: seq<Block>, lo: nat, hi: nat, rs: seq<Request>)
    requires Canonical(bs, lo, hi) && Positive(bs) && LegalRun(bs, rs)
    requires forall r :: r in rs && r.Get? ==> r.size <= WORD_LIMIT - 16
    ensures Positive(Run(bs, rs))
    decreases |rs|
  {
    if rs != [] {
      StepKeepsCanonical(bs, lo, hi, rs[0]);
      assert Positive(Step(bs, rs[0])) by { StepKeepsPositive(bs, lo, hi, rs[0]); }
      RunKeepsPositive(Step(bs, rs[0]), lo, hi, rs[1..]);
    }
  }

  lemma StepKeepsPositive(bs: seq<Block>, lo: nat, hi: nat, r: Request)
    requires Canonical(bs, lo, hi) && Positive(bs) && Legal(bs, r)
    requires r.Get? ==> r.size <= WORD_LIMIT - 16
    ensures Positive(Step(bs, r))
  {
    match r
    case Get(size) => if size != 0 { RoundingAligns(size); }
    case Give(ptr) =>
      if ptr != 0 {
        var i := Find(bs, ptr);
        ReleaseIsMerge(bs, lo, hi, i);
        TilesAscend(bs, lo, hi);
        MergedPositive(bs, MergeFrom(bs, i), MergeTo(bs, i));
      }
  }

  lemma MergedPositive(bs: seq<Block>, l: nat, r: nat)
    requires Positive(bs) && l <= r < |bs| && (l < r ==> bs[l].End() <= bs[r].addr)
    ensures bs[l].addr + HEADER <= bs[r].End() && Positive(Merged(bs, l, r))
  {
    var ms := Merged(bs, l, r);
    assert forall j :: 0 <= j < l ==> ms[j] == bs[j];
    assert forall j :: l < j < |ms| ==> ms[j] == bs[j + r - l];
  }
}
