/** The ELF loader: which files it accepts and what the app window holds afterwards. */
module Elf {
  import opened Bytes
  import opened FlatMemory
  import opened Strings

  const ELF_HEADER: nat := 64
  const PROGRAM_HEADER: nat := 56

  function Sum64(x: nat, y: nat): (r: Word)
    ensures x + y < WORD_LIMIT ==> r == x + y
  {
    (x + y) % WORD_LIMIT
  }

  // ---------- What a file f says ----------

  function PhOffset(f: seq<Byte>): nat requires ELF_HEADER <= |f| { Load(f, 32, 8) }
  function PhEntrySize(f: seq<Byte>): nat requires ELF_HEADER <= |f| { Load(f, 54, 2) }
  function PhCount(f: seq<Byte>): nat requires ELF_HEADER <= |f| { Load(f, 56, 2) }
  function EntryPoint(f: seq<Byte>): nat requires ELF_HEADER <= |f| { Load(f, 24, 8) }

  /** runtime_validate_elf. */
  ghost predicate ValidElf(f: seq<Byte>) {
    && ELF_HEADER <= |f|
    && Load(f, 0, 4) == 0x464C457F
    && f[4] == 2 && f[5] == 1
    && Load(f, 16, 2) == 2 && Load(f, 18, 2) == 62
    && Sum64(PhOffset(f), PhEntrySize(f) * PhCount(f)) <= |f|
  }

  datatype Segment = Segment(kind: nat, offset: nat, vaddr: nat, fileSize: nat, memorySize: nat) {
    /** The loader acts on this segment. */
    predicate Loads() {
      kind == 1 && memorySize != 0
    }

    predicate Covers(a: int) {
      Loads() && vaddr <= a < vaddr + memorySize
    }
  }

  function SegmentAt(f: seq<Byte>, at: nat): Segment
    requires at + PROGRAM_HEADER <= |f|
  {
    Segment(Load(f, at, 4), Load(f, at + 8, 8), Load(f, at + 16, 8), Load(f, at + 32, 8), Load(f, at + 40, 8))
  }

  /** The program headers the loader walks lie in the file. */
  predicate TableInFile(f: seq<Byte>) {
    ELF_HEADER <= |f| && PhOffset(f) + PROGRAM_HEADER * PhCount(f) <= |f|
  }

  function Segments(f: seq<Byte>): (s: seq<Segment>)
    requires TableInFile(f)
    ensures |s| == PhCount(f)
  {
    seq(PhCount(f), i requires 0 <= i < PhCount(f) => SegmentAt(f, PhOffset(f) + 56 * i))
  }

  /** The bounds the loader checks before it copies a segment. */
  predicate Admissible(f: seq<Byte>, s: Segment) {
    && Sum64(s.offset, s.fileSize) <= |f|
    && WINDOW_START <= s.vaddr && Sum64(s.vaddr, s.memorySize) <= WINDOW_END
  }

  /** What the loader takes for granted about a file: 56-byte program headers, sums within
      64 bits, and no loaded segment with more bytes in the file than in memory. */
  ghost predicate Conforming(f: seq<Byte>) {
    && ELF_HEADER <= |f|
    && PhEntrySize(f) == PROGRAM_HEADER && PhOffset(f) + PROGRAM_HEADER * PhCount(f) < WORD_LIMIT
    && (TableInFile(f) ==> forall s :: s in Segments(f) && s.Loads() ==>
          && s.fileSize <= s.memorySize
          && s.offset + s.fileSize < WORD_LIMIT && s.vaddr + s.memorySize < WORD_LIMIT)
  }

  lemma ValidTableInFile(f: seq<Byte>)
    requires ValidElf(f) && Conforming(f)
    ensures TableInFile(f)
  {
    hide Load;
  }

  // ---------- What a loaded window shows ----------

  /** The segment may be copied as it stands. */
  predicate Placeable(f: seq<Byte>, s: Segment) {
    && Admissible(f, s)
    && s.fileSize <= s.memorySize
    && s.offset + s.fileSize < WORD_LIMIT && s.vaddr + s.memorySize < WORD_LIMIT
  }

  /** The byte a segment puts at an address it covers: from the file, then zeros. */
  function SegmentByte(f: seq<Byte>, s: Segment, a: nat): Byte
    requires s.Covers(a) && Placeable(f, s)
  {
    if a < s.vaddr + s.fileSize then f[s.offset + a - s.vaddr] else 0
  }

  /** All segments that load may be copied as they stand. */
  ghost predicate Copyable(f: seq<Byte>, segments: seq<Segment>) {
    forall s :: s in segments && s.Loads() ==> Placeable(f, s)
  }

  /** The window byte at an address: the last segment covering it decides; zero without one. */
  ghost function WindowByte(f: seq<Byte>, segments: seq<Segment>, a: nat): Byte
    requires Copyable(f, segments)
    decreases |segments|
  {
    if segments == [] then 0 else
    var last := segments[|segments| - 1];
    if last.Covers(a) then SegmentByte(f, last, a) else WindowByte(f, segments[..|segments| - 1], a)
  }

  /** The last covering segment decides. */
  lemma {:induction false} LastCoveringDecides(f: seq<Byte>, segments: seq<Segment>, i: nat, a: nat)
    requires Copyable(f, segments) && i < |segments| && segments[i].Covers(a)
    requires forall j :: i < j < |segments| ==> !segments[j].Covers(a)
    ensures WindowByte(f, segments, a) == SegmentByte(f, segments[i], a)
    decreases |segments|
  {
    var front := segments[..|segments| - 1];
    if i < |front| {
      assert front[i] == segments[i];
      LastCoveringDecides(f, front, i, a);
    }
  }

  lemma {:induction false} UncoveredIsZero(f: seq<Byte>, segments: seq<Segment>, a: nat)
    requires Copyable(f, segments) && forall s :: s in segments ==> !s.Covers(a)
    ensures WindowByte(f, segments, a) == 0
    decreases |segments|
  {
    if segments != [] {
      UncoveredIsZero(f, segments[..|segments| - 1], a);
    }
  }

  /** The first segment the loader refuses, or their number. */
  function FirstRefused(f: seq<Byte>, segments: seq<Segment>, from: nat): (k: nat)
    requires from <= |segments|
    ensures from <= k <= |segments|
    ensures k < |segments| ==> segments[k].Loads() && !Admissible(f, segments[k])
    ensures forall j :: from <= j < k && segments[j].Loads() ==> Admissible(f, segments[j])
    decreases |segments| - from
  {
    if from == |segments| || (segments[from].Loads() && !Admissible(f, segments[from])) then from
    else FirstRefused(f, segments, from + 1)
  }

  /** Up to the first refused segment, and one further if it is admitted, all can be copied. */
  lemma PrefixCopyable(f: seq<Byte>, k: nat)
    requires Conforming(f) && TableInFile(f) && k <= FirstRefused(f, Segments(f), 0)
    ensures Copyable(f, Segments(f)[..k])
    ensures k < |Segments(f)| && (Segments(f)[k].Loads() ==> Admissible(f, Segments(f)[k])) ==>
      Copyable(f, Segments(f)[..k] + [Segments(f)[k]])
  {
    hide Segments, Load;
    forall s | s in Segments(f)[..k] && s.Loads() ensures Admissible(f, s) {
      var j :| 0 <= j < k && Segments(f)[j] == s;
    }
  }

  // ---------- The loader ----------

  /** The image of the file f lies in memory, clear of the app window. */
  ghost predicate Holds(m: seq<Byte>, image: nat, f: seq<Byte>) {
    && image + |f| <= |m| && WINDOW_END <= |m|
    && (image + |f| <= WINDOW_START || WINDOW_END <= image)
    && m[image..image + |f|] == f
  }

  lemma HoldsField(m: seq<Byte>, image: nat, f: seq<Byte>, at: nat, width: nat)
    requires Holds(m, image, f) && at + width <= |f|
    ensures Load(m, image + at, width) == Load(f, at, width)
  {
    SliceOfSlice(m, image, image + |f|, at, at + width);
  }

  lemma HoldsStill(before: seq<Byte>, after: seq<Byte>, image: nat, f: seq<Byte>)
    requires Holds(before, image, f) && SameOutside(before, after, WINDOW_START, WINDOW_END)
    ensures Holds(after, image, f)
  {
    assert after[image..image + |f|] == before[image..image + |f|];
  }

  method ReadField(mem: array<Byte>, image: nat, at: nat, width: nat, ghost f: seq<Byte>) returns (v: nat)
    requires Holds(mem[..], image, f) && at + width <= |f|
    ensures v == Load(f, at, width)
  {
    HoldsField(mem[..], image, f, at, width);
    v := Load(mem[..], image + at, width);
  }

  method ValidateElf(mem: array<Byte>, image: nat, size: nat, ghost f: seq<Byte>) returns (ok: bool)
    requires Holds(mem[..], image, f) && size == |f|
    ensures ok == ValidElf(f)
  {
    hide Load;
    if size < ELF_HEADER {
      return false;
    }
    var magic := ReadField(mem, image, 0, 4, f);
    var kind := ReadField(mem, image, 16, 2, f);
    var machine := ReadField(mem, image, 18, 2, f);
    assert mem[..][image..image + |f|][4] == mem[image + 4] && mem[..][image..image + |f|][5] == mem[image + 5];
    if magic != 0x464C457F || mem[image + 4] != 2 || mem[image + 5] != 1 || kind != 2 || machine != 62 {
      return false;
    }
    var offset := ReadField(mem, image, 32, 8, f);
    var entrySize := ReadField(mem, image, 54, 2, f);
    var count := ReadField(mem, image, 56, 2, f);
    var phEnd := Sum64(offset, entrySize * count);
    return phEnd <= size;
  }

  method ReadSegment(mem: array<Byte>, image: nat, at: nat, ghost f: seq<Byte>) returns (s: Segment)
    requires Holds(mem[..], image, f) && at + PROGRAM_HEADER <= |f|
    ensures s == SegmentAt(f, at)
  {
    hide Load;
    var kind := ReadField(mem, image, at, 4, f);
    var offset := ReadField(mem, image, at + 8, 8, f);
    var vaddr := ReadField(mem, image, at + 16, 8, f);
    var fileSize := ReadField(mem, image, at + 32, 8, f);
    var memorySize := ReadField(mem, image, at + 40, 8, f);
    s := Segment(kind, offset, vaddr, fileSize, memorySize);
  }

  /** Memory differs from before in the bytes segment s covers, which are now its own. */
  ghost predicate Placed(before: seq<Byte>, after: seq<Byte>, f: seq<Byte>, s: Segment)
    requires s.Loads() ==> Placeable(f, s)
  {
    && WINDOW_END <= |before| && SameOutside(before, after, WINDOW_START, WINDOW_END)
    && forall a :: WINDOW_START <= a < WINDOW_END ==>
         after[a] == if s.Covers(a) then SegmentByte(f, s, a) else before[a]
  }

  /** Copy the file bytes of one segment and clear the rest of it. */
  method PlaceSegment(mem: array<Byte>, image: nat, s: Segment, ghost f: seq<Byte>)
    requires Holds(mem[..], image, f) && s.Loads() && Placeable(f, s)
    modifies mem
    ensures Placed(old(mem[..]), mem[..], f, s)
  {
    MemoryCopy(mem, s.vaddr, image + s.offset, s.fileSize);
    forall a | s.vaddr <= a < s.vaddr + s.fileSize ensures mem[a] == f[s.offset + a - s.vaddr] {
      var from := a - s.vaddr + (image + s.offset);
      assert old(mem[..])[image..image + |f|][from - image] == old(mem[from]);
    }
    if s.memorySize > s.fileSize {
      MemorySet(mem, s.vaddr + s.fileSize, 0, s.memorySize - s.fileSize);
    }
  }

  /** Every byte of the window is the one the segments put there. */
  ghost predicate WindowShows(m: seq<Byte>, f: seq<Byte>, segments: seq<Segment>) {
    && WINDOW_END <= |m| && Copyable(f, segments)
    && forall a :: WINDOW_START <= a < WINDOW_END ==> m[a] == WindowByte(f, segments, a)
  }

  /** One turn of the loader's loop: refuse the segment, or place it. */
  method LoadSegment(mem: array<Byte>, image: nat, size: nat, ghost f: seq<Byte>, ghost segments: seq<Segment>, s: Segment)
    returns (ok: bool)
    requires Holds(mem[..], image, f) && size == |f|
    requires s.Loads() && Admissible(f, s) ==> Copyable(f, segments + [s])
    requires WindowShows(mem[..], f, segments)
    modifies mem
    ensures ok <==> (s.Loads() ==> Admissible(f, s))
    ensures Holds(mem[..], image, f) && SameOutside(old(mem[..]), mem[..], WINDOW_START, WINDOW_END)
    ensures WindowShows(mem[..], f, if ok then segments + [s] else segments)
  {
    hide WindowShows, Holds, Copyable, Placeable, Placed;
    if s.Loads() {
      if Sum64(s.offset, s.fileSize) > size {
        return false;
      }
      if s.vaddr < WINDOW_START || Sum64(s.vaddr, s.memorySize) > WINDOW_END {
        return false;
      }
      ghost var before := mem[..];
      LastPlaceable(f, segments, s);
      PlaceSegment(mem, image, s, f);
      NextShows(before, mem[..], f, segments, s);
      HoldsStill(before, mem[..], image, f);
    } else {
      SkippedShows(mem[..], f, segments, s);
    }
    return true;
  }

  lemma LastPlaceable(f: seq<Byte>, segments: seq<Segment>, s: Segment)
    requires Copyable(f, segments + [s])
    ensures s.Loads() ==> Placeable(f, s)
  {
    assert s in segments + [s];
  }

  lemma NextShows(before: seq<Byte>, after: seq<Byte>, f: seq<Byte>, segments: seq<Segment>, s: Segment)
    requires WindowShows(before, f, segments) && Copyable(f, segments + [s])
    requires (s.Loads() ==> Placeable(f, s)) && Placed(before, after, f, s)
    ensures WindowShows(after, f, segments + [s]) && SameOutside(before, after, WINDOW_START, WINDOW_END)
  {
    assert (segments + [s])[..|segments|] == segments;
    hide Copyable, Placeable, SegmentByte;
  }

  lemma SkippedShows(m: seq<Byte>, f: seq<Byte>, segments: seq<Segment>, s: Segment)
    requires WindowShows(m, f, segments) && !s.Loads()
    ensures WindowShows(m, f, segments + [s])
  {
    assert (segments + [s])[..|segments|] == segments;
  }

  lemma ClearedShows(m: seq<Byte>, f: seq<Byte>)
    requires WINDOW_END <= |m| && forall a :: WINDOW_START <= a < WINDOW_END ==> m[a] == 0
    ensures WindowShows(m, f, [])
  {}

  /** The loader clears the window before it places anything. */
  method ClearWindow(mem: array<Byte>, image: nat, ghost f: seq<Byte>)
    requires Holds(mem[..], image, f)
    modifies mem
    ensures Holds(mem[..], image, f) && SameOutside(old(mem[..]), mem[..], WINDOW_START, WINDOW_END)
    ensures WindowShows(mem[..], f, [])
  {
    MemorySet(mem, WINDOW_START, 0, WINDOW_END - WINDOW_START);
    HoldsStill(old(mem[..]), mem[..], image, f);
    ClearedShows(mem[..], f);
  }

  lemma AdmitsAll(f: seq<Byte>, segments: seq<Segment>)
    ensures FirstRefused(f, segments, 0) == |segments| <==> forall s :: s in segments && s.Loads() ==> Admissible(f, s)
  {
    if FirstRefused(f, segments, 0) < |segments| {
      assert segments[FirstRefused(f, segments, 0)] in segments;
    }
  }

  /** runtime_load_segments. The segments before the first refused one are in place even when
      it fails. */
  method LoadSegments(mem: array<Byte>, image: nat, size: nat, ghost f: seq<Byte>) returns (ok: bool)
    requires Holds(mem[..], image, f) && size == |f|
    requires ValidElf(f) && Conforming(f) && TableInFile(f)
    modifies mem
    ensures ok <==> forall s :: s in Segments(f) && s.Loads() ==> Admissible(f, s)
    ensures ok <==> FirstRefused(f, Segments(f), 0) == |Segments(f)|
    ensures SameOutside(old(mem[..]), mem[..], WINDOW_START, WINDOW_END)
    ensures WindowShows(mem[..], f, Segments(f)[..FirstRefused(f, Segments(f), 0)])
  {
    hide Load, WindowShows, Holds, SameOutside, Copyable, Conforming, ValidElf, Admissible;
    ghost var start, segments := mem[..], Segments(f);
    var offset := ReadField(mem, image, 32, 8, f);
    var count := ReadField(mem, image, 56, 2, f);
    ClearWindow(mem, image, f);
    AdmitsAll(f, segments);
    var index := 0;
    while index < count
      invariant index <= count && index <= FirstRefused(f, segments, 0)
      invariant Holds(mem[..], image, f) && SameOutside(start, mem[..], WINDOW_START, WINDOW_END)
      invariant WindowShows(mem[..], f, segments[..index])
    {
      var s := ReadSegment(mem, image, offset + 56 * index, f);
      assert s == segments[index] && segments[..index] + [s] == segments[..index + 1];
      PrefixCopyable(f, index);
      ghost var before := mem[..];
      ok := LoadSegment(mem, image, size, f, segments[..index], s);
      SameOutsideTwice(start, before, mem[..], WINDOW_START, WINDOW_END);
      if !ok {
        return false;
      }
      index := index + 1;
    }
    return true;
  }

  // ---------- What a loaded window holds, byte by byte ----------

  /** Byte k of a segment that no later one covers is byte k of its part of the file, and zero
      beyond that part. */
  lemma SegmentInWindow(m: seq<Byte>, f: seq<Byte>, segments: seq<Segment>, i: nat, k: nat)
    requires WindowShows(m, f, segments) && i < |segments|
    requires segments[i].kind == 1 && k < segments[i].memorySize
    requires forall j :: i < j < |segments| ==> !segments[j].Covers(segments[i].vaddr + k)
    ensures
      var s := segments[i];
      && s.vaddr + k < |m| && s.offset + s.fileSize <= |f|
      && m[s.vaddr + k] == if k < s.fileSize then f[s.offset + k] else 0
  {
    assert segments[i] in segments;
    LastCoveringDecides(f, segments, i, segments[i].vaddr + k);
  }

  /** A segment that ends exactly at the end of the file, or of the window, is not refused; one
      byte more is. */
  lemma ExactFit(f: seq<Byte>, offset: nat, fileSize: nat, vaddr: nat, memorySize: nat)
    requires offset + fileSize < WORD_LIMIT && vaddr + memorySize < WORD_LIMIT
    requires offset + fileSize == |f| || offset + fileSize == |f| + 1
    requires vaddr + memorySize == 0x80_0000 || vaddr + memorySize == 0x80_0001
    requires vaddr == 0x40_0000 || vaddr == 0x3F_FFFF
    ensures
      Admissible(f, Segment(1, offset, vaddr, fileSize, memorySize))
      <==> offset + fileSize == |f| && vaddr + memorySize == 0x80_0000 && vaddr == 0x40_0000
  {}
}
