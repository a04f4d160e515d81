/** ELF files as a linker writes them, and what the loader makes of their fields. The layout is
    that of the System V gABI: chapter 4, section "ELF Header", and chapter 5, section
    "Program Header". */
module ElfRoundTrip {
  import opened Bytes
  import opened FlatMemory
  import opened Elf

  // ---------- Fields ----------

  /** A little-endian field of a structure that lies in a file. */
  lemma FieldRead(f: seq<Byte>, at: nat, part: seq<Byte>, field: nat, width: nat, v: nat)
    requires at + |part| <= |f| && f[at..at + |part|] == part
    requires field + width <= |part| && part[field..field + width] == Little(v, width) && v < Pow256(width)
    ensures Load(f, at + field, width) == v
  {
    NumberOfLittle(v, width);
    SliceOfSlice(f, at, at + |part|, field, field + width);
  }

  lemma MagicBytes()
    ensures Little(0x464C457F, 4) == [0x7F, 0x45, 0x4C, 0x46]
  {
    LittleIsLittleEndian(0x464C457F);
    hide Little;
  }

  lemma MagicRead(f: seq<Byte>)
    requires 4 <= |f|
    ensures Load(f, 0, 4) == 0x464C457F <==> f[0..4] == [0x7F, 0x45, 0x4C, 0x46]
  {
    hide Little, Number;
    MagicBytes();
    LittleOfNumber(f[0..4]);
    WidthsOfWords();
    NumberOfLittle(0x464C457F, 4);
  }

  // ---------- The file header ----------

  datatype Header = Header(
    ident: seq<Byte>, kind: nat, machine: nat, version: nat, entryPoint: nat, phOffset: nat, shOffset: nat,
    flags: nat, headerSize: nat, phEntrySize: nat, phCount: nat, shEntrySize: nat, shCount: nat, shNames: nat)
  {
    predicate Fits() {
      && |ident| == 16 && kind < 0x1_0000 && machine < 0x1_0000
      && entryPoint < WORD_LIMIT && phOffset < WORD_LIMIT && phEntrySize < 0x1_0000 && phCount < 0x1_0000
    }
  }

  function FrontBytes(h: Header): seq<Byte> {
    h.ident + Little(h.kind, 2) + Little(h.machine, 2) + Little(h.version, 4)
  }

  function MiddleBytes(h: Header): (b: seq<Byte>)
    ensures |b| == 24
  {
    Little(h.entryPoint, 8) + Little(h.phOffset, 8) + Little(h.shOffset, 8)
  }

  function BackBytes(h: Header): (b: seq<Byte>)
    ensures |b| == 16
  {
    Little(h.flags, 4) + Little(h.headerSize, 2) + Little(h.phEntrySize, 2) + Little(h.phCount, 2)
    + Little(h.shEntrySize, 2) + Little(h.shCount, 2) + Little(h.shNames, 2)
  }

  function HeaderBytes(h: Header): (b: seq<Byte>)
    ensures |h.ident| == 16 ==> |b| == 64
  {
    FrontBytes(h) + MiddleBytes(h) + BackBytes(h)
  }

  lemma FrontLayout(h: Header)
    requires |h.ident| == 16
    ensures
      var b := FrontBytes(h);
      |b| == 24 && b[0..16] == h.ident && b[16..18] == Little(h.kind, 2) && b[18..20] == Little(h.machine, 2)
  {
    hide Little;
  }

  lemma MiddleLayout(h: Header)
    ensures MiddleBytes(h)[0..8] == Little(h.entryPoint, 8) && MiddleBytes(h)[8..16] == Little(h.phOffset, 8)
  {
    hide Little;
  }

  lemma BackLayout(h: Header)
    ensures BackBytes(h)[6..8] == Little(h.phEntrySize, 2) && BackBytes(h)[8..10] == Little(h.phCount, 2)
  {
    hide Little;
  }

  /** The three stretches of a header that starts a file. */
  lemma HeaderStretches(f: seq<Byte>, h: Header)
    requires |h.ident| == 16 && 64 <= |f| && f[0..64] == HeaderBytes(h)
    ensures |FrontBytes(h)| == 24
    ensures f[0..24] == FrontBytes(h) && f[24..48] == MiddleBytes(h) && f[48..64] == BackBytes(h)
  {
    FrontLayout(h);
    hide FrontBytes, MiddleBytes, BackBytes;
    SliceOfSlice(f, 0, 64, 0, 24);
    SliceOfSlice(f, 0, 64, 24, 48);
    SliceOfSlice(f, 0, 64, 48, 64);
  }

  lemma HeaderNumbers(f: seq<Byte>, h: Header)
    requires h.Fits() && 64 <= |f| && f[0..64] == HeaderBytes(h)
    ensures Load(f, 16, 2) == h.kind && Load(f, 18, 2) == h.machine
    ensures EntryPoint(f) == h.entryPoint && PhOffset(f) == h.phOffset
    ensures PhEntrySize(f) == h.phEntrySize && PhCount(f) == h.phCount
  {
    hide Load, FrontBytes, MiddleBytes, BackBytes, HeaderBytes;
    WidthsOfWords();
    HeaderStretches(f, h);
    FrontLayout(h);
    MiddleLayout(h);
    BackLayout(h);
    FieldRead(f, 0, FrontBytes(h), 16, 2, h.kind);
    FieldRead(f, 0, FrontBytes(h), 18, 2, h.machine);
    FieldRead(f, 24, MiddleBytes(h), 0, 8, h.entryPoint);
    FieldRead(f, 24, MiddleBytes(h), 8, 8, h.phOffset);
    FieldRead(f, 48, BackBytes(h), 6, 2, h.phEntrySize);
    FieldRead(f, 48, BackBytes(h), 8, 2, h.phCount);
  }

  lemma IdentRead(f: seq<Byte>, h: Header)
    requires |h.ident| == 16 && 64 <= |f| && f[0..64] == HeaderBytes(h)
    ensures f[0..4] == h.ident[0..4] && f[4] == h.ident[4] && f[5] == h.ident[5]
  {
    hide MiddleBytes, BackBytes, HeaderBytes;
    HeaderStretches(f, h);
    FrontLayout(h);
    SliceOfSlice(f, 0, 24, 0, 16);
    assert f[0..16] == h.ident;
  }

  /** The loader reads every header field it uses from where the format puts it, and accepts
      exactly the 64-bit little-endian x86-64 executables whose table ends within the file. */
  lemma HeaderJudged(f: seq<Byte>, h: Header)
    requires h.Fits() && 64 <= |f| && f[0..64] == HeaderBytes(h)
    ensures EntryPoint(f) == h.entryPoint && PhOffset(f) == h.phOffset
    ensures PhEntrySize(f) == h.phEntrySize && PhCount(f) == h.phCount
    ensures
      ValidElf(f)
      <==> && h.ident[0..4] == [0x7F, 0x45, 0x4C, 0x46] && h.ident[4] == 2 && h.ident[5] == 1
           && h.kind == 2 && h.machine == 62
           && (h.phOffset + h.phEntrySize * h.phCount) % 0x1_0000_0000_0000_0000 <= |f|
  {
    HeaderNumbers(f, h);
    IdentRead(f, h);
    MagicRead(f);
    hide Load, PhOffset, PhEntrySize, PhCount, EntryPoint, HeaderBytes;
  }

  // ---------- Program headers ----------

  function ProgramHeaderBytes(s: Segment, flags: nat, paddr: nat, align: nat): (b: seq<Byte>)
    ensures |b| == 56
  {
    Little(s.kind, 4) + Little(flags, 4) + Little(s.offset, 8) + Little(s.vaddr, 8) + Little(paddr, 8)
    + Little(s.fileSize, 8) + Little(s.memorySize, 8) + Little(align, 8)
  }

  predicate SegmentFits(s: Segment) {
    && s.kind < 0x1_0000_0000 && s.offset < WORD_LIMIT && s.vaddr < WORD_LIMIT
    && s.fileSize < WORD_LIMIT && s.memorySize < WORD_LIMIT
  }

  lemma ProgramHeaderLayout(s: Segment, flags: nat, paddr: nat, align: nat)
    ensures
      var b := ProgramHeaderBytes(s, flags, paddr, align);
      && b[0..4] == Little(s.kind, 4) && b[8..16] == Little(s.offset, 8) && b[16..24] == Little(s.vaddr, 8)
      && b[32..40] == Little(s.fileSize, 8) && b[40..48] == Little(s.memorySize, 8)
  {
    hide Little;
  }

  /** The loader reads a program header's fields from where the format puts them. */
  lemma SegmentRead(f: seq<Byte>, at: nat, s: Segment, flags: nat, paddr: nat, align: nat)
    requires SegmentFits(s) && at + 56 <= |f| && f[at..at + 56] == ProgramHeaderBytes(s, flags, paddr, align)
    ensures SegmentAt(f, at) == s
  {
    hide Load, ProgramHeaderBytes;
    WidthsOfWords();
    var b := ProgramHeaderBytes(s, flags, paddr, align);
    ProgramHeaderLayout(s, flags, paddr, align);
    FieldRead(f, at, b, 0, 4, s.kind);
    FieldRead(f, at, b, 8, 8, s.offset);
    FieldRead(f, at, b, 16, 8, s.vaddr);
    FieldRead(f, at, b, 32, 8, s.fileSize);
    FieldRead(f, at, b, 40, 8, s.memorySize);
  }

  // ---------- A whole file ----------

  /** What is to lie at an address: bytes, then zeros up to the given size. */
  datatype Part = Part(kind: Word32, vaddr: Word, data: seq<Byte>, memorySize: Word) {
    predicate Covers(a: int) {
      kind == 1 && vaddr <= a < vaddr + memorySize
    }
  }

  function DataBefore(parts: seq<Part>, i: nat): nat
    requires i <= |parts|
  {
    if i == 0 then 0 else DataBefore(parts, i - 1) + |parts[i - 1].data|
  }

  function OffsetOf(parts: seq<Part>, i: nat): nat
    requires i <= |parts|
  {
    64 + 56 * |parts| + DataBefore(parts, i)
  }

  function SegmentOf(parts: seq<Part>, i: nat): Segment
    requires i < |parts|
  {
    Segment(parts[i].kind, OffsetOf(parts, i), parts[i].vaddr, |parts[i].data|, parts[i].memorySize)
  }

  function Table(parts: seq<Part>, i: nat): (b: seq<Byte>)
    requires i <= |parts|
    ensures |b| == 56 * i
  {
    if i == 0 then [] else Table(parts, i - 1) + ProgramHeaderBytes(SegmentOf(parts, i - 1), 7, parts[i - 1].vaddr, 4096)
  }

  function Payloads(parts: seq<Part>, i: nat): (b: seq<Byte>)
    requires i <= |parts|
    ensures |b| == DataBefore(parts, i)
  {
    if i == 0 then [] else Payloads(parts, i - 1) + parts[i - 1].data
  }

  function HeaderOf(entryPoint: Word, count: nat): (h: Header)
    ensures |h.ident| == 16
  {
    Header([0x7F, 0x45, 0x4C, 0x46, 2, 1, 1, 0, 0, 0, 0, 0, 0, 0, 0, 0], 2, 62, 1, entryPoint, 64, 0, 0, 64, 56, count, 0, 0, 0)
  }

  function ElfFile(entryPoint: Word, parts: seq<Part>): (f: seq<Byte>)
    ensures |f| == OffsetOf(parts, |parts|)
  {
    HeaderBytes(HeaderOf(entryPoint, |parts|)) + Table(parts, |parts|) + Payloads(parts, |parts|)
  }

  /** The numbers of the file fit its fields, and no part has more bytes than memory. */
  ghost predicate Writable(parts: seq<Part>) {
    && |parts| < 0x1_0000 && OffsetOf(parts, |parts|) < WORD_LIMIT
    && forall i :: 0 <= i < |parts| ==> |parts[i].data| <= parts[i].memorySize && parts[i].vaddr + parts[i].memorySize < WORD_LIMIT
  }

  lemma {:induction false} EntryLies(parts: seq<Part>, n: nat, i: nat)
    requires i < n <= |parts|
    ensures Table(parts, n)[56 * i..56 * i + 56] == ProgramHeaderBytes(SegmentOf(parts, i), 7, parts[i].vaddr, 4096)
    decreases n
  {
    hide ProgramHeaderBytes, SegmentOf;
    var front, last := Table(parts, n - 1), ProgramHeaderBytes(SegmentOf(parts, n - 1), 7, parts[n - 1].vaddr, 4096);
    if i < n - 1 {
      EntryLies(parts, n - 1, i);
      SliceFront(front, last, 56 * i, 56 * i + 56);
    } else {
      SliceTail(front, last, 0, 56);
    }
  }

  lemma {:induction false} DataLies(parts: seq<Part>, n: nat, i: nat)
    requires i < n <= |parts|
    ensures DataBefore(parts, i) + |parts[i].data| <= DataBefore(parts, n)
    ensures Payloads(parts, n)[DataBefore(parts, i)..DataBefore(parts, i) + |parts[i].data|] == parts[i].data
    decreases n
  {
    var front, last := Payloads(parts, n - 1), parts[n - 1].data;
    if i < n - 1 {
      DataLies(parts, n - 1, i);
      SliceFront(front, last, DataBefore(parts, i), DataBefore(parts, i) + |parts[i].data|);
    } else {
      SliceTail(front, last, 0, |last|);
    }
  }

  lemma HeaderWritten(entryPoint: Word, parts: seq<Part>)
    requires Writable(parts)
    ensures
      var f := ElfFile(entryPoint, parts);
      && 64 <= |f| && ValidElf(f) && EntryPoint(f) == entryPoint
      && PhOffset(f) == 64 && PhEntrySize(f) == 56 && PhCount(f) == |parts|
  {
    hide HeaderBytes, Table, Payloads, ValidElf, EntryPoint, PhOffset, PhEntrySize, PhCount;
    var f, h := ElfFile(entryPoint, parts), HeaderOf(entryPoint, |parts|);
    assert f[0..64] == HeaderBytes(h);
    HeaderJudged(f, h);
  }

  lemma SegmentWritten(entryPoint: Word, parts: seq<Part>, i: nat)
    requires Writable(parts) && i < |parts|
    ensures
      var f, s := ElfFile(entryPoint, parts), SegmentOf(parts, i);
      && 64 + 56 * i + 56 <= |f| && SegmentAt(f, 64 + 56 * i) == s
      && s.offset + s.fileSize <= |f| && f[s.offset..s.offset + s.fileSize] == parts[i].data
  {
    hide HeaderBytes, Table, Payloads, ProgramHeaderBytes, SegmentAt, DataBefore;
    var n, header := |parts|, HeaderBytes(HeaderOf(entryPoint, |parts|));
    var f, s := ElfFile(entryPoint, parts), SegmentOf(parts, i);
    EntryLies(parts, n, i);
    SliceMiddle(header, Table(parts, n), Payloads(parts, n), 56 * i, 56 * i + 56);
    DataLies(parts, n, i);
    SliceTail(header + Table(parts, n), Payloads(parts, n), DataBefore(parts, i), DataBefore(parts, i) + |parts[i].data|);
    SegmentRead(f, 64 + 56 * i, s, 7, parts[i].vaddr, 4096);
  }

  lemma SegmentNumbers(parts: seq<Part>, i: nat)
    requires i < |parts|
    ensures
      var s := SegmentOf(parts, i);
      && s.kind == parts[i].kind && s.vaddr == parts[i].vaddr
      && s.fileSize == |parts[i].data| && s.memorySize == parts[i].memorySize
  {}

  lemma TableSegments(f: seq<Byte>, n: nat)
    requires 64 <= |f| && PhOffset(f) == 64 && PhCount(f) == n && 64 + 56 * n <= |f|
    ensures TableInFile(f) && |Segments(f)| == n
    ensures forall i :: 0 <= i < n ==> Segments(f)[i] == SegmentAt(f, 64 + 56 * i)
  {
    hide PhOffset, PhCount, SegmentAt;
  }

  lemma TableWritten(entryPoint: Word, parts: seq<Part>)
    requires Writable(parts)
    ensures
      var f := ElfFile(entryPoint, parts);
      && TableInFile(f) && |Segments(f)| == |parts|
      && forall i :: 0 <= i < |parts| ==> Segments(f)[i] == SegmentOf(parts, i)
  {
    var f := ElfFile(entryPoint, parts);
    HeaderWritten(entryPoint, parts);
    hide ElfFile, Writable, Segments, ValidElf, TableInFile, EntryPoint, PhOffset, PhEntrySize, PhCount;
    hide SegmentAt, SegmentOf, DataBefore;
    TableSegments(f, |parts|);
    forall i | 0 <= i < |parts| ensures Segments(f)[i] == SegmentOf(parts, i) {
      SegmentWritten(entryPoint, parts, i);
    }
  }

  lemma PartConforms(entryPoint: Word, parts: seq<Part>, i: nat)
    requires Writable(parts) && i < |parts|
    ensures
      var s := SegmentOf(parts, i);
      s.fileSize <= s.memorySize && s.offset + s.fileSize < WORD_LIMIT && s.vaddr + s.memorySize < WORD_LIMIT
  {
    SegmentWritten(entryPoint, parts, i);
    hide ElfFile, DataBefore;
  }

  /** The loader sees in a written file the segments that were written, and takes nothing about
      it for granted that does not hold. */
  lemma SegmentsWritten(entryPoint: Word, parts: seq<Part>)
    requires Writable(parts)
    ensures
      var f := ElfFile(entryPoint, parts);
      && ValidElf(f) && TableInFile(f) && Conforming(f) && EntryPoint(f) == entryPoint
      && |Segments(f)| == |parts| && forall i :: 0 <= i < |parts| ==> Segments(f)[i] == SegmentOf(parts, i)
  {
    var f := ElfFile(entryPoint, parts);
    HeaderWritten(entryPoint, parts);
    TableWritten(entryPoint, parts);
    hide ElfFile, Writable, ValidElf, EntryPoint, PhOffset, PhEntrySize, PhCount, Segments, SegmentOf;
    forall s | s in Segments(f) && s.Loads()
      ensures s.fileSize <= s.memorySize && s.offset + s.fileSize < WORD_LIMIT && s.vaddr + s.memorySize < WORD_LIMIT
    {
      var i :| 0 <= i < |Segments(f)| && Segments(f)[i] == s;
      PartConforms(entryPoint, parts, i);
    }
  }

  /** A part that is to be loaded lies in the app window. */
  predicate InWindow(p: Part) {
    p.kind == 1 && p.memorySize != 0 ==> 0x40_0000 <= p.vaddr && p.vaddr + p.memorySize <= 0x80_0000
  }

  lemma AllAdmitted(f: seq<Byte>, segments: seq<Segment>, parts: seq<Part>)
    requires |segments| == |parts|
    requires forall i :: 0 <= i < |parts| ==> ((segments[i].Loads() ==> Admissible(f, segments[i])) <==> InWindow(parts[i]))
    ensures (forall s :: s in segments && s.Loads() ==> Admissible(f, s)) <==> forall i :: 0 <= i < |parts| ==> InWindow(parts[i])
  {
    hide Admissible, InWindow;
    assert forall i :: 0 <= i < |parts| ==> segments[i] in segments;
  }

  /** The loader accepts a written file exactly when all parts to be loaded lie in the window. */
  lemma AcceptedIffInWindow(entryPoint: Word, parts: seq<Part>)
    requires Writable(parts)
    ensures
      var f := ElfFile(entryPoint, parts);
      && TableInFile(f)
      && ((forall s :: s in Segments(f) && s.Loads() ==> Admissible(f, s))
          <==> forall i :: 0 <= i < |parts| ==> InWindow(parts[i]))
  {
    var f := ElfFile(entryPoint, parts);
    TableWritten(entryPoint, parts);
    hide ElfFile, Writable, Segments, TableInFile, Admissible, SegmentOf, InWindow;
    forall i | 0 <= i < |parts| ensures (Segments(f)[i].Loads() ==> Admissible(f, Segments(f)[i])) <==> InWindow(parts[i]) {
      PartAdmitted(entryPoint, parts, i);
    }
    AllAdmitted(f, Segments(f), parts);
  }

  lemma PartAdmitted(entryPoint: Word, parts: seq<Part>, i: nat)
    requires Writable(parts) && i < |parts|
    ensures
      var f, s := ElfFile(entryPoint, parts), SegmentOf(parts, i);
      (s.Loads() ==> Admissible(f, s)) <==> InWindow(parts[i])
  {
    SegmentWritten(entryPoint, parts, i);
    hide ElfFile, DataBefore;
  }

  /** And then the window holds every part: byte k of its data, zeros behind the data, unless a
      later part lies there too. */
  lemma PartsInWindow(m: seq<Byte>, entryPoint: Word, parts: seq<Part>, i: nat, k: nat)
    requires Writable(parts) && i < |parts| && parts[i].kind == 1 && k < parts[i].memorySize
    requires forall j :: i < j < |parts| ==> !parts[j].Covers(parts[i].vaddr + k)
    requires TableInFile(ElfFile(entryPoint, parts))
    requires WindowShows(m, ElfFile(entryPoint, parts), Segments(ElfFile(entryPoint, parts)))
    ensures parts[i].vaddr + k < |m|
    ensures m[parts[i].vaddr + k] == if k < |parts[i].data| then parts[i].data[k] else 0
  {
    TableWritten(entryPoint, parts);
    SegmentWritten(entryPoint, parts, i);
    hide ElfFile, Writable, Segments, TableInFile, WindowShows, SegmentAt, SegmentOf, DataBefore;
    PartShown(m, ElfFile(entryPoint, parts), Segments(ElfFile(entryPoint, parts)), parts, i, k);
  }

  lemma PartShown(m: seq<Byte>, f: seq<Byte>, segments: seq<Segment>, parts: seq<Part>, i: nat, k: nat)
    requires i < |parts| && parts[i].kind == 1 && k < parts[i].memorySize
    requires forall j :: i < j < |parts| ==> !parts[j].Covers(parts[i].vaddr + k)
    requires |segments| == |parts| && forall j :: 0 <= j < |parts| ==> segments[j] == SegmentOf(parts, j)
    requires segments[i].offset + segments[i].fileSize <= |f|
    requires f[segments[i].offset..segments[i].offset + segments[i].fileSize] == parts[i].data
    requires WindowShows(m, f, segments)
    ensures parts[i].vaddr + k < |m|
    ensures m[parts[i].vaddr + k] == if k < |parts[i].data| then parts[i].data[k] else 0
  {
    hide WindowShows, SegmentOf;
    SegmentNumbers(parts, i);
    var s := segments[i];
    forall j | i < j < |segments| ensures !segments[j].Covers(s.vaddr + k) {
      SegmentNumbers(parts, j);
    }
    SegmentInWindow(m, f, segments, i, k);
    assert k < s.fileSize ==> f[s.offset..s.offset + s.fileSize][k] == f[s.offset + k];
  }
}
