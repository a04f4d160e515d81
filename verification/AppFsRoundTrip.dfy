/** What mkappfs packs, the kernel's reader finds again. */
module AppFsRoundTrip {
  import opened Bytes
  import opened Strings
  import opened AppFsImage
  import opened AppFs

  /** The padded image of the files lies in memory at base. */
  ghost predicate Loaded(m: seq<Byte>, base: nat, files: seq<File>) {
    base + |OnDisk(Image(files))| <= |m| && m[base..base + |OnDisk(Image(files))|] == OnDisk(Image(files))
  }

  /** Names come from a command line: no terminators inside. */
  ghost predicate Named(files: seq<File>) {
    forall i :: 0 <= i < |files| ==> NoNul(files[i].name)
  }

  /** A part of the image keeps its bytes in memory. */
  lemma PartLoaded(m: seq<Byte>, base: nat, files: seq<File>, at: nat, part: seq<Byte>)
    requires Loaded(m, base, files)
    requires at + |part| <= |Image(files)| && Image(files)[at..at + |part|] == part
    ensures base + at + |part| <= |m| && m[base + at..base + at + |part|] == part
  {
    hide Image, OnDisk;
    var d := OnDisk(Image(files));
    assert d[at..at + |part|] == part;
    SliceOfSlice(m, base, base + |d|, at, at + |part|);
  }

  /** A 32-bit field of a structure that lies in memory. */
  lemma FieldLoaded(m: seq<Byte>, at: nat, part: seq<Byte>, field: nat, v: Word32)
    requires at + |part| <= |m| && m[at..at + |part|] == part
    requires field + 4 <= |part| && part[field..field + 4] == Little(v, 4)
    ensures Field32(m, at + field) == v
  {
    WidthsOfWords();
    NumberOfLittle(v, 4);
    SliceOfSlice(m, at, at + |part|, field, field + 4);
  }

  /** A header with any field values. */
  function AnyHeader(magic: seq<Byte>, version: nat, count: nat, headerSize: nat, imageSize: nat): seq<Byte> {
    magic + Little(version, 4) + Little(count, 4) + Little(headerSize, 4) + Little(imageSize, 4)
  }

  lemma HeaderLayout(magic: seq<Byte>, version: nat, count: nat, headerSize: nat, imageSize: nat)
    requires |magic| == 8
    ensures
      var b := AnyHeader(magic, version, count, headerSize, imageSize);
      && |b| == 24 && b[0..8] == magic && b[8..12] == Little(version, 4) && b[12..16] == Little(count, 4)
      && b[16..20] == Little(headerSize, 4) && b[20..24] == Little(imageSize, 4)
  {
    hide Little;
  }

  lemma PackedHeader(count: nat, headerSize: nat, imageSize: nat)
    ensures HeaderBytes(count, headerSize, imageSize) == AnyHeader(MAGIC, 1, count, headerSize, imageSize)
  {}

  lemma EntryLayout(e: Entry)
    requires |e.name| == NAME_BYTES
    ensures
      var b := EntryBytes(e);
      b[0..32] == e.name && b[32..36] == Little(e.offset, 4) && b[36..40] == Little(e.size, 4)
  {
    hide Little;
  }

  lemma HeaderInImage(files: seq<File>)
    ensures HEADER_BYTES <= |Image(files)|
    ensures
      var n := |files|;
      Image(files)[0..HEADER_BYTES]
      == HeaderBytes(Wrap32(n), Wrap32(HeaderSize(n)), Wrap32(HeaderSize(n) + DataBefore(files, n)))
  {
    hide HeaderBytes, Entries, Payloads, Wrap32;
    var n := |files|;
    var header := HeaderBytes(Wrap32(n), Wrap32(HeaderSize(n)), Wrap32(HeaderSize(n) + DataBefore(files, n)));
    SliceFront(Front(files), Payloads(files, n), 0, HEADER_BYTES);
    SliceFront(header, Entries(files, n), 0, HEADER_BYTES);
  }

  lemma HeaderUnwrapped(files: seq<File>)
    requires Fits(files)
    ensures
      var n, size := |files|, |Image(files)|;
      && Wrap32(n) == n && Wrap32(HeaderSize(n)) == HeaderSize(n) && Wrap32(HeaderSize(n) + DataBefore(files, n)) == size
      && SectorCount(size) < 0x1_0000_0000 && size <= Wrap32(SectorCount(size) * 512)
  {
    hide Front, Payloads;
    var size := HeaderSize(|files|) + DataBefore(files, |files|);
    assert size <= SectorCount(size) * 512 < 0x1_0000_0000;
  }

  /** The packed image passes appfs_validate, with its own entry count and size. */
  lemma HeaderReads(m: seq<Byte>, base: nat, files: seq<File>)
    requires Fits(files) && Loaded(m, base, files)
    ensures base + HEADER_BYTES <= |m|
    ensures SectorCount(|Image(files)|) < 0x1_0000_0000 && ValidHeader(m, base, SectorCount(|Image(files)|))
    ensures EntryCountAt(m, base) == |files|
    ensures ImageSizeAt(m, base) == |Image(files)|
  {
    hide Field32, HeaderBytes, Image, OnDisk, Little, DataBefore, HeaderSize, Wrap32, SectorCount, Fits;
    HeaderUnwrapped(files);
    var n, size := |files|, |Image(files)|;
    var header := HeaderBytes(n, HeaderSize(n), size);
    HeaderInImage(files);
    HeaderLayout(MAGIC, 1, n, HeaderSize(n), size);
    PackedHeader(n, HeaderSize(n), size);
    PartLoaded(m, base, files, 0, header);
    FieldLoaded(m, base, header, 8, 1);
    FieldLoaded(m, base, header, 12, n);
    FieldLoaded(m, base, header, 16, HeaderSize(n));
    FieldLoaded(m, base, header, 20, size);
    SliceOfSlice(m, base, base + |header|, 0, 8);
  }

  lemma EntryUnwrapped(files: seq<File>, i: nat)
    requires Fits(files) && i < |files|
    ensures PayloadAt(files, i) < 0x1_0000_0000 && |files[i].data| < 0x1_0000_0000
    ensures EntryOf(files, i) == Entry(NameField(files[i].name), PayloadAt(files, i), |files[i].data|, 0)
  {
    hide NameField, Image, Payloads;
    PayloadLies(files, |files|, i);
  }

  /** The bytes of entry i lie in memory. */
  lemma EntryLoaded(m: seq<Byte>, base: nat, files: seq<File>, i: nat)
    requires Loaded(m, base, files) && i < |files|
    ensures EntryAddress(base, i) + ENTRY_BYTES <= |m|
    ensures m[EntryAddress(base, i)..EntryAddress(base, i) + ENTRY_BYTES] == EntryBytes(EntryOf(files, i))
  {
    hide EntryBytes, EntryOf, Image, OnDisk, Loaded;
    EntryInImage(files, i);
    PartLoaded(m, base, files, HeaderSize(i), EntryBytes(EntryOf(files, i)));
  }

  /** The fields of an entry that lies in memory. */
  lemma EntryFields(m: seq<Byte>, at: nat, e: Entry)
    requires |e.name| == NAME_BYTES && e.offset < 0x1_0000_0000 && e.size < 0x1_0000_0000
    requires at + ENTRY_BYTES <= |m| && m[at..at + ENTRY_BYTES] == EntryBytes(e)
    ensures m[at..at + NAME_BYTES] == e.name
    ensures Field32(m, at + 32) == e.offset && Field32(m, at + 36) == e.size
  {
    hide Field32, EntryBytes, Little;
    EntryLayout(e);
    FieldLoaded(m, at, EntryBytes(e), 32, e.offset);
    FieldLoaded(m, at, EntryBytes(e), 36, e.size);
    SliceOfSlice(m, at, at + ENTRY_BYTES, 0, NAME_BYTES);
  }

  /** Entry i reads back as the truncated name and the extent of payload i. */
  lemma EntryReads(m: seq<Byte>, base: nat, files: seq<File>, i: nat)
    requires Fits(files) && Loaded(m, base, files) && i < |files|
    ensures EntryAddress(base, i) + ENTRY_BYTES <= |m|
    ensures m[EntryAddress(base, i)..EntryAddress(base, i) + NAME_BYTES] == NameField(files[i].name)
    ensures Field32(m, EntryAddress(base, i) + 32) == PayloadAt(files, i)
    ensures Field32(m, EntryAddress(base, i) + 36) == |files[i].data|
  {
    hide Field32, EntryAddress, EntryBytes, EntryOf, NameField, Loaded, PayloadAt, Fits;
    EntryUnwrapped(files, i);
    EntryLoaded(m, base, files, i);
    EntryFields(m, EntryAddress(base, i), EntryOf(files, i));
  }

  /** The string in a name field is the truncated name and no other. */
  lemma NameReads(m: seq<Byte>, at: nat, name: seq<Byte>, s: seq<Byte>)
    requires at + NAME_BYTES <= |m| && m[at..at + NAME_BYTES] == NameField(name)
    requires NoNul(name) && NoNul(s)
    ensures IsString(m, at, s) <==> s == Truncated(name)
    ensures Terminated(m, at, at + NAME_BYTES)
  {
    var t := Truncated(name);
    var f := NameField(name);
    SliceOfSlice(m, at, at + NAME_BYTES, 0, |t|);
    assert f[..|t|] == t && f[|t|] == 0 && m[at + |t|] == f[|t|];
    StringEnd(m, at, t);
    if IsString(m, at, s) {
      StringEnd(m, at, s);
    }
  }

  /** The first file from i on whose truncated name is s; |files| when there is none. */
  function FirstNamed(files: seq<File>, s: seq<Byte>, i: nat): (k: nat)
    requires i <= |files|
    ensures i <= k <= |files|
    ensures k < |files| ==> Truncated(files[k].name) == s
    ensures forall j :: i <= j < k ==> Truncated(files[j].name) != s
    decreases |files| - i
  {
    if i == |files| || Truncated(files[i].name) == s then i else FirstNamed(files, s, i + 1)
  }

  lemma {:induction false} FindReads(m: seq<Byte>, base: nat, files: seq<File>, s: seq<Byte>, i: nat)
    requires Fits(files) && Named(files) && NoNul(s) && Loaded(m, base, files) && i <= |files|
    ensures
      var k := FirstNamed(files, s, i);
      FindFrom(m, base, |files|, s, i) == if k == |files| then 0 else EntryAddress(base, k)
    decreases |files| - i
  {
    hide Field32, NameField, IsString, Image, OnDisk, HeaderSize;
    if i < |files| {
      EntryReads(m, base, files, i);
      NameReads(m, EntryAddress(base, i), files[i].name, s);
      FindReads(m, base, files, s, i + 1);
    }
  }

  /** Pack, pad, load, look up: for any files whose sizes fit 32 bits, the reader accepts the
      image, and finds under each name exactly the bytes of the first file packed under it
      after truncation, or nothing if there is none. */
  lemma RoundTrip(m: seq<Byte>, base: nat, files: seq<File>, s: seq<Byte>)
    requires Fits(files) && Named(files) && NoNul(s) && Loaded(m, base, files) && 0 < base
    ensures base + HEADER_BYTES <= |m|
    ensures SectorCount(|Image(files)|) < 0x1_0000_0000 && ValidHeader(m, base, SectorCount(|Image(files)|))
    ensures TableReadable(m, base, base + |OnDisk(Image(files))|)
    ensures
      var k := FirstNamed(files, s, 0);
      LookUp(m, base, SectorCount(|Image(files)|), base + |OnDisk(Image(files))|, s)
      == if k == |files| then None else Some(files[k].data)
  {
    hide Field32, ValidHeader, TableReadable, EntryCountAt, DataOf, Image, OnDisk;
    HeaderReads(m, base, files);
    TableReads(m, base, files);
    FindReads(m, base, files, s, 0);
    var k := FirstNamed(files, s, 0);
    if k < |files| {
      DataReads(m, base, files, k);
    }
  }

  lemma DataReads(m: seq<Byte>, base: nat, files: seq<File>, k: nat)
    requires Fits(files) && Named(files) && Loaded(m, base, files) && k < |files|
    ensures base + HEADER_BYTES <= |m|
    ensures EntryAddress(base, k) + ENTRY_BYTES <= |m|
    ensures Field32(m, EntryAddress(base, k) + 36) == |files[k].data|
    ensures
      var data := DataOf(m, base, EntryAddress(base, k));
      && data == base + PayloadAt(files, k) && data + |files[k].data| <= |m|
      && m[data..data + |files[k].data|] == files[k].data
  {
    hide Field32, ValidHeader, EntryCountAt, ImageSizeAt, NameField, Image, OnDisk;
    HeaderReads(m, base, files);
    EntryReads(m, base, files, k);
    PayloadInImage(files, k);
    PartLoaded(m, base, files, PayloadAt(files, k), files[k].data);
  }

  lemma TableReads(m: seq<Byte>, base: nat, files: seq<File>)
    requires Fits(files) && Named(files) && Loaded(m, base, files)
    ensures base + HEADER_BYTES <= |m| && TableReadable(m, base, base + |OnDisk(Image(files))|)
  {
    hide Field32, NameField, Front, Payloads;
    HeaderReads(m, base, files);
    forall i | 0 <= i < |files|
      ensures EntryAddress(base, i) + ENTRY_BYTES <= base + |Image(files)|
      ensures Terminated(m, EntryAddress(base, i), base + |OnDisk(Image(files))|)
      ensures Field32(m, EntryAddress(base, i) + 32) + Field32(m, EntryAddress(base, i) + 36) < 0x1_0000_0000
    {
      EntryReads(m, base, files, i);
      NameReads(m, EntryAddress(base, i), files[i].name, []);
      PayloadInImage(files, i);
    }
  }

  /** Looking a file up under the name it was packed with finds its own payload exactly when
      the name was short enough to be stored and no earlier file was stored under it. */
  lemma FoundUnderOwnName(m: seq<Byte>, base: nat, files: seq<File>, i: nat)
    requires Fits(files) && Named(files) && Loaded(m, base, files) && i < |files|
    ensures
      base + HEADER_BYTES <= |m| &&
      (FindFrom(m, base, EntryCountAt(m, base), files[i].name, 0) == EntryAddress(base, i)
       <==> |files[i].name| <= 31 && forall j :: 0 <= j < i ==> Truncated(files[j].name) != files[i].name)
  {
    hide Field32, FindFrom, ValidHeader, Image, OnDisk;
    var k := FirstNamed(files, files[i].name, 0);
    HeaderReads(m, base, files);
    FindReads(m, base, files, files[i].name, 0);
    assert k < |files| ==> (EntryAddress(base, k) == EntryAddress(base, i) <==> k == i);
  }

  /** A single app packed under 32 A's is not found under that name. */
  lemma LongNameIsLost(m: seq<Byte>, base: nat, data: seq<Byte>)
    requires Fits([File(As(32), data)]) && Loaded(m, base, [File(As(32), data)])
    ensures base + HEADER_BYTES <= |m| && FindFrom(m, base, EntryCountAt(m, base), As(32), 0) == 0
  {
    hide Field32, FindFrom, ValidHeader, Image, OnDisk;
    var files := [File(As(32), data)];
    HeaderReads(m, base, files);
    FindReads(m, base, files, As(32), 0);
  }

  function As(n: nat): (name: seq<Byte>)
    ensures |name| == n && NoNul(name)
  {
    seq(n, _ => 65)
  }

  // ---------- What the reader refuses ----------

  /** Of all headers, exactly those with the magic, version 1, a size that covers the table,
      and an image size within the sectors read are accepted. */
  lemma HeaderJudged(m: seq<Byte>, base: nat, magic: seq<Byte>, version: Word32, count: Word32, headerSize: Word32,
                     imageSize: Word32, sectors: Word32)
    requires |magic| == 8 && base + 24 <= |m|
    requires m[base..base + 24] == AnyHeader(magic, version, count, headerSize, imageSize)
    ensures
      ValidHeader(m, base, sectors)
      <==> && magic == [83, 65, 80, 80, 70, 83, 49, 0] && version == 1
           && 24 + 44 * count <= headerSize && imageSize <= (512 * sectors) % 0x1_0000_0000
  {
    hide Field32, AnyHeader;
    HeaderLayout(magic, version, count, headerSize, imageSize);
    var header := AnyHeader(magic, version, count, headerSize, imageSize);
    FieldLoaded(m, base, header, 8, version);
    FieldLoaded(m, base, header, 12, count);
    FieldLoaded(m, base, header, 16, headerSize);
    FieldLoaded(m, base, header, 20, imageSize);
    SliceOfSlice(m, base, base + 24, 0, 8);
  }

  /** A packed image whose magic or version was overwritten is refused. */
  lemma TamperedRefused(m: seq<Byte>, base: nat, files: seq<File>, magic: seq<Byte>, version: Word32)
    requires Fits(files) && |magic| == 8 && base + |Image(files)| <= |m|
    requires m[base..base + |Image(files)|] == magic + Little(version, 4) + Image(files)[12..]
    ensures
      base + 24 <= |m| && SectorCount(|Image(files)|) < 0x1_0000_0000 &&
      (ValidHeader(m, base, SectorCount(|Image(files)|)) <==> magic == MAGIC && version == 1)
  {
    hide Little, Image, ValidHeader, AnyHeader, HeaderBytes;
    HeaderInImage(files);
    HeaderUnwrapped(files);
    var n, size := |files|, |Image(files)|;
    PackedHeader(n, HeaderSize(n), size);
    OtherStart(magic, version, n, HeaderSize(n), size);
    assert Image(files)[12..][..12] == Image(files)[0..24][12..];
    assert m[base..base + 24] == m[base..base + size][..24];
    HeaderJudged(m, base, magic, version, n, HeaderSize(n), size, SectorCount(size));
  }

  lemma OtherStart(magic: seq<Byte>, version: nat, count: nat, headerSize: nat, imageSize: nat)
    requires |magic| == 8
    ensures |AnyHeader(MAGIC, 1, count, headerSize, imageSize)| == 24
    ensures AnyHeader(magic, version, count, headerSize, imageSize)
         == magic + Little(version, 4) + AnyHeader(MAGIC, 1, count, headerSize, imageSize)[12..]
  {
    hide Little;
  }

  /** Of all entries, exactly those whose 32-bit end lies within the image yield a pointer: the
      start of the image plus their offset. */
  lemma EntryJudged(m: seq<Byte>, base: nat, at: nat, e: Entry)
    requires |e.name| == NAME_BYTES && e.offset < 0x1_0000_0000 && e.size < 0x1_0000_0000
    requires base + 24 <= |m| && at + ENTRY_BYTES <= |m| && m[at..at + ENTRY_BYTES] == EntryBytes(e)
    ensures
      DataOf(m, base, at) ==
        if (e.offset + e.size) % 0x1_0000_0000 <= ImageSizeAt(m, base) then base + e.offset else 0
  {
    EntryFields(m, at, e);
    hide Field32, EntryBytes;
  }

  /** The smallest instance in full: one file of two bytes, packed under "A". */
  lemma SampleImage()
    ensures Image([File([65], [7, 8])]) ==
      [83, 65, 80, 80, 70, 83, 49, 0] + [1, 0, 0, 0] + [1, 0, 0, 0] + [68, 0, 0, 0] + [70, 0, 0, 0]
      + ([65] + Zeros(31)) + [68, 0, 0, 0] + [2, 0, 0, 0] + [0, 0, 0, 0] + [7, 8]
  {
    var files := [File([65], [7, 8])];
    LittleIsLittleEndian(0);
    LittleIsLittleEndian(1);
    LittleIsLittleEndian(2);
    LittleIsLittleEndian(68);
    LittleIsLittleEndian(70);
    hide Little;
    assert DataBefore(files, 1) == 2 && HeaderSize(1) == 68;
    assert Entries(files, 1) == [] + EntryBytes(EntryOf(files, 0));
    assert Payloads(files, 1) == [] + [7, 8];
  }
}
