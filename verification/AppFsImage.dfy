/** The AppFS image format as tools/mkappfs.c writes it. */
module AppFsImage {
  import opened Bytes

  const HEADER_BYTES: nat := 24
  const ENTRY_BYTES: nat := 44
  const NAME_BYTES: nat := 32
  const MAGIC: seq<Byte> := [83, 65, 80, 80, 70, 83, 49, 0] // "SAPPFS1\0"

  /** A NAME FILE pair of the command line. */
  datatype File = File(name: seq<Byte>, data: seq<Byte>)

  datatype Entry = Entry(name: seq<Byte>, offset: nat, size: nat, reserved: nat)

  function Zeros(n: nat): (z: seq<Byte>)
    ensures |z| == n && forall i :: 0 <= i < n ==> z[i] == 0
  {
    seq(n, _ => 0)
  }

  /** What is left of a name in the 32-byte field: at most 31 bytes. */
  function Truncated(name: seq<Byte>): (t: seq<Byte>)
    ensures |t| < NAME_BYTES
  {
    if |name| < NAME_BYTES then name else name[..NAME_BYTES - 1]
  }

  function NameField(name: seq<Byte>): (f: seq<Byte>)
    ensures |f| == NAME_BYTES
  {
    Truncated(name) + Zeros(NAME_BYTES - |Truncated(name)|)
  }

  function EntryBytes(e: Entry): (b: seq<Byte>)
    requires |e.name| == NAME_BYTES
    ensures |b| == ENTRY_BYTES
  {
    e.name + Little(e.offset, 4) + Little(e.size, 4) + Little(e.reserved, 4)
  }

  function HeaderBytes(count: nat, headerSize: nat, imageSize: nat): (b: seq<Byte>)
    ensures |b| == HEADER_BYTES
  {
    MAGIC + Little(1, 4) + Little(count, 4) + Little(headerSize, 4) + Little(imageSize, 4)
  }

  function HeaderSize(count: nat): nat {
    24 + 44 * count
  }

  /** The payload bytes of the first i files. */
  function DataBefore(files: seq<File>, i: nat): nat
    requires i <= |files|
  {
    if i == 0 then 0 else DataBefore(files, i - 1) + |files[i - 1].data|
  }

  function EntryOf(files: seq<File>, i: nat): (e: Entry)
    requires i < |files|
    ensures |e.name| == NAME_BYTES
  {
    Entry(NameField(files[i].name), Wrap32(HeaderSize(|files|) + DataBefore(files, i)), Wrap32(|files[i].data|), 0)
  }

  function Entries(files: seq<File>, i: nat): (b: seq<Byte>)
    requires i <= |files|
    ensures |b| == 44 * i
  {
    if i == 0 then [] else Entries(files, i - 1) + EntryBytes(EntryOf(files, i - 1))
  }

  function Payloads(files: seq<File>, i: nat): (b: seq<Byte>)
    requires i <= |files|
    ensures |b| == DataBefore(files, i)
  {
    if i == 0 then [] else Payloads(files, i - 1) + files[i - 1].data
  }

  /** Header and entry table. */
  function Front(files: seq<File>): (b: seq<Byte>)
    ensures |b| == HeaderSize(|files|)
  {
    var n := |files|;
    HeaderBytes(Wrap32(n), Wrap32(HeaderSize(n)), Wrap32(HeaderSize(n) + DataBefore(files, n))) + Entries(files, n)
  }

  function Image(files: seq<File>): (b: seq<Byte>)
    ensures |b| == HeaderSize(|files|) + DataBefore(files, |files|)
  {
    Front(files) + Payloads(files, |files|)
  }

  /** The layout loop of mkappfs, with its 32-bit running offset. */
  method LayOut(files: seq<File>) returns (entries: array<Entry>, imageSize: nat)
    ensures entries.Length == |files| && forall j :: 0 <= j < |files| ==> entries[j] == EntryOf(files, j)
    ensures imageSize == Wrap32(HeaderSize(|files|) + DataBefore(files, |files|))
  {
    hide Wrap32, NameField, Zeros;
    entries := new Entry[|files|](_ => Entry(Zeros(NAME_BYTES), 0, 0, 0));
    var runningOffset := Wrap32(HeaderSize(|files|));
    for index := 0 to |files|
      invariant runningOffset == Wrap32(HeaderSize(|files|) + DataBefore(files, index))
      invariant forall j :: 0 <= j < index ==> entries[j] == EntryOf(files, j)
    {
      entries[index] := Entry(NameField(files[index].name), runningOffset, Wrap32(|files[index].data|), 0);
      Wrap32Sum(HeaderSize(|files|) + DataBefore(files, index), |files[index].data|);
      runningOffset := Wrap32(runningOffset + Wrap32(|files[index].data|));
    }
    imageSize := runningOffset;
  }

  /** The whole of mkappfs: lay the files out, then write header, table and payloads. */
  method Pack(files: seq<File>) returns (output: seq<Byte>)
    ensures output == Image(files)
  {
    hide Wrap32, EntryBytes, HeaderBytes, EntryOf, HeaderSize;
    var entries, imageSize := LayOut(files);
    output := HeaderBytes(Wrap32(|files|), Wrap32(HeaderSize(|files|)), imageSize);
    ghost var header := output;
    for index := 0 to |files|
      invariant output == header + Entries(files, index)
    {
      output := output + EntryBytes(entries[index]);
    }
    assert output == Front(files);
    for index := 0 to |files|
      invariant output == Front(files) + Payloads(files, index)
    {
      output := output + files[index].data;
    }
  }

  // ---------- Sectors ----------

  function SectorCount(size: nat): nat {
    (size + 511) / 512
  }

  /** As few sectors as hold the image. */
  lemma FewestSectors(size: nat)
    ensures size <= SectorCount(size) * 512 < size + 512
  {}

  /** The image as it lies on disk: zero-padded to whole sectors. */
  function OnDisk(image: seq<Byte>): (d: seq<Byte>)
    ensures |d| == SectorCount(|image|) * 512
    ensures image <= d && forall i :: |image| <= i < |d| ==> d[i] == 0
  {
    image + Zeros(SectorCount(|image|) * 512 - |image|)
  }

  // ---------- Where things lie in the image ----------

  /** No 32-bit size, offset or sector product wraps around. */
  ghost predicate Fits(files: seq<File>) {
    HeaderSize(|files|) + DataBefore(files, |files|) + 512 <= 0x1_0000_0000
  }

  lemma {:induction false} EntryLies(files: seq<File>, n: nat, i: nat)
    requires i < n <= |files|
    ensures Entries(files, n)[44 * i..44 * i + ENTRY_BYTES] == EntryBytes(EntryOf(files, i))
    decreases n
  {
    hide EntryBytes, EntryOf;
    var front, last := Entries(files, n - 1), EntryBytes(EntryOf(files, n - 1));
    if i < n - 1 {
      EntryLies(files, n - 1, i);
      SliceFront(front, last, 44 * i, 44 * i + ENTRY_BYTES);
    } else {
      SliceTail(front, last, 0, ENTRY_BYTES);
    }
  }

  lemma {:induction false} PayloadLies(files: seq<File>, n: nat, i: nat)
    requires i < n <= |files|
    ensures DataBefore(files, i) + |files[i].data| <= DataBefore(files, n)
    ensures Payloads(files, n)[DataBefore(files, i)..DataBefore(files, i) + |files[i].data|] == files[i].data
    decreases n
  {
    var front, last := Payloads(files, n - 1), files[n - 1].data;
    if i < n - 1 {
      PayloadLies(files, n - 1, i);
      SliceFront(front, last, DataBefore(files, i), DataBefore(files, i) + |files[i].data|);
    } else {
      SliceTail(front, last, 0, |last|);
    }
  }

  lemma EntryInImage(files: seq<File>, i: nat)
    requires i < |files|
    ensures HeaderSize(i) + ENTRY_BYTES <= |Image(files)|
    ensures Image(files)[HeaderSize(i)..HeaderSize(i) + ENTRY_BYTES] == EntryBytes(EntryOf(files, i))
  {
    hide Wrap32, EntryBytes, HeaderBytes, EntryOf, Entries, Payloads;
    var n := |files|;
    EntryLies(files, n, i);
    var header := HeaderBytes(Wrap32(n), Wrap32(HeaderSize(n)), Wrap32(HeaderSize(n) + DataBefore(files, n)));
    SliceMiddle(header, Entries(files, n), Payloads(files, n), 44 * i, 44 * i + ENTRY_BYTES);
  }

  /** Where the payload of file i starts. */
  function PayloadAt(files: seq<File>, i: nat): nat
    requires i <= |files|
  {
    HeaderSize(|files|) + DataBefore(files, i)
  }

  lemma PayloadInImage(files: seq<File>, i: nat)
    requires i < |files|
    ensures PayloadAt(files, i) + |files[i].data| <= |Image(files)|
    ensures Image(files)[PayloadAt(files, i)..PayloadAt(files, i) + |files[i].data|] == files[i].data
  {
    hide Front, Payloads, DataBefore, HeaderSize;
    PayloadLies(files, |files|, i);
    SliceTail(Front(files), Payloads(files, |files|), DataBefore(files, i), DataBefore(files, i) + |files[i].data|);
  }
}
