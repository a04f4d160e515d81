/** The kernel's reader of an AppFS image that lies in memory. */
module AppFs {
  import opened Bytes
  import opened FlatMemory
  import opened Strings
  import opened AppFsImage

  // ---------- What the bytes in memory say ----------

  ghost function Field32(m: seq<Byte>, at: nat): (v: Word32)
    requires at + 4 <= |m|
  {
    WidthsOfWords();
    Load(m, at, 4)
  }

  ghost function EntryCountAt(m: seq<Byte>, base: nat): Word32
    requires base + HEADER_BYTES <= |m|
  {
    Field32(m, base + 12)
  }

  ghost function ImageSizeAt(m: seq<Byte>, base: nat): Word32
    requires base + HEADER_BYTES <= |m|
  {
    Field32(m, base + 20)
  }

  /** appfs_validate for a header at `base` and the boot record's sector count. */
  ghost predicate ValidHeader(m: seq<Byte>, base: nat, sectors: Word32)
    requires base + HEADER_BYTES <= |m|
  {
    && m[base..base + 8] == MAGIC
    && Field32(m, base + 8) == 1
    && HeaderSize(EntryCountAt(m, base)) <= Field32(m, base + 16)
    && ImageSizeAt(m, base) <= Wrap32(sectors * 512)
  }

  function EntryAddress(base: nat, index: nat): nat {
    base + HeaderSize(index)
  }

  /** The first entry from `index` on whose name is s; null when there is none. */
  ghost function FindFrom(m: seq<Byte>, base: nat, count: nat, s: seq<Byte>, index: nat): nat
    decreases count - index
  {
    if count <= index then 0
    else if IsString(m, EntryAddress(base, index), s) then EntryAddress(base, index)
    else FindFrom(m, base, count, s, index + 1)
  }

  /** The payload an entry points at; null when it does not lie within the image. */
  ghost function DataOf(m: seq<Byte>, base: nat, entry: nat): nat
    requires base + HEADER_BYTES <= |m| && entry + ENTRY_BYTES <= |m|
  {
    if Wrap32(Field32(m, entry + 32) + Field32(m, entry + 36)) > ImageSizeAt(m, base) then 0
    else base + Field32(m, entry + 32)
  }

  /** The file an entry points at. */
  ghost function FileOf(m: seq<Byte>, base: nat, entry: nat): Option<seq<Byte>>
    requires base + HEADER_BYTES <= |m| && entry + ENTRY_BYTES <= |m|
  {
    var data, size := DataOf(m, base, entry), Field32(m, entry + 36);
    if data == 0 || |m| < data + size then None else Some(m[data..data + size])
  }

  /** The entry table lies before `end`, and its names are terminated there. */
  ghost predicate NamesReadable(m: seq<Byte>, base: nat, end: nat)
    requires base + HEADER_BYTES <= |m|
  {
    && EntryAddress(base, EntryCountAt(m, base)) <= end <= |m|
    && forall i {:trigger EntryAddress(base, i)} :: 0 <= i < EntryCountAt(m, base) ==>
         && EntryAddress(base, i) + ENTRY_BYTES <= end
         && Terminated(m, EntryAddress(base, i), end)
  }

  /** In addition, no entry's offset and size wrap around when added. */
  ghost predicate TableReadable(m: seq<Byte>, base: nat, end: nat)
    requires base + HEADER_BYTES <= |m|
  {
    && NamesReadable(m, base, end)
    && forall i {:trigger EntryAddress(base, i)} :: 0 <= i < EntryCountAt(m, base) ==>
         Field32(m, EntryAddress(base, i) + 32) + Field32(m, EntryAddress(base, i) + 36) < 0x1_0000_0000
  }

  lemma EntryReadable(m: seq<Byte>, base: nat, end: nat, i: nat)
    requires base + HEADER_BYTES <= |m| && NamesReadable(m, base, end) && i < EntryCountAt(m, base)
    ensures EntryAddress(base, i) + ENTRY_BYTES <= end <= |m| && Terminated(m, EntryAddress(base, i), end)
  {}

  /** The file the catalog at `base` holds under a name. */
  ghost function LookUp(m: seq<Byte>, base: nat, sectors: Word32, end: nat, name: seq<Byte>): Option<seq<Byte>>
    requires base + HEADER_BYTES <= |m|
    requires ValidHeader(m, base, sectors) ==> TableReadable(m, base, end)
  {
    if !ValidHeader(m, base, sectors) then None else
    FoundIsEntry(m, base, end, EntryCountAt(m, base), name, 0);
    var entry := FindFrom(m, base, EntryCountAt(m, base), name, 0);
    if entry == 0 then None else FileOf(m, base, entry)
  }

  lemma {:induction false} FoundIsEntry(m: seq<Byte>, base: nat, end: nat, count: nat, name: seq<Byte>, index: nat)
    requires base + HEADER_BYTES <= |m| && NamesReadable(m, base, end) && count == EntryCountAt(m, base)
    ensures
      var entry := FindFrom(m, base, count, name, index);
      entry != 0 ==>
        && entry + ENTRY_BYTES <= end
        && exists i {:trigger EntryAddress(base, i)} :: index <= i < count && entry == EntryAddress(base, i)
    decreases count - index
  {
    hide EntryCountAt, Field32, IsString, Terminated;
    if index < count {
      assert EntryAddress(base, index) + ENTRY_BYTES <= end;
      FoundIsEntry(m, base, end, count, name, index + 1);
    }
  }

  /** The first file of the catalog at `base`. */
  ghost function FirstFile(m: seq<Byte>, base: nat, sectors: Word32, end: nat): Option<seq<Byte>>
    requires base + HEADER_BYTES <= |m|
    requires ValidHeader(m, base, sectors) ==> TableReadable(m, base, end)
  {
    if ValidHeader(m, base, sectors) && 0 < EntryCountAt(m, base) then FileOf(m, base, EntryAddress(base, 0)) else None
  }

  /** It is the one that the catalog holds under the first name. */
  lemma FirstFileByName(m: seq<Byte>, base: nat, sectors: Word32, end: nat, name: seq<Byte>)
    requires base + HEADER_BYTES <= |m| && 0 < base && TableReadable(m, base, end)
    requires ValidHeader(m, base, sectors) && 0 < EntryCountAt(m, base) && IsString(m, EntryAddress(base, 0), name)
    ensures LookUp(m, base, sectors, end, name) == FirstFile(m, base, sectors, end)
  {
    hide ValidHeader, TableReadable, EntryCountAt, IsString;
  }

  lemma FieldMoves(m: seq<Byte>, base: nat, d: seq<Byte>, at: nat)
    requires at + 4 <= |d| && base + |d| <= |m| && m[base..base + |d|] == d
    ensures Field32(m, base + at) == Field32(d, at)
  {
    SliceOfSlice(m, base, base + |d|, at, at + 4);
  }

  /** A header reads the same wherever its image lies. */
  lemma HeaderMoves(m: seq<Byte>, base: nat, d: seq<Byte>, sectors: Word32)
    requires HEADER_BYTES <= |d| && base + |d| <= |m| && m[base..base + |d|] == d
    ensures ValidHeader(m, base, sectors) == ValidHeader(d, 0, sectors)
  {
    hide Field32;
    FieldMoves(m, base, d, 8);
    FieldMoves(m, base, d, 12);
    FieldMoves(m, base, d, 16);
    FieldMoves(m, base, d, 20);
    SliceOfSlice(m, base, base + |d|, 0, 8);
  }

  // ---------- Lookups only read the catalog ----------

  ghost predicate SameOn(m: seq<Byte>, n: seq<Byte>, lo: nat, hi: nat) {
    |m| == |n| && forall a :: lo <= a < hi && a < |m| ==> m[a] == n[a]
  }

  lemma FieldLocal(m: seq<Byte>, n: seq<Byte>, lo: nat, hi: nat, at: nat)
    requires SameOn(m, n, lo, hi) && lo <= at && at + 4 <= hi && at + 4 <= |m|
    ensures Field32(m, at) == Field32(n, at)
  {
    assert m[at..at + 4] == n[at..at + 4];
  }

  lemma HeaderLocal(m: seq<Byte>, n: seq<Byte>, base: nat, end: nat)
    requires SameOn(m, n, base, end) && base + HEADER_BYTES <= end && base + HEADER_BYTES <= |m|
    ensures EntryCountAt(m, base) == EntryCountAt(n, base) && ImageSizeAt(m, base) == ImageSizeAt(n, base)
    ensures forall sectors :: ValidHeader(m, base, sectors) == ValidHeader(n, base, sectors)
  {
    hide Field32;
    FieldLocal(m, n, base, end, base + 8);
    FieldLocal(m, n, base, end, base + 12);
    FieldLocal(m, n, base, end, base + 16);
    FieldLocal(m, n, base, end, base + 20);
    assert m[base..base + 8] == n[base..base + 8];
  }

  lemma EntryLocal(m: seq<Byte>, n: seq<Byte>, base: nat, end: nat, entry: nat)
    requires SameOn(m, n, base, end) && base + HEADER_BYTES <= end <= |m| && base <= entry && entry + ENTRY_BYTES <= end
    ensures Field32(m, entry + 32) == Field32(n, entry + 32) && Field32(m, entry + 36) == Field32(n, entry + 36)
    ensures DataOf(m, base, entry) == DataOf(n, base, entry)
  {
    hide Field32;
    HeaderLocal(m, n, base, end);
    FieldLocal(m, n, base, end, entry + 32);
    FieldLocal(m, n, base, end, entry + 36);
  }

  lemma TableLocal(m: seq<Byte>, n: seq<Byte>, base: nat, end: nat)
    requires SameOn(m, n, base, end) && base + HEADER_BYTES <= end <= |m| && TableReadable(m, base, end)
    ensures TableReadable(n, base, end)
  {
    hide Field32, EntryCountAt;
    HeaderLocal(m, n, base, end);
    forall i {:trigger EntryAddress(base, i)} | 0 <= i < EntryCountAt(m, base)
      ensures
        && EntryAddress(base, i) + ENTRY_BYTES <= end
        && Terminated(n, EntryAddress(base, i), end)
        && Field32(n, EntryAddress(base, i) + 32) + Field32(n, EntryAddress(base, i) + 36) < 0x1_0000_0000
    {
      assert EntryAddress(base, i) + ENTRY_BYTES <= end;
      EntryLocal(m, n, base, end, EntryAddress(base, i));
    }
  }

  lemma {:induction false} FindLocal(m: seq<Byte>, n: seq<Byte>, base: nat, end: nat, count: nat, s: seq<Byte>, i: nat)
    requires SameOn(m, n, base, end) && base + HEADER_BYTES <= end <= |m| && NoNul(s)
    requires TableReadable(m, base, end) && count == EntryCountAt(m, base)
    ensures FindFrom(m, base, count, s, i) == FindFrom(n, base, count, s, i)
    decreases count - i
  {
    hide Field32, EntryCountAt, IsString;
    if i < count {
      var at := EntryAddress(base, i);
      TableLocal(m, n, base, end);
      HeaderLocal(m, n, base, end);
      assert Terminated(m, at, end) && Terminated(n, at, end);
      if IsString(m, at, s) { StringIsLocal(m, n, at, end, s); }
      if IsString(n, at, s) { StringIsLocal(n, m, at, end, s); }
      FindLocal(m, n, base, end, count, s, i + 1);
    }
  }

  /** A lookup depends on nothing but the bytes of the catalog. */
  lemma LookUpLocal(m: seq<Byte>, n: seq<Byte>, base: nat, sectors: Word32, end: nat, s: seq<Byte>)
    requires SameOn(m, n, base, end) && base + HEADER_BYTES <= end <= |m| && NoNul(s)
    requires end == base + 512 * sectors && 512 * sectors < 0x1_0000_0000
    requires ValidHeader(m, base, sectors) ==> TableReadable(m, base, end)
    ensures ValidHeader(n, base, sectors) ==> TableReadable(n, base, end)
    ensures LookUp(m, base, sectors, end, s) == LookUp(n, base, sectors, end, s)
  {
    hide Field32, EntryCountAt, ImageSizeAt, NamesReadable, FindFrom, DataOf;
    HeaderLocal(m, n, base, end);
    if ValidHeader(m, base, sectors) {
      TableLocal(m, n, base, end);
      FindLocal(m, n, base, end, EntryCountAt(m, base), s, 0);
      FoundIsEntry(m, base, end, EntryCountAt(m, base), s, 0);
      var entry := FindFrom(m, base, EntryCountAt(m, base), s, 0);
      if entry != 0 {
        FileLocal(m, n, base, sectors, end, entry);
      }
    }
  }

  lemma FileLocal(m: seq<Byte>, n: seq<Byte>, base: nat, sectors: Word32, end: nat, entry: nat)
    requires SameOn(m, n, base, end) && base + HEADER_BYTES <= end <= |m| && TableReadable(m, base, end)
    requires end == base + 512 * sectors && 512 * sectors < 0x1_0000_0000 && ValidHeader(m, base, sectors)
    requires exists i {:trigger EntryAddress(base, i)} :: 0 <= i < EntryCountAt(m, base) && entry == EntryAddress(base, i)
    ensures base <= entry && entry + ENTRY_BYTES <= end
    ensures FileOf(m, base, entry) == FileOf(n, base, entry)
    ensures DataOf(m, base, entry) != 0 ==>
      base <= DataOf(m, base, entry) && DataOf(m, base, entry) + Field32(m, entry + 36) <= end
  {
    hide Field32, EntryCountAt;
    var i :| 0 <= i < EntryCountAt(m, base) && entry == EntryAddress(base, i);
    EntryLocal(m, n, base, end, entry);
    var data, size := DataOf(m, base, entry), Field32(m, entry + 36);
    if data != 0 {
      assert data + size <= end;
      assert m[data..data + size] == n[data..data + size];
    }
  }

  // ---------- The reader ----------

  class AppFs {
    const mem: array<Byte>
    var image: nat  // the buffer the catalog was read into; 0 is null
    var header: nat // appfs_header: equal to image once the catalog was read; 0 is null
    var bootLba: Word32
    var bootSectors: Word32

    ghost predicate Valid()
      reads this, mem
    {
      header != 0 ==> header == image && image + HEADER_BYTES <= mem.Length
    }

    ghost predicate Ready()
      requires Valid()
      reads this, mem
    {
      header != 0 && ValidHeader(mem[..], header, bootSectors)
    }

    constructor (mem: array<Byte>)
      ensures this.mem == mem && Valid() && !Ready()
      ensures image == 0
    {
      this.mem := mem;
      image, header, bootLba, bootSectors := 0, 0, 0, 0;
    }

    method Read32(at: nat) returns (v: nat)
      requires at + 4 <= mem.Length
      ensures v == Field32(mem[..], at)
    {
      WidthsOfWords();
      v := Load(mem[..], at, 4);
    }

    method Validate() returns (ok: bool)
      requires Valid()
      ensures ok == Ready()
    {
      hide Field32;
      if header == 0 {
        return false;
      }
      assert mem[..][header..header + 8] == mem[header..header + 8];
      var difference := MemoryCompare(mem, header, MAGIC);
      if difference != 0 {
        return false;
      }
      var version := Read32(header + 8);
      if version != 1 {
        return false;
      }
      var headerSize := Read32(header + 16);
      var entryCount := Read32(header + 12);
      if headerSize < HEADER_BYTES + entryCount * 44 {
        return false;
      }
      var imageSize := Read32(header + 20);
      if imageSize > Wrap32(bootSectors * 512) {
        return false;
      }
      return true;
    }

    method EntryCount() returns (count: nat)
      requires Valid()
      ensures count == if Ready() then EntryCountAt(mem[..], header) else 0
    {
      var ready := Validate();
      if ready {
        count := Read32(header + 12);
      } else {
        count := 0;
      }
    }

    method EntryAt(index: nat) returns (entry: nat)
      requires Valid()
      ensures entry == if Ready() && index < EntryCountAt(mem[..], header) then EntryAddress(image, index) else 0
    {
      var ready := Validate();
      if !ready {
        return 0;
      }
      var count := Read32(header + 12);
      if index >= count {
        return 0;
      }
      return image + HEADER_BYTES + index * 44;
    }

    method Find(name: seq<Byte>) returns (entry: nat)
      requires Valid() && NoNul(name)
      requires Ready() ==> NamesReadable(mem[..], header, mem.Length)
      ensures entry == if Ready() then FindFrom(mem[..], header, EntryCountAt(mem[..], header), name, 0) else 0
    {
      hide ValidHeader, EntryCountAt, IsString, NamesReadable, Terminated;
      var count := EntryCount();
      ghost var n := count;
      var index := 0;
      while index < count
        invariant index <= count == n && n == (if Ready() then EntryCountAt(mem[..], header) else 0)
        invariant Ready() ==> FindFrom(mem[..], header, count, name, 0) == FindFrom(mem[..], header, count, name, index)
      {
        entry := EntryAt(index);
        if entry != 0 {
          EntryReadable(mem[..], header, mem.Length, index);
          var difference := StringCompare(mem, entry, name);
          if difference == 0 {
            return entry;
          }
        }
        index := index + 1;
        count := EntryCount();
      }
      return 0;
    }

    method DataAt(entry: nat) returns (data: nat)
      requires Valid() && (entry != 0 ==> entry + ENTRY_BYTES <= mem.Length)
      ensures data == if Ready() && entry != 0 then DataOf(mem[..], header, entry) else 0
    {
      hide Field32;
      var ready := Validate();
      if !ready || entry == 0 {
        return 0;
      }
      var offset := Read32(entry + 32);
      var size := Read32(entry + 36);
      var imageSize := Read32(header + 20);
      if Wrap32(offset + size) > imageSize {
        return 0;
      }
      return image + offset;
    }
  }
}
