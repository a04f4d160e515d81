/** From a packed image on disk to a loaded app: appfs_init, runtime_init and the part of
    runtime_launch before the app is entered. */
module Runtime {
  import opened Bytes
  import opened FlatMemory
  import opened Strings
  import opened Pages
  import K = KernelMemory
  import A = Ata
  import opened AppFsImage
  import opened AppFs
  import opened Elf

  datatype BootInfo = BootInfo(appfsLba: Word32, appfsSectors: Word32)

  /** The page count appfs_init asks for, in 32-bit arithmetic. */
  function BufferPages(sectors: Word32): nat {
    Wrap32(sectors * 512 + PAGE_SIZE - 1) / 4096
  }

  /** The pages cover the sectors to be read exactly when that sum does not wrap around. */
  lemma BufferHoldsImage(sectors: Word32)
    ensures sectors * 512 <= BufferPages(sectors) * 4096 <==> sectors * 512 + PAGE_SIZE - 1 < 0x1_0000_0000
  {
    var x := sectors * 512 + 4095;
    if x < 0x1_0000_0000 {
      assert Wrap32(x) == x;
    } else {
      assert Wrap32(x) <= x - 0x1_0000_0000;
    }
  }

  /** For a record that names 0x80_0008 sectors, 4 GiB and 4 KiB, a single page is asked for. */
  lemma WrappedBufferIsOnePage()
    ensures BufferPages(0x80_0008) == 1 && 0x80_0008 * 512 > 0x1_0000_0000
  {
    assert Wrap32(0x1_0000_1FFF) == 0x1FFF;
  }

  ghost predicate WindowSetAside(used: seq<bool>) {
    forall p :: WINDOW_START / 4096 <= p < WINDOW_END / 4096 && p < |used| ==> used[p]
  }

  /** Null's page and the app window's pages are set aside. */
  ghost predicate SetAside(used: seq<bool>) {
    (0 < |used| ==> used[0]) && WindowSetAside(used)
  }

  lemma ReservedCoverWindow(pages: nat, kernelEnd: Word)
    ensures WindowSetAside(K.Reserved(pages, kernelEnd))
  {
    forall p | WINDOW_START / 4096 <= p < WINDOW_END / 4096 && p < pages ensures K.Reserved(pages, kernelEnd)[p] {
      K.WindowPagesReserved(pages, kernelEnd, p);
    }
  }

  /** After memory_init they are in use, whatever the memory size and the end of the kernel:
      where that end wraps around, the heap's own grant takes null's page. */
  lemma BootSetsAside(pages: nat, kernelEnd: Word)
    requires 256 <= pages
    ensures SetAside(K.BootPool(pages, kernelEnd).used)
  {
    hide FirstRun, K.Reserved;
    ReservedCoverWindow(pages, kernelEnd);
    if kernelEnd <= WORD_LIMIT - PAGE_SIZE {
      K.LowPagesReserved(pages, kernelEnd);
      assert K.Reserved(pages, kernelEnd)[0];
    } else {
      K.WrappedReservesNothingLow(pages, kernelEnd);
    }
  }

  lemma FreeRunMissesWindow(used: seq<bool>, start: nat, count: nat)
    requires WindowSetAside(used) && RunFree(used, start, count) && 0 < count
    ensures (start + count) * 4096 <= WINDOW_START || WINDOW_END <= start * 4096
  {
    var p := if start < WINDOW_START / 4096 then WINDOW_START / 4096 else start;
    if p < start + count { assert !used[p]; }
  }

  /** A run of free pages misses what is set aside. */
  lemma FreeRunIsClear(used: seq<bool>, start: nat, count: nat)
    requires SetAside(used) && RunFree(used, start, count) && 0 < count
    ensures 0 < start
    ensures (start + count) * 4096 <= WINDOW_START || WINDOW_END <= start * 4096
  {
    FreeRunMissesWindow(used, start, count);
  }

  /** No byte of a page in use was written. */
  ghost predicate SparesUsedPages(before: seq<Byte>, after: seq<Byte>, used: seq<bool>) {
    && |before| == |after|
    && forall a :: 0 <= a < |before| && a / 4096 < |used| && used[a / 4096] ==> before[a] == after[a]
  }

  /** Bytes of free pages, above null and clear of the app window. */
  ghost predicate FreeRegion(used: seq<bool>, lo: nat, n: nat) {
    && 0 < lo && lo + n <= |used| * 4096
    && (lo + n <= WINDOW_START || WINDOW_END <= lo)
    && forall a :: lo <= a < lo + n ==> !used[a / 4096]
  }

  lemma RegionBounds(used: seq<bool>, lo: nat, n: nat)
    requires FreeRegion(used, lo, n) && |used| <= MAX_PAGES
    ensures 0 < lo && lo + n <= K.MAPPED_BYTES && (lo + n <= WINDOW_START || WINDOW_END <= lo)
  {}

  lemma RegionOfRun(used: seq<bool>, start: nat, count: nat, n: nat)
    requires SetAside(used) && RunFree(used, start, count) && 0 < count && n <= count * 4096
    ensures FreeRegion(used, start * 4096, n)
  {
    FreeRunIsClear(used, start, count);
  }

  lemma RegionSparesUsed(before: seq<Byte>, after: seq<Byte>, used: seq<bool>, lo: nat, n: nat)
    requires FreeRegion(used, lo, n) && SameOutside(before, after, lo, lo + n)
    ensures SparesUsedPages(before, after, used)
  {
    forall a | 0 <= a < |before| && a / 4096 < |used| && used[a / 4096] ensures before[a] == after[a] {
      assert !(lo <= a < lo + n);
    }
  }

  lemma NothingSpared(m: seq<Byte>, used: seq<bool>)
    ensures SparesUsedPages(m, m, used)
  {}

  lemma TableWithinMemory(m: seq<Byte>, base: nat, end: nat)
    requires base + HEADER_BYTES <= |m| && end <= |m|
    ensures TableReadable(m, base, end) ==> NamesReadable(m, base, end) && NamesReadable(m, base, |m|)
  {
    hide Field32, EntryCountAt;
  }

  /** A file that runtime_launch accepts. */
  ghost predicate Launchable(f: seq<Byte>) {
    ValidElf(f) && TableInFile(f) && forall s :: s in Segments(f) && s.Loads() ==> Admissible(f, s)
  }

  /** Memory is ready for the file f to be entered: its entry point is known, and every byte
      of the app window is the one its segments put there. */
  ghost predicate Launched(m: seq<Byte>, f: seq<Byte>, entryPoint: nat) {
    Launchable(f) && entryPoint == EntryPoint(f) && WindowShows(m, f, Segments(f))
  }

  /** The ELF half of runtime_launch: check the file, load it, read its entry point. */
  method LaunchImage(mem: array<Byte>, image: nat, size: nat, ghost f: seq<Byte>) returns (ok: bool, entryPoint: nat)
    requires Holds(mem[..], image, f) && size == |f|
    requires ValidElf(f) ==> Conforming(f)
    modifies mem
    ensures SameOutside(old(mem[..]), mem[..], WINDOW_START, WINDOW_END)
    ensures ok <==> Launchable(f)
    ensures ok ==> Launched(mem[..], f, entryPoint)
    ensures !ValidElf(f) ==> mem[..] == old(mem[..])
  {
    hide Load, WindowByte;
    var valid := ValidateElf(mem, image, size, f);
    if !valid {
      return false, 0;
    }
    ValidTableInFile(f);
    ok := LoadSegments(mem, image, size, f);
    entryPoint := 0;
    if ok {
      assert Segments(f)[..|Segments(f)|] == Segments(f);
      HoldsStill(old(mem[..]), mem[..], image, f);
      entryPoint := ReadField(mem, image, 24, 8, f);
    }
  }

  /** The sector addresses have 28 bits, the buffer size 32, and the disk has the sectors. */
  ghost predicate WithinLimits(boot: BootInfo, disk: seq<Byte>) {
    && boot.appfsLba + boot.appfsSectors <= 0x1000_0000
    && boot.appfsSectors * 512 + PAGE_SIZE - 1 < 0x1_0000_0000
    && 512 * (boot.appfsLba + boot.appfsSectors) <= |disk|
  }

  /** The bytes of the boot record's AppFS sectors. */
  ghost function OnBootDisk(boot: BootInfo, disk: seq<Byte>): (d: seq<Byte>)
    requires WithinLimits(boot, disk)
    ensures |d| == 512 * boot.appfsSectors
  {
    disk[512 * boot.appfsLba..512 * (boot.appfsLba + boot.appfsSectors)]
  }

  class Runtime {
    const mem: array<Byte>
    const pages: PageAllocator
    const driver: A.Driver
    const appfs: AppFs
    var ready: bool

    ghost predicate Valid()
      reads this, mem, pages, driver, driver.device, appfs
    {
      && mem.Length == K.MAPPED_BYTES && driver.mem == mem && appfs.mem == mem
      && pages.Valid() && driver.device.Valid() && appfs.Valid()
    }

    constructor (mem: array<Byte>, pages: PageAllocator, driver: A.Driver)
      requires mem.Length == K.MAPPED_BYTES && driver.mem == mem && pages.Valid() && driver.device.Valid()
      ensures Valid() && this.mem == mem && this.pages == pages && this.driver == driver
      ensures !ready && fresh(appfs) && appfs.image == 0 && appfs.header == 0
    {
      this.mem, this.pages, this.driver, ready := mem, pages, driver, false;
      appfs := new AppFs(mem);
    }

    ghost function BufferEnd(): nat
      reads appfs
    {
      appfs.image + 512 * appfs.bootSectors
    }

    /** The AppFS sectors have been read into memory, clear of the app window. */
    ghost predicate Installed()
      reads this, mem, appfs
    {
      && appfs.header == appfs.image && 0 < appfs.image
      && 0 < 512 * appfs.bootSectors < 0x1_0000_0000
      && BufferEnd() <= mem.Length && (BufferEnd() <= WINDOW_START || WINDOW_END <= appfs.image)
    }

    /** If the catalog is accepted, its entry table is readable. */
    ghost predicate Readable()
      requires Valid() && Installed()
      reads this, mem, pages, driver, driver.device, appfs
    {
      ValidHeader(mem[..], appfs.image, appfs.bootSectors) ==> TableReadable(mem[..], appfs.image, BufferEnd())
    }

    /** What the catalog in memory holds under a name. */
    ghost function Found(name: seq<Byte>): Option<seq<Byte>>
      requires Valid() && Installed() && Readable()
      reads this, mem, pages, driver, driver.device, appfs
    {
      LookUp(mem[..], appfs.image, appfs.bootSectors, BufferEnd(), name)
    }

    /** The first file of the catalog in memory. */
    ghost function First(): Option<seq<Byte>>
      requires Valid() && Installed() && Readable()
      reads this, mem, pages, driver, driver.device, appfs
    {
      FirstFile(mem[..], appfs.image, appfs.bootSectors, BufferEnd())
    }

    /** The first half of appfs_init: wake the disk, find pages, read the sectors into them. */
    method FillBuffer(boot: BootInfo) returns (ok: bool)
      requires Valid() && appfs.image == 0 && appfs.header == 0 && SetAside(pages.Used())
      requires boot.appfsSectors != 0 && WithinLimits(boot, driver.device.disk)
      modifies mem, pages.bitmap, driver, driver.device, appfs
      ensures Valid() && appfs.header == 0
      ensures ok ==>
        var base, n := appfs.image, 512 * boot.appfsSectors;
        && 0 < base && base + n <= mem.Length && (base + n <= WINDOW_START || WINDOW_END <= base)
        && mem[base..base + n] == OnBootDisk(boot, driver.device.disk)
        && appfs.bootSectors == boot.appfsSectors
      ensures A.Responsive(driver.device.pattern) ==>
        (ok <==> FirstRun(old(pages.Used()), BufferPages(boot.appfsSectors), 0).Some?)
      ensures SparesUsedPages(old(mem[..]), mem[..], old(pages.Used()))
    {
      hide FirstRun, A.Responsive, FreeRegion, SameOutside, SparesUsedPages, SetAside;
      NothingSpared(mem[..], pages.Used());
      appfs.bootLba, appfs.bootSectors := boot.appfsLba, boot.appfsSectors;
      var awake := driver.Init();
      if !awake {
        return false;
      }
      ghost var before, used, n := mem[..], pages.Used(), 512 * boot.appfsSectors;
      appfs.image := AllocBuffer(appfs.bootSectors);
      if appfs.image == 0 {
        return false;
      }
      RegionBounds(used, appfs.image, n);
      ok := driver.Read(appfs.bootLba, appfs.bootSectors, appfs.image);
      RegionSparesUsed(before, mem[..], used, appfs.image, n);
    }

    /** The pages for the sectors, or null when there is no run of that many. */
    method AllocBuffer(sectors: Word32) returns (image: nat)
      requires pages.Valid() && SetAside(pages.Used()) && 0 < sectors && sectors * 512 + PAGE_SIZE - 1 < 0x1_0000_0000
      modifies pages.bitmap
      ensures pages.Valid()
      ensures image != 0 <==> FirstRun(old(pages.Used()), BufferPages(sectors), 0).Some?
      ensures image != 0 ==> FreeRegion(old(pages.Used()), image, 512 * sectors)
    {
      hide FirstRun, Marked, RunFree, FreeRegion, SetAside;
      var pageCount := Wrap32(sectors * 512 + PAGE_SIZE - 1) / 4096;
      BufferHoldsImage(sectors);
      ghost var run := FirstRun(pages.Used(), pageCount, 0);
      if run.Some? {
        RegionOfRun(pages.Used(), run.value, pageCount, 512 * sectors);
        RegionBounds(pages.Used(), run.value * 4096, 512 * sectors);
      }
      image := pages.PageAlloc(pageCount);
    }

    /** appfs_init: it succeeds exactly when the boot record names some sectors, pages can be
        found for them, the disk answers, and their header is valid. */
    method AppfsInit(boot: Option<BootInfo>) returns (ok: bool)
      requires Valid() && appfs.image == 0 && appfs.header == 0 && SetAside(pages.Used())
      requires boot.Some? ==> WithinLimits(boot.value, driver.device.disk)
      modifies mem, pages.bitmap, driver, driver.device, appfs
      ensures Valid()
      ensures ok ==>
        && boot.Some? && Installed() && appfs.Ready() && appfs.bootSectors == boot.value.appfsSectors
        && mem[appfs.image..BufferEnd()] == OnBootDisk(boot.value, driver.device.disk)
      ensures A.Responsive(driver.device.pattern) ==>
        (ok <==>
           && boot.Some? && boot.value.appfsSectors != 0
           && FirstRun(old(pages.Used()), BufferPages(boot.value.appfsSectors), 0).Some?
           && ValidHeader(OnBootDisk(boot.value, driver.device.disk), 0, boot.value.appfsSectors))
      ensures SparesUsedPages(old(mem[..]), mem[..], old(pages.Used()))
    {
      hide FirstRun, SparesUsedPages, A.Responsive, ValidHeader, SetAside;
      NothingSpared(mem[..], pages.Used());
      if boot.None? || boot.value.appfsSectors == 0 {
        return false;
      }
      ok := FillBuffer(boot.value);
      if !ok {
        return false;
      }
      appfs.header := appfs.image;
      assert mem[..][appfs.image..BufferEnd()] == mem[appfs.image..BufferEnd()];
      HeaderMoves(mem[..], appfs.image, OnBootDisk(boot.value, driver.device.disk), boot.value.appfsSectors);
      ok := appfs.Validate();
    }

    method RuntimeInit(boot: Option<BootInfo>) returns (ok: bool)
      requires Valid() && appfs.image == 0 && appfs.header == 0 && SetAside(pages.Used())
      requires boot.Some? ==> WithinLimits(boot.value, driver.device.disk)
      modifies this, mem, pages.bitmap, driver, driver.device, appfs
      ensures Valid() && ok == ready
      ensures ok ==>
        && boot.Some? && Installed() && appfs.Ready() && appfs.bootSectors == boot.value.appfsSectors
        && mem[appfs.image..BufferEnd()] == OnBootDisk(boot.value, driver.device.disk)
      ensures A.Responsive(driver.device.pattern) ==>
        (ok <==>
           && boot.Some? && boot.value.appfsSectors != 0
           && FirstRun(old(pages.Used()), BufferPages(boot.value.appfsSectors), 0).Some?
           && ValidHeader(OnBootDisk(boot.value, driver.device.disk), 0, boot.value.appfsSectors))
      ensures SparesUsedPages(old(mem[..]), mem[..], old(pages.Used()))
    {
      ready := AppfsInit(boot);
      ok := ready;
    }

    /** The lookups of runtime_launch: where the file of that name lies, or null. */
    method Lookup(name: seq<Byte>) returns (image: nat, size: nat)
      requires Valid() && NoNul(name) && Installed() && Readable()
      ensures image == 0 <==> Found(name).None?
      ensures image != 0 ==> Holds(mem[..], image, Found(name).value) && size == |Found(name).value|
    {
      hide Field32, IsString, DataOf, ValidHeader, TableReadable, FindFrom, EntryCountAt;
      ghost var m, base, end := mem[..], appfs.image, BufferEnd();
      TableWithinMemory(m, base, end);
      var entry := appfs.Find(name);
      if entry == 0 {
        return 0, 0;
      }
      FoundIsEntry(m, base, end, EntryCountAt(m, base), name, 0);
      FileLocal(m, m, base, appfs.bootSectors, end, entry);
      image := appfs.DataAt(entry);
      if image == 0 {
        return 0, 0;
      }
      size := appfs.Read32(entry + 36);
    }

    /** runtime_launch up to the call of the app: look the name up, check the ELF file, load
        its segments. Only the app window is ever written, so later launches find the same
        files. */
    method RuntimeLaunch(name: seq<Byte>) returns (ok: bool, entryPoint: nat)
      requires Valid() && NoNul(name)
      requires ready ==> Installed() && Readable()
      requires ready && Found(name).Some? && ValidElf(Found(name).value) ==> Conforming(Found(name).value)
      modifies mem
      ensures Valid() && SameOutside(old(mem[..]), mem[..], WINDOW_START, WINDOW_END)
      ensures ready ==> Installed() && Readable() && forall s :: NoNul(s) ==> Found(s) == old(Found(s))
      ensures ok <==> ready && old(Found(name)).Some? && Launchable(old(Found(name)).value)
      ensures ok ==> Launched(mem[..], old(Found(name)).value, entryPoint)
      ensures !ready || old(Found(name)).None? || !ValidElf(old(Found(name)).value) ==> mem[..] == old(mem[..])
    {
      hide LookUp, ValidHeader, TableReadable, Launchable, Launched, ValidElf;
      if !ready {
        return false, 0;
      }
      var image, size := Lookup(name);
      if image == 0 {
        return false, 0;
      }
      ghost var f := Found(name).value;
      ok, entryPoint := LaunchImage(mem, image, size, f);
      forall s | NoNul(s)
        ensures Readable() && Found(s) == old(Found(s))
      {
        LookUpLocal(old(mem[..]), mem[..], appfs.image, appfs.bootSectors, BufferEnd(), s);
      }
      LookUpLocal(old(mem[..]), mem[..], appfs.image, appfs.bootSectors, BufferEnd(), name);
    }

    /** runtime_autorun: launch the first app of the catalog. */
    method RuntimeAutorun() returns (ok: bool, entryPoint: nat)
      requires Valid()
      requires ready ==> Installed() && Readable()
      requires ready && First().Some? && ValidElf(First().value) ==> Conforming(First().value)
      modifies mem
      ensures Valid() && SameOutside(old(mem[..]), mem[..], WINDOW_START, WINDOW_END)
      ensures ok <==> ready && old(First()).Some? && Launchable(old(First()).value)
      ensures ok ==> Launched(mem[..], old(First()).value, entryPoint)
    {
      hide LookUp, ValidHeader, TableReadable, NamesReadable, EntryCountAt, Launchable, Launched, ValidElf, Conforming;
      if !ready {
        return false, 0;
      }
      TableWithinMemory(mem[..], appfs.image, BufferEnd());
      var count := appfs.EntryCount();
      if count == 0 {
        return false, 0;
      }
      var entry := appfs.EntryAt(0);
      EntryReadable(mem[..], appfs.image, mem.Length, 0);
      var name := StringAt(mem, entry);
      FirstFileByName(mem[..], appfs.image, appfs.bootSectors, BufferEnd(), name);
      ok, entryPoint := RuntimeLaunch(name);
    }
  }
}
