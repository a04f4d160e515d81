/** The boot sequence of kmain, as far as memory is concerned: memory_init, runtime_init, then
    a launch. */
module Boot {
  import opened Bytes
  import opened FlatMemory
  import opened Strings
  import opened Pages
  import opened HeapBlocks
  import opened KernelHeap
  import K = KernelMemory
  import A = Ata
  import opened AppFsImage
  import opened AppFs
  import opened AppFsRoundTrip
  import opened Elf
  import E = ElfRoundTrip
  import R = Runtime

  /** The heap survives any write outside its region. */
  lemma HeapUnharmed(before: seq<Byte>, after: seq<Byte>, bs: seq<Block>, lo: nat, hi: nat)
    requires |before| == |after| && Tiles(bs, lo, hi) && Headed(before, bs)
    requires forall a :: lo <= a < hi && a < |before| ==> before[a] == after[a]
    ensures Headed(after, bs)
  {
    hide HeaderAt;
    TilesAscend(bs, lo, hi);
    forall i | 0 <= i < |bs| ensures HeaderIs(after, bs, i) {
      assert HeaderIs(before, bs, i);
      HeaderKept(before, after, bs[i].addr);
    }
  }

  /** The heap region lies in pages that are in use and clear of the app window. */
  ghost predicate HeapGuarded(used: seq<bool>, lo: nat, hi: nat) {
    && (forall a :: lo <= a < hi ==> a / 4096 < |used| && used[a / 4096])
    && (hi <= WINDOW_START || WINDOW_END <= lo)
  }

  lemma BootGuardsHeap(pages: nat, kernelEnd: Word)
    requires 256 <= pages
    ensures
      match FirstRun(K.Reserved(pages, kernelEnd), K.HEAP_PAGES, 0)
      case None => true
      case Some(s) =>
        HeapGuarded(K.BootPool(pages, kernelEnd).used, s * PAGE_SIZE, (s + K.HEAP_PAGES) * PAGE_SIZE)
  {
    hide K.Reserved;
    var reserved := K.Reserved(pages, kernelEnd);
    match FirstRun(reserved, K.HEAP_PAGES, 0)
    case None =>
    case Some(s) =>
      hide FirstRun;
      R.ReservedCoverWindow(pages, kernelEnd);
      R.FreeRunMissesWindow(reserved, s, K.HEAP_PAGES);
      assert K.BootPool(pages, kernelEnd).used == Marked(reserved, s, s + K.HEAP_PAGES, true);
      forall a | s * PAGE_SIZE <= a < (s + K.HEAP_PAGES) * PAGE_SIZE
        ensures a / 4096 < pages && K.BootPool(pages, kernelEnd).used[a / 4096]
      {
        assert s <= a / 4096 < s + K.HEAP_PAGES;
      }
  }

  lemma GuardedStays(before: seq<Byte>, read: seq<Byte>, after: seq<Byte>, used: seq<bool>, lo: nat, hi: nat)
    requires HeapGuarded(used, lo, hi) && R.SparesUsedPages(before, read, used)
    requires SameOutside(read, after, WINDOW_START, WINDOW_END)
    ensures forall a :: lo <= a < hi && a < |before| ==> before[a] == after[a]
  {}

  lemma RegionOfList(bs: seq<Block>, lo: nat, hi: nat)
    requires Tiles(bs, lo, hi) && (lo == 0 <==> bs == [])
    ensures bs == [] ==> lo == hi == 0
    ensures |bs| == 1 ==> lo == bs[0].addr && hi == bs[0].End()
  {}

  /** The files were packed onto the AppFS sectors of the boot record. */
  ghost predicate Packed(boot: R.BootInfo, disk: seq<Byte>, files: seq<File>) {
    && R.WithinLimits(boot, disk) && AppFsImage.Fits(files) && Named(files)
    && boot.appfsSectors == SectorCount(|Image(files)|)
    && R.OnBootDisk(boot, disk) == OnDisk(Image(files))
  }

  /** The header of a packed disk is valid. */
  lemma PackedHeaderValid(boot: R.BootInfo, disk: seq<Byte>, files: seq<File>)
    requires Packed(boot, disk, files)
    ensures boot.appfsSectors != 0 && HEADER_BYTES <= |R.OnBootDisk(boot, disk)|
    ensures ValidHeader(R.OnBootDisk(boot, disk), 0, boot.appfsSectors)
  {
    var d := R.OnBootDisk(boot, disk);
    assert d[0..|d|] == d;
    HeaderReads(d, 0, files);
  }

  /** What a catalog read from a packed disk holds under a name. */
  lemma PackedFound(m: seq<Byte>, base: nat, boot: R.BootInfo, disk: seq<Byte>, files: seq<File>, name: seq<Byte>)
    requires Packed(boot, disk, files) && NoNul(name) && 0 < base
    requires base + 512 * boot.appfsSectors <= |m|
    requires m[base..base + 512 * boot.appfsSectors] == R.OnBootDisk(boot, disk)
    ensures base + HEADER_BYTES <= |m| && TableReadable(m, base, base + 512 * boot.appfsSectors)
    ensures
      var k := FirstNamed(files, name, 0);
      LookUp(m, base, boot.appfsSectors, base + 512 * boot.appfsSectors, name)
      == if k == |files| then None else Some(files[k].data)
  {
    hide LookUp, ValidHeader, TableReadable, Image, OnDisk;
    RoundTrip(m, base, files, name);
  }

  /** Its first file is the first one packed. */
  lemma PackedFirst(m: seq<Byte>, base: nat, boot: R.BootInfo, disk: seq<Byte>, files: seq<File>)
    requires Packed(boot, disk, files) && 0 < base
    requires base + 512 * boot.appfsSectors <= |m|
    requires m[base..base + 512 * boot.appfsSectors] == R.OnBootDisk(boot, disk)
    ensures base + HEADER_BYTES <= |m| && TableReadable(m, base, base + 512 * boot.appfsSectors)
    ensures
      FirstFile(m, base, boot.appfsSectors, base + 512 * boot.appfsSectors)
      == if files == [] then None else Some(files[0].data)
  {
    hide ValidHeader, TableReadable, EntryCountAt, Field32, DataOf, Image, OnDisk;
    HeaderReads(m, base, files);
    TableReads(m, base, files);
    if files != [] {
      DataReads(m, base, files, 0);
    }
  }

  /** A program written from parts can be launched exactly when they lie in the window, and is
      entered where it says. */
  lemma WrittenLaunchable(entry: Word, parts: seq<E.Part>)
    requires E.Writable(parts)
    ensures Conforming(E.ElfFile(entry, parts))
    ensures R.Launchable(E.ElfFile(entry, parts)) <==> forall i :: 0 <= i < |parts| ==> E.InWindow(parts[i])
    ensures forall m, at :: R.Launched(m, E.ElfFile(entry, parts), at) ==> at == entry
  {
    E.SegmentsWritten(entry, parts);
    E.AcceptedIffInWindow(entry, parts);
    hide E.ElfFile, E.Writable, Segments, TableInFile, Admissible, E.SegmentOf, E.InWindow, ValidElf, EntryPoint, Conforming, WindowShows;
  }

  /** Once launched, its bytes lie where it was linked to, except under a later part. */
  lemma WrittenLaunched(m: seq<Byte>, entry: Word, parts: seq<E.Part>, at: nat, i: nat, k: nat)
    requires E.Writable(parts) && R.Launched(m, E.ElfFile(entry, parts), at)
    requires i < |parts| && parts[i].kind == 1 && k < parts[i].memorySize
    requires forall j :: i < j < |parts| ==> !parts[j].Covers(parts[i].vaddr + k)
    ensures parts[i].vaddr + k < |m|
    ensures m[parts[i].vaddr + k] == if k < |parts[i].data| then parts[i].data[k] else 0
  {
    hide E.ElfFile, E.Writable, WindowShows, ValidElf;
    E.PartsInWindow(m, entry, parts, i, k);
  }

  lemma PackedLimits(boot: R.BootInfo, disk: seq<Byte>, files: seq<File>)
    requires Packed(boot, disk, files)
    ensures R.WithinLimits(boot, disk)
  {}

  method BootMemory(memory: K.KernelMemory, bootMb: Option<Word32>, kernelEnd: Word)
    requires memory.Valid()
    modifies memory.heap, memory.mem, memory.pages, memory.pages.bitmap
    ensures memory.Valid() && memory.heap.Valid()
    ensures memory.heap.blocks == K.BootBlocks(K.MappedPages(bootMb), kernelEnd)
    ensures memory.pages.Used() == K.BootPool(K.MappedPages(bootMb), kernelEnd).used
    ensures R.SetAside(memory.pages.Used())
    ensures HeapGuarded(memory.pages.Used(), memory.heap.head, memory.heap.head + memory.heap.totalBytes)
  {
    hide FirstRun, Marked, Headed, Tiles, Aligned, Coalesced;
    memory.MemoryInit(bootMb, kernelEnd);
    R.BootSetsAside(K.MappedPages(bootMb), kernelEnd);
    BootGuardsHeap(K.MappedPages(bootMb), kernelEnd);
    RegionOfList(memory.heap.blocks, memory.heap.head, memory.heap.head + memory.heap.totalBytes);
  }

  /** runtime_init, seen from a packed disk. */
  method InitRuntime(runtime: R.Runtime, boot: R.BootInfo, ghost files: seq<File>) returns (up: bool)
    requires runtime.Valid() && runtime.appfs.image == 0 && runtime.appfs.header == 0
    requires R.SetAside(runtime.pages.Used()) && Packed(boot, runtime.driver.device.disk, files)
    modifies runtime, runtime.mem, runtime.pages.bitmap, runtime.driver, runtime.driver.device, runtime.appfs
    ensures runtime.Valid() && up == runtime.ready
    ensures up ==>
      var m, base, n := runtime.mem[..], runtime.appfs.image, 512 * boot.appfsSectors;
      && runtime.Installed() && runtime.appfs.bootSectors == boot.appfsSectors
      && m[base..base + n] == R.OnBootDisk(boot, runtime.driver.device.disk)
    ensures A.Responsive(runtime.driver.device.pattern) ==>
      (up <==> FirstRun(old(runtime.pages.Used()), R.BufferPages(boot.appfsSectors), 0).Some?)
    ensures R.SparesUsedPages(old(runtime.mem[..]), runtime.mem[..], old(runtime.pages.Used()))
  {
    hide FirstRun, Packed, ValidHeader, R.SetAside, R.SparesUsedPages, A.Responsive;
    PackedHeaderValid(boot, runtime.driver.device.disk, files);
    PackedLimits(boot, runtime.driver.device.disk, files);
    up := runtime.RuntimeInit(Some(boot));
    if up {
      ghost var base, n := runtime.appfs.image, 512 * boot.appfsSectors;
      assert runtime.mem[..][base..base + n] == runtime.mem[base..base + n];
    }
  }

  /** From a packed disk to an app launched by name. */
  method StartApp(runtime: R.Runtime, boot: R.BootInfo, name: seq<Byte>, ghost files: seq<File>)
    returns (ok: bool, entryPoint: nat)
    requires runtime.Valid() && runtime.appfs.image == 0 && runtime.appfs.header == 0
    requires R.SetAside(runtime.pages.Used()) && NoNul(name)
    requires Packed(boot, runtime.driver.device.disk, files)
    requires forall i :: 0 <= i < |files| && ValidElf(files[i].data) ==> Conforming(files[i].data)
    modifies runtime, runtime.mem, runtime.pages.bitmap, runtime.driver, runtime.driver.device, runtime.appfs
    ensures
      A.Responsive(runtime.driver.device.pattern) ==>
        (ok <==>
           && FirstRun(old(runtime.pages.Used()), R.BufferPages(boot.appfsSectors), 0).Some?
           && FirstNamed(files, name, 0) < |files|
           && R.Launchable(files[FirstNamed(files, name, 0)].data))
    ensures ok ==>
      && FirstNamed(files, name, 0) < |files|
      && R.Launched(runtime.mem[..], files[FirstNamed(files, name, 0)].data, entryPoint)
  {
    hide FirstRun, Packed, R.Launchable, R.Launched, ValidElf, LookUp, ValidHeader, TableReadable, R.SetAside, A.Responsive;
    var up := InitRuntime(runtime, boot, files);
    if !up {
      return false, 0;
    }
    PackedFound(runtime.mem[..], runtime.appfs.image, boot, runtime.driver.device.disk, files, name);
    ok, entryPoint := runtime.RuntimeLaunch(name);
  }

  /** From a packed disk to the first app: runtime_init and runtime_autorun. */
  method StartFirst(runtime: R.Runtime, boot: R.BootInfo, ghost files: seq<File>)
    returns (ok: bool, entryPoint: nat)
    requires runtime.Valid() && runtime.appfs.image == 0 && runtime.appfs.header == 0
    requires R.SetAside(runtime.pages.Used()) && Packed(boot, runtime.driver.device.disk, files)
    requires files != [] && ValidElf(files[0].data) ==> Conforming(files[0].data)
    modifies runtime, runtime.mem, runtime.pages.bitmap, runtime.driver, runtime.driver.device, runtime.appfs
    ensures
      A.Responsive(runtime.driver.device.pattern) ==>
        (ok <==>
           && FirstRun(old(runtime.pages.Used()), R.BufferPages(boot.appfsSectors), 0).Some?
           && files != [] && R.Launchable(files[0].data))
    ensures ok ==> files != [] && R.Launched(runtime.mem[..], files[0].data, entryPoint)
    ensures exists read :: R.SparesUsedPages(old(runtime.mem[..]), read, old(runtime.pages.Used()))
                        && SameOutside(read, runtime.mem[..], WINDOW_START, WINDOW_END)
  {
    hide FirstRun, Packed, R.Launchable, R.Launched, ValidElf, FirstFile, ValidHeader, TableReadable, R.SetAside, A.Responsive;
    var up := InitRuntime(runtime, boot, files);
    ghost var read := runtime.mem[..];
    if up {
      PackedFirst(read, runtime.appfs.image, boot, runtime.driver.device.disk, files);
    }
    ok, entryPoint := runtime.RuntimeAutorun();
  }

  /** After boot the heap has the blocks memory_init gave it, unharmed by loading the catalog
      and the first app, whatever the memory size and the end of the kernel; and with a disk
      that answers, the app window holds exactly the first program packed whenever there is
      one, it can be loaded, and there are pages to read the catalog into. */
  method KernelMain(memory: K.KernelMemory, driver: A.Driver, bootMb: Option<Word32>, kernelEnd: Word,
                    boot: R.BootInfo, ghost files: seq<File>)
    returns (ok: bool, entryPoint: nat)
    requires memory.Valid() && driver.mem == memory.mem && driver.device.Valid()
    requires Packed(boot, driver.device.disk, files)
    requires files != [] && ValidElf(files[0].data) ==> Conforming(files[0].data)
    modifies memory.heap, memory.mem, memory.pages, memory.pages.bitmap, driver, driver.device
    ensures memory.heap.Valid() && memory.heap.blocks == K.BootBlocks(K.MappedPages(bootMb), kernelEnd)
    ensures
      var used := K.BootPool(K.MappedPages(bootMb), kernelEnd).used;
      && (A.Responsive(driver.device.pattern) ==>
            (ok <==>
               && FirstRun(used, R.BufferPages(boot.appfsSectors), 0).Some?
               && files != [] && R.Launchable(files[0].data)))
      && (ok ==> files != [] && R.Launched(memory.mem[..], files[0].data, entryPoint))
  {
    hide FirstRun, Packed, R.Launchable, R.Launched, ValidElf, Headed, Tiles, Aligned, Coalesced, R.SparesUsedPages, SameOutside;
    hide K.BootPool, K.BootBlocks, A.Responsive, R.SetAside;
    BootMemory(memory, bootMb, kernelEnd);
    ghost var booted, used := memory.mem[..], memory.pages.Used();
    ghost var lo, hi := memory.heap.head, memory.heap.head + memory.heap.totalBytes;
    var runtime := new R.Runtime(memory.mem, memory.pages, driver);
    ok, entryPoint := StartFirst(runtime, boot, files);
    ghost var read :| R.SparesUsedPages(booted, read, used)
                   && SameOutside(read, memory.mem[..], WINDOW_START, WINDOW_END);
    GuardedStays(booted, read, memory.mem[..], used, lo, hi);
    HeapUnharmed(booted, memory.mem[..], memory.heap.blocks, lo, hi);
  }
}
