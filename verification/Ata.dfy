/** The ATA PIO read path against a disk that answers in its own time. */
module Ata {
  import opened Bytes
  import opened FlatMemory

  const ERR: bv8 := 0x01
  const DRQ: bv8 := 0x08
  const DF: bv8 := 0x20
  const BSY: bv8 := 0x80
  const SPINS: nat := 100000

  datatype Register = SectorCount | LbaLow | LbaMid | LbaHigh | Drive

  predicate Busy(status: bv8) { status & BSY != 0 }
  predicate Failed(status: bv8) { status & ERR != 0 || status & DF != 0 }
  predicate Offers(status: bv8) { status & BSY == 0 && status & DRQ != 0 }

  /** In terms of the status byte: bit 7 is busy, bit 3 data request, bits 5 and 0 errors. */
  lemma StatusBits(status: bv8)
    ensures Busy(status) <==> status & 0x80 != 0
    ensures Failed(status) <==> status & 0x21 != 0
    ensures Offers(status) <==> status & 0x88 == 0x08
  {}

  /** The 28-bit address in the four register bytes. */
  function AddressOf(low: nat, mid: nat, high: nat, drive: nat): nat {
    low + 0x100 * mid + 0x1_0000 * high + 0x100_0000 * (drive % 16)
  }

  // ---------- The device ----------

  /** The first disk behind the primary I/O ports (READ SECTOR(S), 28-bit addressing). What it
      shows at each status poll is up to it, except that it requests data only while
      sectors of a command are pending. Registers written while it may be busy, and data
      read before it was seen to offer any, are lost. */
  class Device {
    const disk: seq<Byte>
    const pattern: nat -> bv8
    var polls: nat
    var quiet: bool      // the last poll showed the device not busy
    var registers: map<Register, Byte>
    var pending: nat     // sectors of the current command still to be read
    var sector: nat      // the next of them
    var offered: bool    // the host saw the device offer that sector
    var word: nat        // words of it already read

    ghost predicate Valid()
      reads this
    {
      registers.Keys == {SectorCount, LbaLow, LbaMid, LbaHigh, Drive} && word < 256
    }

    constructor (disk: seq<Byte>, pattern: nat -> bv8)
      ensures Valid() && this.disk == disk && this.pattern == pattern
    {
      this.disk, this.pattern := disk, pattern;
      polls, quiet, pending, sector, offered, word := 0, false, 0, 0, false, 0;
      registers := map[SectorCount := 0, LbaLow := 0, LbaMid := 0, LbaHigh := 0, Drive := 0];
    }

    method Status() returns (status: bv8)
      requires Valid()
      modifies this`polls, this`quiet, this`offered
      ensures Valid() && polls == old(polls) + 1
      ensures status == if pending == 0 then pattern(old(polls)) & !DRQ else pattern(old(polls))
      ensures quiet == !Busy(status)
      ensures offered == (old(offered) || (0 < pending && Offers(status)))
    {
      status := pattern(polls);
      if pending == 0 {
        status := status & !DRQ;
      }
      polls := polls + 1;
      quiet := !Busy(status);
      offered := offered || (0 < pending && Offers(status));
    }

    method Outb(register: Register, value: Byte)
      requires Valid()
      modifies this`registers
      ensures Valid()
      ensures registers == if quiet then old(registers)[register := value] else old(registers)
    {
      if quiet {
        registers := registers[register := value];
      }
    }

    /** The address in the registers, when the drive register selects LBA addressing. */
    function Address(): nat
      requires Valid()
      reads this
    {
      AddressOf(registers[LbaLow], registers[LbaMid], registers[LbaHigh], registers[Drive])
    }

    /** The drive register selects LBA addressing and this, the first, drive. */
    predicate Addressed()
      requires Valid()
      reads this
    {
      (registers[Drive] / 64) % 2 == 1 && (registers[Drive] / 16) % 2 == 0
    }

    method ReadSectors()
      requires Valid()
      modifies this
      ensures Valid() && polls == old(polls) && registers == old(registers)
      ensures old(quiet) && Addressed() ==>
        && pending == (if registers[SectorCount] == 0 then 256 else registers[SectorCount])
        && sector == Address() && word == 0 && !offered
    {
      if quiet && Addressed() {
        pending := if registers[SectorCount] == 0 then 256 else registers[SectorCount];
        sector, word, offered, quiet := Address(), 0, false, false;
      }
    }

    /** The next word at the data port, low byte first. */
    method Inw() returns (low: Byte, high: Byte)
      requires Valid()
      modifies this
      ensures Valid() && polls == old(polls) && registers == old(registers)
      ensures old(0 < pending && offered) && 512 * (old(sector) + 1) <= |disk| ==>
        && low == disk[512 * old(sector) + 2 * old(word)]
        && high == disk[512 * old(sector) + 2 * old(word) + 1]
        && (old(word) < 255 ==>
              word == old(word) + 1 && offered && sector == old(sector) && pending == old(pending))
        && (old(word) == 255 ==>
              word == 0 && !offered && sector == old(sector) + 1 && pending == old(pending) - 1)
    {
      low, high := 0xFF, 0xFF;
      if 0 < pending && offered && 512 * (sector + 1) <= |disk| {
        low, high := disk[512 * sector + 2 * word], disk[512 * sector + 2 * word + 1];
        if word < 255 {
          word := word + 1;
        } else {
          word, offered, quiet, sector, pending := 0, false, false, sector + 1, pending - 1;
        }
      }
    }
  }

  ghost predicate OffersWithin(pattern: nat -> bv8, from: nat) {
    exists j: nat :: from <= j < from + SPINS && Offers(pattern(j))
  }

  /** A device that never reports an error and always offers data within the polling limit. */
  ghost predicate Responsive(pattern: nat -> bv8) {
    && (forall k: nat :: !Failed(pattern(k)))
    && forall k: nat :: OffersWithin(pattern, k)
  }

  // ---------- What the driver may see ----------

  /** The poll before `to` is the first since `from` that shows the device not busy. */
  ghost predicate Idles(pattern: nat -> bv8, from: nat, to: nat) {
    from < to && !Busy(pattern(to - 1)) && forall j :: from <= j < to - 1 ==> Busy(pattern(j))
  }

  /** No poll in between shows an error. */
  ghost predicate Clean(pattern: nat -> bv8, from: nat, to: nat) {
    forall j :: from <= j < to ==> !Failed(pattern(j))
  }

  /** The polls of one command: the device goes idle, and no error shows after that. */
  ghost predicate CleanCommand(pattern: nat -> bv8, from: nat, to: nat) {
    exists mid :: from < mid <= to && Idles(pattern, from, mid) && Clean(pattern, mid, to)
  }

  /** The polls of a number of commands, one after the other. */
  ghost predicate CleanRun(pattern: nat -> bv8, from: nat, to: nat, commands: nat)
    decreases commands
  {
    if commands == 0 then from == to
    else exists last :: from <= last <= to && CleanRun(pattern, from, last, commands - 1) && CleanCommand(pattern, last, to)
  }

  lemma CleanRunStays(pattern: nat -> bv8, from: nat, to: nat, commands: nat)
    requires CleanRun(pattern, from, to, commands)
    ensures from <= to
  {}

  lemma NothingPolled(pattern: nat -> bv8, from: nat)
    ensures Clean(pattern, from, from)
  {}

  lemma PolledMore(pattern: nat -> bv8, from: nat, mid: nat, to: nat)
    requires from <= mid <= to && Clean(pattern, from, mid) && Clean(pattern, mid, to)
    ensures Clean(pattern, from, to)
  {}

  lemma NoCommands(pattern: nat -> bv8, from: nat)
    ensures CleanRun(pattern, from, from, 0)
  {}

  lemma CommandDone(pattern: nat -> bv8, from: nat, mid: nat, to: nat)
    requires Idles(pattern, from, mid) && mid <= to && Clean(pattern, mid, to)
    ensures from <= to && CleanCommand(pattern, from, to)
  {}

  lemma CommandCount(sectors: nat, commands: nat)
    requires sectors <= 255 * commands < sectors + 255
    ensures commands == (sectors + 254) / 255
  {}

  lemma CleanRunNext(pattern: nat -> bv8, from: nat, last: nat, to: nat, commands: nat)
    requires CleanRun(pattern, from, last, commands) && last <= to && CleanCommand(pattern, last, to)
    ensures CleanRun(pattern, from, to, commands + 1)
  {
    CleanRunStays(pattern, from, last, commands);
  }

  // ---------- Addressing ----------

  function DriveByte(lba: Word32): Byte {
    0xE0 + (lba / 0x100_0000) % 16
  }

  /** The address that reaches the drive when the driver sets the register bytes for lba. */
  function AddressSent(lba: Word32): nat {
    AddressOf(lba % 0x100, (lba / 0x100) % 0x100, (lba / 0x1_0000) % 0x100, DriveByte(lba))
  }

  lemma LowHalf(lba: Word32)
    ensures lba == lba % 0x100 + 0x100 * ((lba / 0x100) % 0x100) + 0x1_0000 * (lba / 0x1_0000)
  {
    assert lba / 0x100 == (lba / 0x100) % 0x100 + 0x100 * (lba / 0x1_0000);
  }

  lemma HighHalf(lba: Word32)
    ensures lba / 0x1_0000 ==
      (lba / 0x1_0000) % 0x100 + 0x100 * ((lba / 0x100_0000) % 16) + 0x1000 * (lba / 0x1000_0000)
  {
    assert lba / 0x1_0000 == (lba / 0x1_0000) % 0x100 + 0x100 * (lba / 0x100_0000);
    assert lba / 0x100_0000 == (lba / 0x100_0000) % 16 + 16 * (lba / 0x1000_0000);
  }

  lemma AddressSplits(lba: Word32)
    ensures AddressSent(lba) < 0x1000_0000
    ensures lba == AddressSent(lba) + 0x1000_0000 * (lba / 0x1000_0000)
  {
    LowHalf(lba);
    HighHalf(lba);
    assert DriveByte(lba) % 16 == (lba / 0x100_0000) % 16;
  }

  /** The four register bytes carry the low 28 bits of an address: all of it exactly when it
      has no more. */
  lemma RegistersCarryAddress(lba: Word32)
    ensures AddressSent(lba) == lba % 0x1000_0000
    ensures AddressSent(lba) == lba <==> lba < 0x1000_0000
    ensures DriveByte(lba) / 16 == 0xE
  {
    AddressSplits(lba);
    hide AddressSent;
  }

  /** The first address of 29 bits reaches the drive as sector 0. */
  lemma HighAddressIsCut()
    ensures AddressSent(0x1000_0000) == 0
  {
    RegistersCarryAddress(0x1000_0000);
  }

  // ---------- The driver ----------

  class Driver {
    const mem: array<Byte>
    const device: Device
    var ready: bool

    constructor (mem: array<Byte>, device: Device)
      ensures this.mem == mem && this.device == device && !ready
    {
      this.mem, this.device, ready := mem, device, false;
    }

    method WaitNotBusy() returns (ok: bool)
      requires device.Valid()
      modifies device`polls, device`quiet, device`offered
      ensures device.Valid() && (ok ==> device.quiet)
      ensures Responsive(device.pattern) ==> ok
      ensures ok ==> Idles(device.pattern, old(device.polls), device.polls)
      ensures !ok ==> forall j :: old(device.polls) <= j < old(device.polls) + 100000 ==> Busy(device.pattern(j))
    {
      hide Responsive, Offers, Busy;
      ghost var from := device.polls;
      for spin := 0 to SPINS
        invariant device.Valid() && device.polls == from + spin
        invariant forall j :: from <= j < from + spin ==> !Offers(device.pattern(j)) && Busy(device.pattern(j))
      {
        var status := device.Status();
        DrqIsNotBusy(device.pattern(from + spin));
        if !Busy(status) {
          return true;
        }
      }
      NeverOffered(device.pattern, from);
      return false;
    }

    method WaitForData() returns (ok: bool)
      requires device.Valid() && 0 < device.pending
      modifies device`polls, device`quiet, device`offered
      ensures device.Valid() && (ok ==> device.offered)
      ensures Responsive(device.pattern) ==> ok
      ensures old(device.polls) <= device.polls && (ok ==> Clean(device.pattern, old(device.polls), device.polls))
      ensures ok <==> exists j :: old(device.polls) <= j < old(device.polls) + 100000
                          && Offers(device.pattern(j)) && Clean(device.pattern, old(device.polls), j + 1)
    {
      hide Offers, Busy, Failed;
      ghost var from := device.polls;
      for spin := 0 to SPINS
        invariant device.Valid() && device.polls == from + spin
        invariant forall j :: from <= j < from + spin ==> !Offers(device.pattern(j)) && !Failed(device.pattern(j))
      {
        var status := device.Status();
        if Failed(status) {
          return false;
        }
        if Offers(status) {
          return true;
        }
      }
      NeverOffered(device.pattern, from);
      return false;
    }

    /** The word loop: one sector from the data port into memory. */
    method TransferSector(data: nat)
      requires device.Valid() && 0 < device.pending && device.offered && device.word == 0
      requires data + 512 <= mem.Length && 512 * (device.sector + 1) <= |device.disk|
      modifies device, mem
      ensures device.Valid() && device.word == 0 && !device.offered && device.polls == old(device.polls)
      ensures device.pending == old(device.pending) - 1 && device.sector == old(device.sector) + 1
      ensures Shows(old(mem[..]), mem[..], data, 512, device.disk, 512 * old(device.sector))
    {
      ghost var at := 512 * device.sector;
      for word := 0 to 256
        invariant device.Valid() && device.polls == old(device.polls)
        invariant word < 256 ==>
          && device.word == word && device.offered
          && device.pending == old(device.pending) && device.sector == old(device.sector)
        invariant word == 256 ==>
          && device.word == 0 && !device.offered
          && device.pending == old(device.pending) - 1 && device.sector == old(device.sector) + 1
        invariant SameOutside(old(mem[..]), mem[..], data, data + 2 * word)
        invariant forall a :: data <= a < data + 2 * word ==> mem[a] == device.disk[at + a - data]
      {
        var low, high := device.Inw();
        mem[data + 2 * word] := low;
        mem[data + 2 * word + 1] := high;
      }
      ghost var got, want := mem[data..data + 512], device.disk[at..at + 512];
      assert forall k :: 0 <= k < 512 ==> got[k] == want[k];
    }

    /** Address and count go out, then the command. */
    method Command(lba: Word32, chunk: Byte)
      requires device.Valid() && device.quiet && 0 < chunk
      modifies device
      ensures device.Valid()
      ensures device.polls == old(device.polls)
      ensures device.pending == chunk && device.sector == lba % 0x1000_0000 && device.word == 0 && !device.offered
    {
      device.Outb(Drive, DriveByte(lba));
      device.Outb(SectorCount, chunk);
      device.Outb(LbaLow, lba % 0x100);
      device.Outb(LbaMid, (lba / 0x100) % 0x100);
      device.Outb(LbaHigh, (lba / 0x1_0000) % 0x100);
      RegistersCarryAddress(lba);
      device.ReadSectors();
    }

    method Init() returns (ok: bool)
      requires device.Valid()
      modifies this`ready, device`polls, device`quiet, device`offered
      ensures device.Valid() && ready == ok
      ensures Responsive(device.pattern) ==> ok
    {
      ready := WaitNotBusy();
      ok := ready;
    }

    /** The sector step of ata_read: wait for data, then transfer it. Memory shows the disk from
        `base` on, before the step up to `data`, and after it one sector more. */
    method ReadSector(data: nat, ghost start: seq<Byte>, ghost base: nat, ghost from: nat) returns (ok: bool)
      requires device.Valid() && 0 < device.pending && !device.offered && device.word == 0
      requires base <= data && data + 512 <= mem.Length
      requires 512 * device.sector == from + (data - base) && 512 * (device.sector + 1) <= |device.disk|
      requires Shows(start, mem[..], base, data - base, device.disk, from)
      modifies device, mem
      ensures device.Valid()
      ensures ok ==>
        && device.word == 0 && !device.offered
        && device.pending == old(device.pending) - 1 && device.sector == old(device.sector) + 1
      ensures Shows(start, mem[..], base, data - base + (if ok then 512 else 0), device.disk, from)
      ensures ok ==> old(device.polls) <= device.polls && Clean(device.pattern, old(device.polls), device.polls)
      ensures Responsive(device.pattern) ==> ok
    {
      hide Responsive, Shows;
      ok := WaitForData();
      if ok {
        ghost var before := mem[..];
        TransferSector(data);
        ShowsMore(start, before, mem[..], base, data - base, 512, device.disk, from);
      }
    }

    /** One command of ata_read: wait, address the drive, read its sectors. */
    method ReadChunk(lba: Word32, chunk: Byte, data: nat, ghost start: seq<Byte>, ghost base: nat, ghost from: nat)
      returns (ok: bool)
      requires device.Valid() && 0 < chunk
      requires base <= data && data + 512 * chunk <= mem.Length
      requires lba < 0x1000_0000 && 512 * lba == from + (data - base) && 512 * (lba + chunk) <= |device.disk|
      requires Shows(start, mem[..], base, data - base, device.disk, from)
      modifies device, mem
      ensures device.Valid()
      ensures ok ==> Shows(start, mem[..], base, data - base + 512 * chunk, device.disk, from)
      ensures SameOutside(start, mem[..], base, data + 512 * chunk)
      ensures ok ==> old(device.polls) <= device.polls && CleanCommand(device.pattern, old(device.polls), device.polls)
      ensures Responsive(device.pattern) ==> ok
    {
      hide Responsive, Shows, SameOutside, Idles, Clean, CleanCommand;
      ghost var all := data - base + 512 * chunk;
      ShowsWithin(start, mem[..], base, data - base, all, device.disk, from);
      var free := WaitNotBusy();
      if !free {
        return false;
      }
      ghost var idle := device.polls;
      Command(lba, chunk);
      NothingPolled(device.pattern, idle);
      var at := data;
      for sector := 0 to chunk
        invariant device.Valid() && device.word == 0 && !device.offered
        invariant device.pending == chunk - sector && device.sector == lba + sector && at == data + 512 * sector
        invariant Shows(start, mem[..], base, at - base, device.disk, from)
        invariant idle <= device.polls && Clean(device.pattern, idle, device.polls)
      {
        ghost var polled := device.polls;
        ok := ReadSector(at, start, base, from);
        if !ok {
          ShowsWithin(start, mem[..], base, at - base, all, device.disk, from);
          return false;
        }
        PolledMore(device.pattern, idle, polled, device.polls);
        at := at + 512;
      }
      ShowsWithin(start, mem[..], base, at - base, all, device.disk, from);
      CommandDone(device.pattern, old(device.polls), idle, device.polls);
      return true;
    }

    /** ata_read: chunks of at most 255 sectors, one command each. */
    method Read(lba: Word32, sectorCount: Word32, buffer: nat) returns (ok: bool)
      requires device.Valid()
      requires buffer + 512 * sectorCount <= mem.Length
      requires lba + sectorCount <= 0x1000_0000 && 512 * (lba + sectorCount) <= |device.disk|
      modifies device, mem
      ensures device.Valid()
      ensures SameOutside(old(mem[..]), mem[..], buffer, buffer + 512 * sectorCount)
      ensures ok ==> mem[buffer..buffer + 512 * sectorCount] == device.disk[512 * lba..512 * (lba + sectorCount)]
      ensures ok ==> ready && buffer != 0 && sectorCount != 0
      ensures ok ==> CleanRun(device.pattern, old(device.polls), device.polls, (sectorCount + 254) / 255)
      ensures ready && buffer != 0 && sectorCount != 0 && Responsive(device.pattern) ==> ok
    {
      hide Responsive, Shows, SameOutside, CleanRun, CleanCommand;
      ghost var start, all := mem[..], 512 * sectorCount;
      ShowsNothing(start, buffer, all, device.disk, 512 * lba);
      if !ready || buffer == 0 || sectorCount == 0 {
        return false;
      }
      var data, currentLba: nat, remaining: nat := buffer, lba, sectorCount;
      ghost var polled, commands := device.polls, 0;
      NoCommands(device.pattern, polled);
      while remaining > 0
        invariant CleanRun(device.pattern, polled, device.polls, commands)
        invariant sectorCount - remaining <= 255 * commands < sectorCount - remaining + 255
        invariant remaining > 0 ==> sectorCount - remaining == 255 * commands
        invariant device.Valid()
        invariant data + 512 * remaining == buffer + all && currentLba + remaining == lba + sectorCount
        invariant buffer <= data && Shows(start, mem[..], buffer, data - buffer, device.disk, 512 * lba)
      {
        var chunk: Byte := if remaining > 255 then 255 else remaining;
        ghost var last := device.polls;
        var read := ReadChunk(currentLba, chunk, data, start, buffer, 512 * lba);
        if !read {
          KeptOutside(start, mem[..], buffer, data + 512 * chunk, buffer + all);
          return false;
        }
        data := data + 512 * chunk;
        currentLba := currentLba + chunk;
        remaining := remaining - chunk;
        CleanRunNext(device.pattern, polled, last, device.polls, commands);
        commands := commands + 1;
      }
      ShowsWithin(start, mem[..], buffer, all, all, device.disk, 512 * lba);
      CommandCount(sectorCount, commands);
      return true;
    }
  }

  lemma DrqIsNotBusy(status: bv8)
    ensures Offers(status) ==> !Busy(status)
    ensures Busy(status & !DRQ) == Busy(status)
  {}

  lemma NeverOffered(pattern: nat -> bv8, from: nat)
    requires forall j :: from <= j < from + SPINS ==> !Offers(pattern(j))
    ensures !Responsive(pattern)
  {
    assert !OffersWithin(pattern, from);
  }

  /** The buffer shows n bytes of the disk, and nothing else changed since `start`. */
  ghost predicate Shows(start: seq<Byte>, m: seq<Byte>, buffer: nat, n: nat, disk: seq<Byte>, from: nat) {
    && buffer + n <= |m| && from + n <= |disk|
    && SameOutside(start, m, buffer, buffer + n)
    && m[buffer..buffer + n] == disk[from..from + n]
  }

  lemma ShowsMore(start: seq<Byte>, before: seq<Byte>, after: seq<Byte>, buffer: nat, done: nat, n: nat, disk: seq<Byte>, from: nat)
    requires Shows(start, before, buffer, done, disk, from)
    requires Shows(before, after, buffer + done, n, disk, from + done)
    ensures Shows(start, after, buffer, done + n, disk, from)
  {
    assert after[buffer..buffer + done] == before[buffer..buffer + done];
    assert after[buffer..buffer + done + n] == after[buffer..buffer + done] + after[buffer + done..buffer + done + n];
    assert disk[from..from + done + n] == disk[from..from + done] + disk[from + done..from + done + n];
  }

  lemma ShowsNothing(m: seq<Byte>, buffer: nat, all: nat, disk: seq<Byte>, from: nat)
    requires buffer <= |m| && from <= |disk|
    ensures Shows(m, m, buffer, 0, disk, from)
    ensures SameOutside(m, m, buffer, buffer + all)
  {}

  lemma KeptOutside(start: seq<Byte>, m: seq<Byte>, lo: nat, mid: nat, hi: nat)
    requires SameOutside(start, m, lo, mid) && mid <= hi
    ensures SameOutside(start, m, lo, hi)
  {}

  lemma ShowsWithin(start: seq<Byte>, m: seq<Byte>, buffer: nat, n: nat, all: nat, disk: seq<Byte>, from: nat)
    requires Shows(start, m, buffer, n, disk, from) && n <= all
    ensures SameOutside(start, m, buffer, buffer + all)
    ensures buffer + n <= |m| && from + n <= |disk| && m[buffer..buffer + n] == disk[from..from + n]
  {}
}
