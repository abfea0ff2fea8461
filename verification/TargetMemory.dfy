// Target memory as the rest of the program sees it (src/jtag2rw.cc): one address
// range for all memories, reads and writes by memory type.

module TargetMemory {
  import opened Common
  import opened PageAccess
  import opened Spaces

  // The memory types the emulator knows (src/jtag.h:500-514).
  datatype MemoryType =
    | Sram
    | Eeprom
    | Event
    | Spm
    | FlashPage
    | EepromPage
    | FuseBits
    | LockBits
    | Signature
    | XmegaRegister

  // Their numbers on the wire.
  function TypeNumber(t: MemoryType): nat {
    match t
    case Sram => 0x20
    case Eeprom => 0x22
    case Event => 0x60
    case Spm => 0xa0
    case FlashPage => 0xb0
    case EepromPage => 0xb1
    case FuseBits => 0xb2
    case LockBits => 0xb3
    case Signature => 0xb4
    case XmegaRegister => 0xb8
  }

  predicate NeedsProgmode(t: MemoryType) {
    TypeNumber(FlashPage) <= TypeNumber(t) < TypeNumber(XmegaRegister)
  }

  // The emulator takes commands on these memories in programming mode only.
  predicate Takes(t: MemoryType, programming: bool) {
    t in {FlashPage, EepromPage, FuseBits, LockBits, Signature} ==> programming
  }

  // The types that need it are these.
  lemma ModeForType(t: MemoryType)
    ensures NeedsProgmode(t) <==> !Takes(t, false)
    ensures Takes(t, true)
  {
  }

  // Flash and EEPROM are reached through two memory types each.
  datatype Region = FlashRegion | EepromRegion | OtherRegion(t: MemoryType)

  function RegionOf(t: MemoryType): Region {
    match t
    case FlashPage | Spm => FlashRegion
    case EepromPage | Eeprom => EepromRegion
    case _ => OtherRegion(t)
  }

  // Splits an address into the memory type its space bits name and what is left of
  // it.  Code addresses keep all their bits.
  method MemorySpace(addr: nat, programming: bool) returns (t: MemoryType, rest: nat)
    ensures (t, rest) == SpaceOf(addr, programming)
  {
    rest := addr;
    var mask := 0;
    if Bit(rest, DATA_SPACE) != 0 {
      SpaceBitsFit(rest);
      mask := SpaceBits(rest);
      rest := rest - mask;
    }
    t := TypeOf(mask, programming);
  }

  function TypeOf(mask: nat, programming: bool): MemoryType {
    if mask == EEPROM_SPACE then (if programming then EepromPage else Eeprom)
    else if mask == FUSE_SPACE then FuseBits
    else if mask == LOCK_SPACE then LockBits
    else if mask == SIG_SPACE then Signature
    else if mask == BREAKPOINT_SPACE then Event
    else if mask == REGISTER_SPACE then XmegaRegister
    else if mask == DATA_SPACE then Sram
    else if programming then FlashPage
    else Spm
  }

  function SpaceOf(addr: nat, programming: bool): (MemoryType, nat) {
    var mask := if Bit(addr, DATA_SPACE) != 0 then SpaceBits(addr) else 0;
    SpaceBitsFit(addr);
    (TypeOf(mask, programming), addr - mask)
  }

  // Every space offset plus a 16-bit address comes apart into that space and that
  // address, and addresses below the data space are flash, all of their bits kept.
  lemma SpaceOfSplits(space: nat, a: nat, programming: bool)
    requires space in {EEPROM_SPACE, FUSE_SPACE, LOCK_SPACE, SIG_SPACE, BREAKPOINT_SPACE, REGISTER_SPACE, DATA_SPACE}
    requires a < 0x1_0000
    ensures SpaceOf(space + a, programming) == (TypeOf(space, programming), a)
  {
    hide SpaceBits;
    SpaceBitsOf(space, a);
    assert Bit(space + a, DATA_SPACE) == DATA_SPACE;
  }

  lemma CodeIsFlash(a: nat, programming: bool)
    requires a < DATA_SPACE
    ensures SpaceOf(a, programming) == (if programming then FlashPage else Spm, a)
  {
  }

  // The offset under which GDB and the rest of the program address a memory.
  function BaseOf(t: MemoryType): nat {
    match t
    case FlashPage | Spm => 0
    case Sram => 0x80_0000
    case Eeprom | EepromPage => 0x81_0000
    case FuseBits => 0x82_0000
    case LockBits => 0x83_0000
    case Signature => 0x84_0000
    case XmegaRegister => 0x85_0000
    case Event => 0x90_0000
  }

  // Byte a of a memory comes back as byte a of that memory; flash and EEPROM are
  // accessed by pages exactly in programming mode.
  lemma AddressRoundTrip(t: MemoryType, a: nat, programming: bool)
    requires if RegionOf(t) == FlashRegion then a < DATA_SPACE else a < 0x1_0000
    ensures var (u, rest) := SpaceOf(BaseOf(t) + a, programming);
      && rest == a && RegionOf(u) == RegionOf(t)
      && (RegionOf(t) in {FlashRegion, EepromRegion} ==> (u in {FlashPage, EepromPage} <==> programming))
  {
    hide SpaceOf;
    if RegionOf(t) == FlashRegion {
      CodeIsFlash(a, programming);
    } else {
      SpaceOfSplits(BaseOf(t), a, programming);
    }
  }

  // One debugged device behind an emulator that speaks JTAG.
  class Target {
    const flashPage: nat
    const eepromPage: nat
    const eesave: bool               // the fuse that keeps EEPROM through a chip erase
    var device: map<Region, Memory>
    var programming: bool
    const flashCache: PageReader
    const eepromCache: PageReader

    ghost predicate Valid()
      reads this
    {
      && flashPage in {32, 64, 128, 256, 512}
      && eepromPage in {1, 2, 4, 8, 16, 32}
      && flashCache != eepromCache && flashCache.cache != eepromCache.cache
      && flashCache.cache.Length == MAX_FLASH_PAGE_SIZE && eepromCache.cache.Length == MAX_EEPROM_PAGE_SIZE
    }

    constructor (flashPage: nat, eepromPage: nat, eesave: bool, device: map<Region, Memory>)
      requires flashPage in {32, 64, 128, 256, 512} && eepromPage in {1, 2, 4, 8, 16, 32}
      ensures Valid() && this.device == device && !programming
      ensures this.flashPage == flashPage && this.eepromPage == eepromPage && this.eesave == eesave
      ensures fresh(flashCache) && fresh(flashCache.cache) && fresh(eepromCache) && fresh(eepromCache.cache)
      ensures flashCache.base == NO_FLASH_PAGE && eepromCache.base == NO_EEPROM_PAGE
    {
      this.flashPage, this.eepromPage, this.eesave, this.device := flashPage, eepromPage, eesave, device;
      programming := false;
      flashCache := new PageReader(MAX_FLASH_PAGE_SIZE, NO_FLASH_PAGE);
      eepromCache := new PageReader(MAX_EEPROM_PAGE_SIZE, NO_EEPROM_PAGE);
    }

    function Mem(r: Region): Memory
      reads this
    {
      MemOf(device, r)
    }

    function PageSize(t: MemoryType): (size: nat) {
      match t
      case FlashPage => flashPage
      case EepromPage => eepromPage
      case _ => 0
    }

    function Reader(t: MemoryType): PageReader {
      if t == FlashPage then flashCache else eepromCache
    }

    // jtagRead.  The answer of a command that is not paged carries a status byte,
    // which the bytes are then moved over.
    method JtagRead(addr: nat, numBytes: nat) returns (response: array<byte>, overrun: bool)
      requires Valid()
      modifies this`programming, flashCache`base, flashCache.cache, eepromCache`base, eepromCache.cache
      ensures fresh(response) && programming == old(programming)
      ensures numBytes == 0 ==> response[..] == [0] && Caches() == old(Caches())
      ensures var (t, a) := SpaceOf(addr, programming);
        numBytes > 0 && PageSize(t) > 0 ==>
          PagedRead(Mem(RegionOf(t)), old(Reader(t).View()), Reader(t).View(), Min(PageSize(t), EMULATOR_MAX),
                    a, numBytes, response[..], overrun)
      ensures var t := SpaceOf(addr, programming).0;
        (t != FlashPage ==> flashCache.View() == old(flashCache.View())) &&
        (t != EepromPage ==> eepromCache.View() == old(eepromCache.View()))
      ensures var (t, a) := SpaceOf(addr, programming);
        numBytes > 0 && PageSize(t) == 0 ==> PlainRead(Mem(RegionOf(t)), t, a, numBytes, response[..]) && !overrun
    {
      overrun := false;
      hide NeedsProgmode, Takes;
      if numBytes == 0 {
        response := new byte[1];
        response[0] := 0;
        return;
      }
      var whichSpace, a := MemorySpace(addr, programming);
      ModeForType(whichSpace);
      var wasProgmode := programming;
      if NeedsProgmode(whichSpace) && !programming {
        programming := true;
      }
      var pageSize := PageSize(whichSpace);
      if pageSize > 0 {
        response, overrun := Reader(whichSpace).ReadPages(Mem(RegionOf(whichSpace)), a, numBytes, pageSize);
      } else {
        response := ReadPlain(whichSpace, a, numBytes);
      }
      if NeedsProgmode(whichSpace) && !wasProgmode {
        programming := false;
      }
    }

    // jtagWrite.  Pages go out whole, in chunks the emulator can take.  The read caches
    // are left as they are.
    method JtagWrite(addr: nat, buffer: array<byte>, numBytes: nat) returns (outcome: WriteOutcome)
      requires Valid() && numBytes <= buffer.Length
      modifies this`programming, this`device
      ensures var (t, a) := SpaceOf(addr, programming); var size := PageSize(t);
        device == Written(old(device), eesave, t, size, a, buffer[..numBytes]) &&
        (outcome == WriteDone <==> numBytes == 0 || size == 0 || numBytes == size)
      ensures programming == old(programming)
    {
      hide NeedsProgmode, Takes, SpaceBits, Store;
      if numBytes == 0 {
        return WriteDone;
      }
      var whichSpace, a := MemorySpace(addr, programming);
      ModeForType(whichSpace);
      if whichSpace == Spm && a == 0 && numBytes > 4 {
        EraseProgramMemory();
      }
      var wasProgmode := programming;
      if NeedsProgmode(whichSpace) && !programming {
        programming := true;
      }
      var pageSize := PageSize(whichSpace);
      var chunk := numBytes;
      if pageSize > 0 {
        a := PageOf(a, pageSize);
        if numBytes != pageSize {
          return WrongPageSize;
        }
        chunk := Min(pageSize, EMULATOR_MAX);
      }
      WriteChunks(whichSpace, a, buffer, numBytes, chunk);
      if NeedsProgmode(whichSpace) && !wasProgmode {
        programming := false;
      }
      outcome := WriteDone;
    }

    method EraseProgramMemory()
      modifies this`device
      ensures device == Erased(old(device), eesave)
    {
      device := Erased(device, eesave);
    }

    // One write command for each chunk.
    method WriteChunks(t: MemoryType, addr: nat, buffer: array<byte>, numBytes: nat, chunk: nat)
      requires Takes(t, programming) && 0 < chunk <= numBytes <= buffer.Length && numBytes in {chunk, 2 * chunk}
      modifies this`device
      ensures device == Stored(old(device), RegionOf(t), addr, buffer[..numBytes])
    {
      var a, left, bp := addr, numBytes, 0;
      var r := RegionOf(t);
      ghost var was := Mem(r);
      assert buffer[..0] == [] && Store(was, addr, []) == was;
      hide Store, At;
      while true
        invariant left in {chunk, 2 * chunk} && bp + left == numBytes && a == addr + bp
        invariant Mem(r) == Store(was, addr, buffer[..bp])
        invariant bp == 0 ==> device == old(device)
        invariant bp > 0 ==> device == old(device)[r := Mem(r)]
        decreases left
      {
        StoreConcat(was, addr, buffer[..bp], buffer[bp..bp + chunk]);
        assert buffer[..bp] + buffer[bp..bp + chunk] == buffer[..bp + chunk];
        device := Stored(device, r, a, buffer[bp..bp + chunk]);
        a, left, bp := a + chunk, left - chunk, bp + chunk;
        if left == 0 {
          break;
        }
      }
    }

    ghost function Caches(): (Cache, Cache)
      reads flashCache, flashCache.cache, eepromCache, eepromCache.cache
    {
      (flashCache.View(), eepromCache.View())
    }

    // The emulator's answer to a read: a status byte and the bytes.
    function ReadCommand(r: Region, a: nat, n: nat): (answer: seq<byte>)
      reads this
      ensures |answer| == n + 1 && forall i | 1 <= i <= n :: answer[i] == At(Mem(r), a + i - 1)
    {
      [RSP_MEMORY] + Bytes(Mem(r), a, n)
    }

    // The branch that is not paged: one command.  Flash is read in whole words.
    method ReadPlain(t: MemoryType, addr: nat, count: nat) returns (response: array<byte>)
      requires count > 0 && Takes(t, programming)
      ensures fresh(response) && PlainRead(Mem(RegionOf(t)), t, addr, count, response[..])
    {
      var offset, a, n := 0, addr, count;
      if t == Spm {
        offset := addr % 2;
        a := addr - offset;
        n := count + count % 2;
      }
      ghost var m := Mem(RegionOf(t));
      var answer := ReadCommand(RegionOf(t), a, n);
      response := new byte[n + 1](i requires 0 <= i <= n => answer[i]);
      forall i | 0 <= i < n - offset {
        response[i] := answer[1 + offset + i];
      }
      MovedAnswer(m, t, addr, count, offset, n, response[..]);
    }
  }

  // What a chip erase leaves: no flash, no lock bits, and no EEPROM unless the fuse
  // keeps it.
  function Erased(device: map<Region, Memory>, eesave: bool): map<Region, Memory> {
    var d := device[FlashRegion := map[]][OtherRegion(LockBits) := map[]];
    if eesave then d else d[EepromRegion := map[]]
  }

  function MemOf(device: map<Region, Memory>, r: Region): Memory {
    if r in device then device[r] else map[]
  }

  // Stores data in one memory of the device.
  function Stored(device: map<Region, Memory>, r: Region, a: nat, data: seq<byte>): map<Region, Memory> {
    device[r := Store(MemOf(device, r), a, data)]
  }

  // The device after a write of data at addr: a whole page at the page's start in a
  // paged memory, and the bytes where they belong otherwise; a write that looks like
  // the start of a GDB load erases the chip first.
  function Written(device: map<Region, Memory>, eesave: bool, t: MemoryType, pageSize: nat, a: nat,
                   data: seq<byte>): map<Region, Memory>
  {
    if data == [] || (pageSize > 0 && |data| != pageSize) then device
    else if pageSize > 0 then Stored(device, RegionOf(t), PageOf(a, pageSize), data)
    else if t == Spm && a == 0 && |data| > 4 then Stored(Erased(device, eesave), RegionOf(t), a, data)
    else Stored(device, RegionOf(t), a, data)
  }

  // What that means byte by byte: byte x of memory r afterwards, which is a byte of the
  // data, what the byte was, or what a chip erase leaves of it.
  lemma WrittenByte(device: map<Region, Memory>, eesave: bool, t: MemoryType, pageSize: nat, a: nat,
                    data: seq<byte>, r: Region, x: nat)
    requires data != [] && (pageSize > 0 ==> |data| == pageSize)
    ensures var start := if pageSize > 0 then a - a % pageSize else a;
      var erased := pageSize == 0 && t == Spm && a == 0 && |data| > 4;
      At(MemOf(Written(device, eesave, t, pageSize, a, data), r), x) ==
        if r == RegionOf(t) && start <= x < start + |data| then data[x - start]
        else if erased && (r == FlashRegion || r == OtherRegion(LockBits) || (r == EepromRegion && !eesave)) then 0xff
        else At(MemOf(device, r), x)
  {
    if pageSize > 0 {
      PageOfIsRemainder(a, pageSize);
    }
  }

  // The memories of two types are one exactly for the two types of flash and of EEPROM.
  lemma RegionsApart(t: MemoryType, u: MemoryType)
    ensures RegionOf(t) == RegionOf(u) <==>
            t == u || {t, u} == {Spm, FlashPage} || {t, u} == {Eeprom, EepromPage}
  {
  }

  // Reading back what a write that is not paged stored gives the data, but for the byte
  // that is never fetched.
  lemma WrittenIsReadBack(device: map<Region, Memory>, eesave: bool, t: MemoryType, a: nat, data: seq<byte>,
                          response: seq<byte>)
    requires data != []
    requires PlainRead(MemOf(Written(device, eesave, t, 0, a, data), RegionOf(t)), t, a, |data|, response)
    ensures !(t == Spm && a % 2 == 1 && |data| % 2 == 0) ==> response[..|data|] == data
    ensures t == Spm && a % 2 == 1 && |data| % 2 == 0 ==> response[..|data| - 1] == data[..|data| - 1]
  {
    var m := MemOf(Written(device, eesave, t, 0, a, data), RegionOf(t));
    hide Written;
    forall i: nat | i < |data|
      ensures At(m, a + i) == data[i]
    {
      WrittenByte(device, eesave, t, 0, a, data, RegionOf(t), a + i);
    }
    if t == Spm && a % 2 == 1 && |data| % 2 == 0 {
      assert response[..|data| - 1] == response[..|data|][..|data| - 1];
    }
  }

  // A page that was written comes back from the device, until something is cached.
  lemma WrittenPageIsReadBack(device: map<Region, Memory>, eesave: bool, t: MemoryType, size: nat, a: nat,
                              data: seq<byte>)
    requires size > 0 && |data| == size
    ensures Bytes(MemOf(Written(device, eesave, t, size, a, data), RegionOf(t)), a - a % size, size) == data
  {
    hide Written;
    forall i: nat | i < size
      ensures At(MemOf(Written(device, eesave, t, size, a, data), RegionOf(t)), a - a % size + i) == data[i]
    {
      WrittenByte(device, eesave, t, size, a, data, RegionOf(t), a - a % size + i);
    }
  }

  datatype WriteOutcome = WriteDone | WrongPageSize

  const RSP_MEMORY: byte := 0x82

  // What a read that is not paged answers, in its first count bytes.  The last byte
  // of an even number read from an odd flash address is never fetched.
  predicate PlainRead(m: Memory, t: MemoryType, addr: nat, count: nat, response: seq<byte>)
    requires count > 0
  {
    && count < |response|
    && if t == Spm && addr % 2 == 1 && count % 2 == 0 then
         response[..count] == Bytes(m, addr, count - 1) + [At(m, addr + count - 3)]
       else
         response[..count] == Bytes(m, addr, count)
  }

  // Exactly when the answer is the bytes asked for.
  lemma PlainReadIsRight(m: Memory, t: MemoryType, addr: nat, count: nat, response: seq<byte>)
    requires count > 0 && PlainRead(m, t, addr, count, response)
    ensures response[..count] == Bytes(m, addr, count) <==>
            !(t == Spm && addr % 2 == 1 && count % 2 == 0) || At(m, addr + count - 3) == At(m, addr + count - 1)
  {
    if t == Spm && addr % 2 == 1 && count % 2 == 0 {
      assert Bytes(m, addr, count) == Bytes(m, addr, count - 1) + [At(m, addr + (count - 1))];
      assert response[..count][count - 1] == At(m, addr + count - 3);
    }
  }

  // The bytes after the move: those that were fetched, and the last one where the move
  // left it.
  lemma MovedAnswer(m: Memory, t: MemoryType, addr: nat, count: nat, offset: nat, n: nat, response: seq<byte>)
    requires 0 < count < |response|
    requires if t == Spm then offset == addr % 2 && n == count + count % 2 else offset == 0 && n == count
    requires forall i: nat | i < n - offset && i < |response| :: response[i] == At(m, addr + i)
    requires offset == 1 && n == count ==> response[count - 1] == At(m, addr + count - 3)
    ensures PlainRead(m, t, addr, count, response)
  {
  }
}
