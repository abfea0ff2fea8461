// Writing an image to the target and checking it (src/jtaggeneric.cc,
// src/jtag2prog.cc).

module Programming {
  import opened Common
  import opened PageAccess
  import opened Spaces
  import opened TargetMemory
  import opened Image

  function TypeFor(t: BfdMemoryType): MemoryType {
    if t == MemFlash then FlashPage else EepromPage
  }

  function RegionFor(t: BfdMemoryType): Region {
    RegionOf(TypeFor(t))
  }

  // How many bytes of a memory can be addressed, or imaged.
  function Room(t: BfdMemoryType): nat {
    if t == MemFlash then MAX_IMAGE_SIZE else 0x1_0000
  }

  // Nothing in the page needs writing: it holds no byte of the image but 0xff in flash.
  predicate Blank(contents: Memory, page: nat, size: nat, t: BfdMemoryType) {
    forall c: nat | c in contents && page <= c < page + size :: t == MemFlash && contents[c] == 0xff
  }

  // A byte of the image; the gaps are zero.
  function Val(contents: Memory, a: nat): byte { if a in contents then contents[a] else 0 }

  function PageBytes(contents: Memory, page: nat, size: nat): (s: seq<byte>)
    ensures |s| == size && forall i :: 0 <= i < size ==> s[i] == Val(contents, page + i)
  {
    seq(size, i requires 0 <= i < size => Val(contents, page + i))
  }

  // The pages below stop that are not blank hold the image, gaps included; all else is
  // as it was.
  ghost predicate ProgrammedTo(before: Memory, after: Memory, contents: Memory, size: nat, t: BfdMemoryType, stop: nat)
    requires size > 0
  {
    forall a: nat :: At(after, a) ==
      if a < stop && !Blank(contents, PageOf(a, size), size, t) then Val(contents, a) else At(before, a)
  }

  ghost predicate Programmed(before: Memory, after: Memory, contents: Memory, size: nat, t: BfdMemoryType)
    requires size > 0
  {
    forall a: nat :: At(after, a) ==
      if !Blank(contents, PageOf(a, size), size, t) then Val(contents, a) else At(before, a)
  }

  predicate Holds(m: Memory, contents: Memory) {
    forall c: nat | c in contents :: At(m, c) == contents[c]
  }

  // Every byte of the image that the program pass may skip is blank in the device.
  predicate SkippedAreBlank(m: Memory, contents: Memory, size: nat, t: BfdMemoryType)
    requires size > 0
  {
    forall c: nat | c in contents && Blank(contents, PageOf(c, size), size, t) :: At(m, c) == 0xff
  }

  // Programming stores the image exactly when the bytes of the pages it skips are
  // already blank in the device; in EEPROM, where no byte is skipped, always.
  lemma ProgrammedHolds(before: Memory, after: Memory, contents: Memory, size: nat, t: BfdMemoryType)
    requires size > 0 && Programmed(before, after, contents, size, t)
    ensures Holds(after, contents) <==> SkippedAreBlank(before, contents, size, t)
    ensures t == MemEeprom ==> Holds(after, contents)
  {
  }

  // Byte a after a program pass: what it was if its page holds no byte of the image, or
  // in flash none but 0xff; else the image's byte, or zero in a gap.
  lemma ProgrammedByte(before: Memory, after: Memory, contents: Memory, size: nat, t: BfdMemoryType, a: nat)
    requires size > 0 && Programmed(before, after, contents, size, t)
    ensures At(after, a) ==
      if exists c :: c in contents && a - a % size <= c < a - a % size + size && !(t == MemFlash && contents[c] == 0xff)
      then if a in contents then contents[a] else 0
      else At(before, a)
  {
    PageOfIsRemainder(a, size);
  }

  lemma NoneProgrammed(m: Memory, contents: Memory, size: nat, t: BfdMemoryType, start: nat)
    requires size > 0 && IsPage(start, size) && forall c: nat | c in contents :: start <= c
    ensures ProgrammedTo(m, m, contents, size, t, start)
  {
    forall a: nat | a < start
      ensures Blank(contents, PageOf(a, size), size, t)
    {
      PagesDoNotOverlap(a, start, size);
    }
  }

  lemma {:induction false} PagesDoNotOverlap(a: nat, page: nat, size: nat)
    requires size > 0 && IsPage(page, size) && a < page
    ensures PageOf(a, size) + size <= page
    decreases page
  {
    if a >= size {
      PagesDoNotOverlap(a - size, page - size, size);
    }
  }

  lemma PageProgrammed(before: Memory, m: Memory, contents: Memory, size: nat, t: BfdMemoryType, page: nat,
                       after: Memory)
    requires size > 0 && IsPage(page, size) && ProgrammedTo(before, m, contents, size, t, page)
    requires if Blank(contents, page, size, t) then after == m
             else after == Store(m, page, PageBytes(contents, page, size))
    ensures ProgrammedTo(before, after, contents, size, t, page + size)
  {
    hide PageOf, Blank, PageBytes, Store;
    forall a: nat
      ensures At(after, a) ==
        if a < page + size && !Blank(contents, PageOf(a, size), size, t) then Val(contents, a) else At(before, a)
    {
      if page <= a < page + size {
        PageIsUnique(page, a, size);
      }
    }
  }

  lemma AllProgrammed(before: Memory, after: Memory, contents: Memory, size: nat, t: BfdMemoryType, stop: nat)
    requires size > 0 && IsPage(stop, size) && ProgrammedTo(before, after, contents, size, t, stop)
    requires forall c: nat | c in contents :: c < stop
    ensures Programmed(before, after, contents, size, t)
  {
    forall a: nat | a >= stop
      ensures Blank(contents, PageOf(a, size), size, t)
    {
      if PageOf(a, size) < stop {
        PageOfIsPage(a, size);
        PagesDoNotOverlap(PageOf(a, size), stop, size);
      }
    }
  }

  // pageIsEmpty.
  method PageIsEmpty(image: BfdImage, addr: nat, size: nat, t: BfdMemoryType) returns (empty: bool)
    requires image.Valid()
    ensures empty <==> Blank(image.Contents(), addr, size, t)
  {
    ghost var contents := image.Contents();
    empty := true;
    var idx := addr;
    while idx < addr + size
      invariant addr <= idx <= addr + size
      invariant empty && Blank(contents, addr, idx - addr, t)
    {
      if idx >= image.lastAddress {
        break;
      }
      if image.image[idx].used {
        assert idx in contents;
        if !(t == MemFlash && image.image[idx].val == 0xff) {
          empty := false;
          break;
        }
      }
      idx := idx + 1;
    }
  }

  // What the method below needs of an image: data, and room for its last page.
  ghost predicate Ready(target: Target, image: BfdImage, t: BfdMemoryType)
    reads target, image, image.image
  {
    && target.Valid() && target.programming && image.Valid()
    && (image.lastAddress > 0 ==>
          var size := target.PageSize(TypeFor(t)); PageOf(image.lastAddress - 1, size) + size <= Room(t))
  }

  lemma PageFits(last: nat, page: nat, size: nat)
    requires size > 0 && IsPage(page, size) && page < last
    ensures page <= PageOf(last - 1, size)
  {
    if PageOf(last - 1, size) < page {
      PagesDoNotOverlap(PageOf(last - 1, size), page, size);
      PageOfIsPage(last - 1, size);
    }
  }

  // The page as it is in the image, used or not.
  method RawPage(image: BfdImage, addr: nat, size: nat) returns (buf: array<byte>)
    requires image.Valid() && addr + size <= image.image.Length
    ensures fresh(buf) && buf[..] == PageBytes(image.Contents(), addr, size)
  {
    buf := new byte[size];
    for i := 0 to size
      modifies buf
      invariant buf[..i] == PageBytes(image.Contents(), addr, i)
    {
      buf[i] := image.image[i + addr].val;
    }
    assert buf[..size] == buf[..];
  }

  method ProgramPage(target: Target, image: BfdImage, t: BfdMemoryType, addr: nat)
    requires Ready(target, image, t) && addr < image.lastAddress && IsPage(addr, target.PageSize(TypeFor(t)))
    modifies target`programming, target`device
    ensures target.programming
    ensures var size := target.PageSize(TypeFor(t)); var r := RegionFor(t); var c := image.Contents();
      target.device == if Blank(c, addr, size, t) then old(target.device)
                       else Stored(old(target.device), r, addr, PageBytes(c, addr, size))
  {
    hide SpaceOf, Blank, PageBytes, Store;
    var size := target.PageSize(TypeFor(t));
    var empty := PageIsEmpty(image, addr, size, t);
    if !empty {
      PageFits(image.lastAddress, addr, size);
      var buf := RawPage(image, addr, size);
      AddressSplits(addr, t);
      var _ := target.JtagWrite(Offset(t) + addr, buf, size);
      assert buf[..size] == buf[..];
    }
  }

  lemma AddressSplits(addr: nat, t: BfdMemoryType)
    requires addr < Room(t)
    ensures SpaceOf(Offset(t) + addr, true) == (TypeFor(t), addr)
  {
  }

  ghost predicate OnlyChanged(before: map<Region, Memory>, after: map<Region, Memory>, r: Region) {
    forall q | q != r :: MemOf(after, q) == MemOf(before, q)
  }

  // The program pass.
  method ProgramImage(target: Target, image: BfdImage, t: BfdMemoryType)
    requires Ready(target, image, t)
    modifies target`programming, target`device
    ensures target.programming && OnlyChanged(old(target.device), target.device, RegionFor(t))
    ensures Programmed(old(target.Mem(RegionFor(t))), target.Mem(RegionFor(t)), image.Contents(),
                       target.PageSize(TypeFor(t)), t)
  {
    hide PageOf, Programmed, ProgrammedTo, Blank, Store, PageBytes, At;
    var size := target.PageSize(TypeFor(t));
    ghost var contents := image.Contents();
    ghost var before := target.Mem(RegionFor(t));
    var addr := PageOf(image.firstAddress, size);
    PageOfIsPage(image.firstAddress, size);
    NoneProgrammed(before, contents, size, t, addr);
    while addr < image.lastAddress
      invariant target.programming && IsPage(addr, size)
      invariant OnlyChanged(old(target.device), target.device, RegionFor(t))
      invariant ProgrammedTo(before, target.Mem(RegionFor(t)), contents, size, t, addr)
      decreases image.lastAddress - addr
    {
      ghost var m := target.Mem(RegionFor(t));
      ProgramPage(target, image, t, addr);
      PageProgrammed(before, m, contents, size, t, addr, target.Mem(RegionFor(t)));
      NextIsPage(addr, size);
      addr := addr + size;
    }
    AllProgrammed(before, target.Mem(RegionFor(t)), contents, size, t, addr);
  }

  // The bytes of the image below stop are the ones a read sees.
  predicate SeenTo(m: Memory, c: Cache, cap: nat, start: nat, contents: Memory, stop: nat)
    requires cap <= |c.data|
  {
    forall a: nat | a in contents && a < stop :: Seen(m, c, cap, start, a) == contents[a]
  }

  predicate SamePage(contents: Memory, addr: nat, response: seq<byte>) {
    forall a: nat | a in contents && addr <= a < addr + |response| :: response[a - addr] == contents[a]
  }

  // Only bytes in use are compared.
  method VerifyPage(image: BfdImage, addr: nat, size: nat, response: array<byte>) returns (same: bool)
    requires image.Valid() && addr + size <= image.image.Length && response.Length == size
    ensures same <==> SamePage(image.Contents(), addr, response[..])
  {
    ghost var contents := image.Contents();
    same := true;
    for i := 0 to size
      invariant same <==> SamePage(contents, addr, response[..i])
    {
      var c := i + addr;
      if image.image[c].used {
        assert c in contents;
        if image.image[c].val != response[i] {
          same := false;
        }
      }
      assert response[..i + 1] == response[..i] + [response[i]];
    }
    assert response[..size] == response[..];
  }

  // Pages after the first are always read from the device.
  lemma PageSeen(m: Memory, c: Cache, now: Cache, cap: nat, start: nat, addr: nat, size: nat,
                 response: seq<byte>, contents: Memory)
    requires cap <= |c.data| && cap <= |now.data| && cap <= size == |response|
    requires response == SeenBytes(m, now, cap, addr, addr, size)
    requires (now == c && addr == start) || (now.base != addr && addr >= start + cap)
    ensures SeenTo(m, c, cap, start, contents, addr + size) <==>
            SeenTo(m, c, cap, start, contents, addr) &&
            SamePage(contents, addr, response)
  {
    forall a: nat | addr <= a < addr + size
      ensures response[a - addr] == Seen(m, c, cap, start, a)
    {
      assert response[a - addr] == Seen(m, now, cap, addr, addr + (a - addr));
    }
  }

  function Cap(size: nat): nat { Min(size, EMULATOR_MAX) }

  method ReadPage(target: Target, t: BfdMemoryType, addr: nat) returns (response: array<byte>)
    requires target.Valid() && target.programming
    requires IsPage(addr, target.PageSize(TypeFor(t))) && addr < Room(t)
    modifies target`programming, target.flashCache`base, target.flashCache.cache,
             target.eepromCache`base, target.eepromCache.cache
    ensures fresh(response) && target.programming
    ensures var size := target.PageSize(TypeFor(t));
      response[..] ==
      SeenBytes(target.Mem(RegionFor(t)), old(target.Reader(TypeFor(t)).View()), Cap(size), addr, addr, size)
    ensures target.Reader(TypeFor(t)).base + Cap(target.PageSize(TypeFor(t))) == addr + target.PageSize(TypeFor(t))
    ensures forall o | o != t :: target.Reader(TypeFor(o)).View() == old(target.Reader(TypeFor(o)).View())
  {
    hide PageOf, SeenBytes, SpaceOf, Copied, Overruns;
    var size := target.PageSize(TypeFor(t));
    ghost var c := target.Reader(TypeFor(t)).View();
    AddressSplits(addr, t);
    ChunkIsPage(addr, size);
    var overrun;
    response, overrun := target.JtagRead(Offset(t) + addr, size);
    AlignedReadIsSeen(target.Mem(RegionFor(t)), c, target.Reader(TypeFor(t)).View(), Cap(size), addr, size,
                      response[..], overrun);
  }

  // A page starts an emulator page, and its last byte lies in an emulator page that
  // ends with it.
  lemma ChunkIsPage(addr: nat, size: nat)
    requires size in {1, 2, 4, 8, 16, 32, 64, 128, 256, 512} && IsPage(addr, size)
    ensures IsPage(addr, Cap(size)) && PageOf(addr + size - 1, Cap(size)) + Cap(size) == addr + size
  {
    if size == 2 * EMULATOR_MAX {
      BigPageIsPage(addr);
      NextIsPage(addr, EMULATOR_MAX);
    }
    PageIsUnique(addr + size - Cap(size), addr + size - 1, Cap(size));
  }

  // The verify pass, as far as its answer goes.
  method VerifyImage(target: Target, image: BfdImage, t: BfdMemoryType) returns (verified: bool)
    requires Ready(target, image, t) && image.hasData
    modifies target`programming, target.flashCache`base, target.flashCache.cache,
             target.eepromCache`base, target.eepromCache.cache
    ensures target.programming
    ensures forall o | o != t :: target.Reader(TypeFor(o)).View() == old(target.Reader(TypeFor(o)).View())
    ensures var size := target.PageSize(TypeFor(t)); var c := old(target.Reader(TypeFor(t)).View());
      verified <==> SeenTo(target.Mem(RegionFor(t)), c, Cap(size), PageOf(image.firstAddress, size),
                           image.Contents(), image.lastAddress)
  {
    hide PageOf, SeenTo, Seen, SeenBytes, SamePage;
    var size := target.PageSize(TypeFor(t));
    ghost var m, contents, c := target.Mem(RegionFor(t)), image.Contents(), target.Reader(TypeFor(t)).View();
    verified := true;
    var addr := PageOf(image.firstAddress, size);
    ghost var start := addr;
    PageOfIsPage(image.firstAddress, size);
    NoneSeen(m, c, Cap(size), start, contents);
    while addr < image.lastAddress
      invariant target.programming && IsPage(addr, size)
      invariant forall o | o != t :: target.Reader(TypeFor(o)).View() == old(target.Reader(TypeFor(o)).View())
      invariant addr == start ==> target.Reader(TypeFor(t)).View() == c
      invariant addr != start ==> start + size <= addr && target.Reader(TypeFor(t)).base + Cap(size) == addr
      invariant verified <==> SeenTo(m, c, Cap(size), start, contents, addr)
      decreases image.lastAddress - addr
    {
      PageFits(image.lastAddress, addr, size);
      ghost var now := target.Reader(TypeFor(t)).View();
      var response := ReadPage(target, t, addr);
      var same := VerifyPage(image, addr, size, response);
      PageSeen(m, c, now, Cap(size), start, addr, size, response[..], contents);
      verified := verified && same;
      NextIsPage(addr, size);
      addr := addr + size;
    }
    SeenToEnd(m, c, Cap(size), start, contents, image.lastAddress, addr);
  }

  lemma NoneSeen(m: Memory, c: Cache, cap: nat, start: nat, contents: Memory)
    requires cap <= |c.data| && forall a: nat | a in contents :: start <= a
    ensures SeenTo(m, c, cap, start, contents, start)
  {
  }

  lemma SeenToEnd(m: Memory, c: Cache, cap: nat, start: nat, contents: Memory, last: nat, stop: nat)
    requires cap <= |c.data| && last <= stop && forall a: nat | a in contents :: a < last
    ensures SeenTo(m, c, cap, start, contents, stop) <==> SeenTo(m, c, cap, start, contents, last)
  {
  }

  // Every byte of the image is the one a verify pass that starts on page start sees.
  predicate AllSeen(m: Memory, c: Cache, cap: nat, start: nat, contents: Memory)
    requires cap <= |c.data|
  {
    forall a: nat | a in contents :: Seen(m, c, cap, start, a) == contents[a]
  }

  // The cache is not the first page's, or is true to the device at the addresses in use.
  predicate FirstPageTrue(m: Memory, c: Cache, cap: nat, start: nat, used: set<nat>)
    requires cap <= |c.data|
  {
    c.base == start ==> forall a | a in used && start <= a < start + cap :: c.data[a - start] == At(m, a)
  }

  // Then the answer is right: the image verifies exactly when the device holds it.
  lemma VerifiedIsHeld(m: Memory, c: Cache, cap: nat, start: nat, contents: Memory)
    requires cap <= |c.data| && FirstPageTrue(m, c, cap, start, contents.Keys)
    ensures AllSeen(m, c, cap, start, contents) <==> Holds(m, contents)
  {
    forall a: nat | a in contents
      ensures Seen(m, c, cap, start, a) == At(m, a)
    {
      assert a in contents.Keys;
    }
  }

  // And only then is it right for every image with these addresses in use.
  lemma VerifiedIsHeldExactly(m: Memory, c: Cache, cap: nat, start: nat, used: set<nat>)
    requires cap <= |c.data|
    ensures FirstPageTrue(m, c, cap, start, used) <==>
            forall contents: Memory | contents.Keys == used ::
              AllSeen(m, c, cap, start, contents) <==> Holds(m, contents)
  {
    if FirstPageTrue(m, c, cap, start, used) {
      forall contents: Memory | contents.Keys == used
        ensures AllSeen(m, c, cap, start, contents) <==> Holds(m, contents)
      {
        VerifiedIsHeld(m, c, cap, start, contents);
      }
    } else {
      var a :| a in used && start <= a < start + cap && c.data[a - start] != At(m, a);
      var contents: Memory := map x | x in used :: At(m, x);
      assert contents.Keys == used && Holds(m, contents);
      assert a in contents && Seen(m, c, cap, start, a) != contents[a];
    }
  }

  datatype Outcome = Done | VerificationFailed(t: BfdMemoryType)

  function SizeOf(target: Target, t: BfdMemoryType): nat { target.PageSize(TypeFor(t)) }

  ghost function ViewOf(target: Target, t: BfdMemoryType): Cache
    reads target.flashCache, target.flashCache.cache, target.eepromCache, target.eepromCache.cache
  {
    target.Reader(TypeFor(t)).View()
  }

  // What flashing an image does to its memory, and what it answers, given the read
  // cache c it starts from and the page it starts on.
  ghost predicate Flashed(before: Memory, after: Memory, c: Cache, contents: Memory, start: nat, size: nat,
                          t: BfdMemoryType, program: bool, verify: bool, ok: bool)
    requires size > 0
  {
    && (if program then Programmed(before, after, contents, size, t) else after == before)
    && Cap(size) <= |c.data|
    && (ok <==> verify ==> AllSeen(after, c, Cap(size), start, contents))
  }

  // The cache of a new connection.
  predicate NewCache(c: Cache) { |c.data| == MAX_FLASH_PAGE_SIZE && c.base == NO_FLASH_PAGE }

  // A byte is read by pages on a new connection, then its page is written: the verify
  // pass fails although the device holds the image.
  lemma VerifyMisled(size: nat, empty: Cache)
    returns (before: Memory, after: Memory, response: seq<byte>, c: Cache, contents: Memory)
    requires size in {32, 64, 128, 256, 512} && NewCache(empty)
    ensures |c.data| == MAX_FLASH_PAGE_SIZE && PagedRead(before, empty, c, Cap(size), 0, 1, response, false)
    ensures Flashed(before, after, c, contents, 0, size, MemFlash, true, true, false) && Holds(after, contents)
  {
    before, contents := map[], map[0 := 1];
    c := Cache(Bytes(before, 0, Cap(size)) + empty.data[Cap(size)..], 0);
    response := [At(before, 0)];
    FirstByteRead(before, empty, c, Cap(size));
    after := Store(before, 0, PageBytes(contents, 0, size));
    NoneProgrammed(before, contents, size, MemFlash, 0);
    PageProgrammed(before, before, contents, size, MemFlash, 0, after);
    NextIsPage(0, size);
    AllProgrammed(before, after, contents, size, MemFlash, size);
    assert At(after, 0) == PageBytes(contents, 0, size)[0] == 1;
    assert Seen(after, c, Cap(size), 0, 0) == 0xff && 0 in contents;
  }

  lemma FirstByteRead(m: Memory, empty: Cache, c: Cache, size: nat)
    requires 0 < size <= |empty.data| && empty.base != 0 && c == Cache(Bytes(m, 0, size) + empty.data[size..], 0)
    ensures PagedRead(m, empty, c, size, 0, 1, [At(m, 0)], false)
  {
  }

  // The page the passes start on.
  function StartOf(first: Option<nat>, size: nat): nat
    requires size > 0
  {
    if first.None? then 0 else PageOf(first.value, size)
  }

  // It is that of the lowest address a section of this memory has.
  lemma PassStarts(sections: seq<Section>, t: BfdMemoryType, size: nat, s: Section)
    requires size > 0 && s in sections && SectionAddr(s, t).Some?
    requires forall o | o in sections && SectionAddr(o, t).Some? ::
      SectionAddr(s, t).value <= SectionAddr(o, t).value
    ensures var a := SectionAddr(s, t).value; StartOf(FirstAddr(sections, t), size) == a - a % size
  {
    hide FirstAddr, SectionAddr;
    FirstAddrIsLowest(sections, t);
    assert FirstAddr(sections, t) == SectionAddr(s, t);
    PageOfIsRemainder(SectionAddr(s, t).value, size);
    hide PageOf;
  }

  // jtag_flash_image.
  method FlashImage(target: Target, image: BfdImage, t: BfdMemoryType, program: bool, verify: bool)
      returns (outcome: Outcome)
    requires Ready(target, image, t)
    modifies target`programming, target`device, target.flashCache`base, target.flashCache.cache,
             target.eepromCache`base, target.eepromCache.cache
    ensures target.programming && OnlyChanged(old(target.device), target.device, RegionFor(t))
    ensures forall o | o != t :: ViewOf(target, o) == old(ViewOf(target, o))
    ensures outcome in {Done, VerificationFailed(t)}
    ensures Flashed(old(target.Mem(RegionFor(t))), target.Mem(RegionFor(t)), old(ViewOf(target, t)), image.Contents(),
                    StartOf(image.First(), SizeOf(target, t)), SizeOf(target, t), t, program, verify, outcome == Done)
  {
    hide AllSeen, SeenTo, Programmed, PageOf, Blank;
    ghost var before, c, size := target.Mem(RegionFor(t)), ViewOf(target, t), SizeOf(target, t);
    ghost var contents := image.Contents();
    if !image.hasData {
      assert contents == map[];
      NothingToFlash(before, c, size, t);
      return Done;
    }
    if program {
      ProgramImage(target, image, t);
    }
    outcome := Done;
    if verify {
      var verified := VerifyImage(target, image, t);
      if !verified {
        outcome := VerificationFailed(t);
      }
      SeenToLast(target.Mem(RegionFor(t)), c, Cap(size), PageOf(image.firstAddress, size), contents, image.lastAddress);
    }
  }

  lemma NothingToFlash(m: Memory, c: Cache, size: nat, t: BfdMemoryType)
    requires size > 0 && Cap(size) <= |c.data|
    ensures Programmed(m, m, map[], size, t) && AllSeen(m, c, Cap(size), 0, map[])
  {
  }

  lemma SeenToLast(m: Memory, c: Cache, cap: nat, start: nat, contents: Memory, last: nat)
    requires cap <= |c.data| && forall a: nat | a in contents :: a < last
    ensures SeenTo(m, c, cap, start, contents, last) <==> AllSeen(m, c, cap, start, contents)
  {
  }

  // Every section fits a memory, rounded up to whole pages.
  predicate AllFit(sections: seq<Section>, t: BfdMemoryType, size: nat)
    requires size > 0
  {
    forall s | s in sections :: FitsPages(s, t, size)
  }

  predicate FitsPages(s: Section, t: BfdMemoryType, size: nat)
    requires size > 0
  {
    var a := SectionAddr(s, t);
    a.Some? ==> EndFits(a.value + |s.contents|, t, size)
  }

  predicate EndFits(last: nat, t: BfdMemoryType, size: nat)
    requires size > 0
  {
    last <= MAX_IMAGE_SIZE && (last > 0 ==> PageOf(last - 1, size) + size <= Room(t))
  }

  ghost predicate Collected(image: BfdImage, sections: seq<Section>, t: BfdMemoryType, size: nat)
    requires size > 0
    reads image, image.image
  {
    && image.Valid() && image.Contents() == Overlay(sections, t) && image.First() == FirstAddr(sections, t)
    && EndFits(image.lastAddress, t, size)
  }

  method CollectSection(image: BfdImage, ghost before: seq<Section>, s: Section, t: BfdMemoryType, ghost size: nat)
    requires size > 0 && Collected(image, before, t, size) && FitsPages(s, t, size)
    modifies image, image.image
    ensures Collected(image, before + [s], t, size)
  {
    hide PageOf, Store;
    assert (before + [s])[..|before|] == before;
    image.CreateImage(s, t);
  }

  // The loop over the sections of the file.
  method CollectImages(sections: seq<Section>, ghost flashSize: nat, ghost eepromSize: nat)
      returns (flash: BfdImage, eeprom: BfdImage)
    requires flashSize > 0 && AllFit(sections, MemFlash, flashSize)
    requires eepromSize > 0 && AllFit(sections, MemEeprom, eepromSize)
    ensures fresh(flash) && fresh(flash.image) && Collected(flash, sections, MemFlash, flashSize)
    ensures fresh(eeprom) && fresh(eeprom.image) && Collected(eeprom, sections, MemEeprom, eepromSize)
  {
    hide Collected, FitsPages;
    flash := new BfdImage();
    NoneCollected(flash, MemFlash, flashSize);
    eeprom := new BfdImage();
    NoneCollected(eeprom, MemEeprom, eepromSize);
    assert sections[..0] == [];
    for i := 0 to |sections|
      invariant fresh(flash) && fresh(flash.image) && fresh(eeprom) && fresh(eeprom.image)
      invariant flash != eeprom && flash.image != eeprom.image
      invariant Collected(flash, sections[..i], MemFlash, flashSize)
      invariant Collected(eeprom, sections[..i], MemEeprom, eepromSize)
    {
      assert sections[..i + 1] == sections[..i] + [sections[i]];
      CollectSection(flash, sections[..i], sections[i], MemFlash, flashSize);
      CollectSection(eeprom, sections[..i], sections[i], MemEeprom, eepromSize);
    }
    assert sections[..|sections|] == sections;
  }

  lemma NoneCollected(image: BfdImage, t: BfdMemoryType, size: nat)
    requires size > 0 && image.Valid() && image.Contents() == map[] && image.lastAddress == 0 && !image.hasData
    ensures Collected(image, [], t, size)
  {
  }

  // A program pass stores the image exactly when what it skips is blank; then a verify
  // pass that is not misled by its first page agrees.
  lemma FlashedHolds(before: Memory, after: Memory, c: Cache, contents: Memory, start: nat, size: nat,
                     t: BfdMemoryType, verify: bool, ok: bool)
    requires size > 0 && Flashed(before, after, c, contents, start, size, t, true, verify, ok)
    ensures Holds(after, contents) <==> t == MemEeprom || SkippedAreBlank(before, contents, size, t)
    ensures FirstPageTrue(after, c, Cap(size), start, contents.Keys) ==>
              (ok <==> !verify || t == MemEeprom || SkippedAreBlank(before, contents, size, t))
  {
    hide AllSeen, FirstPageTrue, Programmed;
    ProgrammedHolds(before, after, contents, size, t);
    if FirstPageTrue(after, c, Cap(size), start, contents.Keys) {
      VerifiedIsHeld(after, c, Cap(size), start, contents);
    }
  }

  // Into an erased flash, and into any EEPROM, each byte of each section arrives that no
  // later section overwrites; and unless the first page misleads it, the verify pass
  // says so.
  lemma SectionBytesArrive(before: Memory, after: Memory, c: Cache, sections: seq<Section>, size: nat,
                           t: BfdMemoryType, verify: bool, ok: bool, i: nat, a: nat)
    requires size > 0
    requires var start := StartOf(FirstAddr(sections, t), size);
      Flashed(before, after, c, Overlay(sections, t), start, size, t, true, verify, ok)
    requires t == MemEeprom || forall x: nat :: At(before, x) == 0xff
    requires IsLastToCover(sections, t, a, i)
    ensures At(after, a) == sections[i].contents[a - SectionAddr(sections[i], t).value]
    ensures FirstPageTrue(after, c, Cap(size), StartOf(FirstAddr(sections, t), size), Overlay(sections, t).Keys) ==> ok
  {
    hide Flashed, FirstPageTrue, Programmed;
    FlashedHolds(before, after, c, Overlay(sections, t), StartOf(FirstAddr(sections, t), size), size, t, verify, ok);
    LastWriterWins(sections, t, a, i);
  }

  // downloadToTarget, from the sections of the file on.  A failed verification is
  // thrown past the command that leaves programming mode.
  method DownloadToTarget(target: Target, sections: seq<Section>, program: bool, verify: bool)
      returns (outcome: Outcome)
    requires target.Valid()
    requires AllFit(sections, MemFlash, target.flashPage) && AllFit(sections, MemEeprom, target.eepromPage)
    modifies target`programming, target`device, target.flashCache`base, target.flashCache.cache,
             target.eepromCache`base, target.eepromCache.cache
    ensures target.programming == (outcome != Done)
    ensures Flashed(old(target.Mem(FlashRegion)), target.Mem(FlashRegion), old(ViewOf(target, MemFlash)),
                    Overlay(sections, MemFlash), StartOf(FirstAddr(sections, MemFlash), target.flashPage),
                    target.flashPage, MemFlash, program, verify,
                    outcome != VerificationFailed(MemFlash))
    ensures if outcome == VerificationFailed(MemFlash)
            then target.Mem(EepromRegion) == old(target.Mem(EepromRegion))
            else Flashed(old(target.Mem(EepromRegion)), target.Mem(EepromRegion), old(ViewOf(target, MemEeprom)),
                         Overlay(sections, MemEeprom), StartOf(FirstAddr(sections, MemEeprom), target.eepromPage),
                    target.eepromPage, MemEeprom, program, verify, outcome == Done)
    ensures forall r | r !in {FlashRegion, EepromRegion} :: target.Mem(r) == old(target.Mem(r))
  {
    hide Overlay, Flashed, AllFit, PageOf, FirstAddr;
    var flashImage, eepromImage := CollectImages(sections, target.flashPage, target.eepromPage);
    target.programming := true;
    outcome := FlashImage(target, flashImage, MemFlash, program, verify);
    if outcome != Done {
      return;
    }
    outcome := FlashImage(target, eepromImage, MemEeprom, program, verify);
    if outcome != Done {
      return;
    }
    target.programming := false;
  }
}
