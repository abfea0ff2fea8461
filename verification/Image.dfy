// The memory image a file is collected in before it is written (src/jtag2prog.cc).

module Image {
  import opened Common
  import opened PageAccess
  import opened Spaces
  import opened TargetMemory

  const MAX_IMAGE_SIZE: nat := 1_000_000

  datatype BfdMemoryType = MemFlash | MemEeprom

  // A section of the input file: its flags, load address and contents.
  datatype Section = Section(hasContents: bool, alloc: bool, load: bool, lma: nat, contents: seq<byte>)

  // Where a section goes in the image for one memory, if it goes there at all.
  function SectionAddr(s: Section, t: BfdMemoryType): (a: Option<nat>) {
    if !(s.hasContents && (s.alloc || s.load)) then None
    else if s.lma < DATA_SPACE then (if t == MemFlash then Some(s.lma) else None)
    else if s.lma < EEPROM_SPACE then None
    else if s.lma < FUSE_SPACE then
      (if t == MemEeprom then Some(WithoutSpace(s.lma)) else None)
    else None
  }

  function Offset(t: BfdMemoryType): nat {
    if t == MemFlash then 0 else EEPROM_SPACE
  }

  // The image address is the one under which the target knows the section's bytes.
  lemma SectionAddrIsTargetAddr(s: Section, t: BfdMemoryType, a: nat)
    ensures SectionAddr(s, t) == Some(a) <==>
            && s.hasContents && (s.alloc || s.load) && s.lma == Offset(t) + a
            && (if t == MemFlash then a < DATA_SPACE else a < 0x1_0000)
  {
  }

  // The bytes the sections put into a memory; where they overlap, the last one wins.
  function Overlay(sections: seq<Section>, t: BfdMemoryType): Memory {
    if sections == [] then map[] else Overlaid(Overlay(sections[..|sections| - 1], t), sections[|sections| - 1], t)
  }

  function Overlaid(m: Memory, s: Section, t: BfdMemoryType): Memory {
    var a := SectionAddr(s, t);
    if a.None? then m else Store(m, a.value, s.contents)
  }

  predicate Covers(s: Section, t: BfdMemoryType, a: nat) {
    var at := SectionAddr(s, t);
    at.Some? && at.value <= a < at.value + |s.contents|
  }

  // The bytes in use are those that some section covers.
  lemma {:induction false} OverlayCovers(sections: seq<Section>, t: BfdMemoryType, a: nat)
    ensures a in Overlay(sections, t) <==> exists s :: s in sections && Covers(s, t, a)
  {
    hide Store, SectionAddr;
    if sections != [] {
      var n := |sections| - 1;
      var last := sections[n];
      OverlayCovers(sections[..n], t, a);
      assert sections == sections[..n] + [last];
      if SectionAddr(last, t).Some? {
        StoredIn(Overlay(sections[..n], t), SectionAddr(last, t).value, last.contents, a);
      }
      assert Covers(last, t, a) ==> last in sections;
    }
  }

  // The last section to cover an address gives its byte.
  lemma {:induction false} LastWriterWins(sections: seq<Section>, t: BfdMemoryType, a: nat, i: nat)
    requires IsLastToCover(sections, t, a, i)
    ensures a in Overlay(sections, t)
    ensures Overlay(sections, t)[a] == sections[i].contents[a - SectionAddr(sections[i], t).value]
  {
    hide Store, SectionAddr;
    var n := |sections| - 1;
    var last := sections[n];
    if i < n {
      LastWriterWins(sections[..n], t, a, i);
      assert !Covers(last, t, a);
    }
    if SectionAddr(last, t).Some? {
      StoredIn(Overlay(sections[..n], t), SectionAddr(last, t).value, last.contents, a);
    }
  }

  predicate IsLastToCover(sections: seq<Section>, t: BfdMemoryType, a: nat, i: nat) {
    i < |sections| && Covers(sections[i], t, a) && forall j | i < j < |sections| :: !Covers(sections[j], t, a)
  }

  lemma {:induction false} StoredIn(m: Memory, a: nat, data: seq<byte>, x: nat)
    ensures x in Store(m, a, data) <==> x in m || a <= x < a + |data|
    ensures x in Store(m, a, data) ==>
              Store(m, a, data)[x] == if a <= x < a + |data| then data[x - a] else m[x]
    decreases |data|
  {
    if data != [] {
      StoredIn(m[a := data[0]], a + 1, data[1..], x);
    }
  }

  // The lowest address any section goes to, if one does.
  function FirstAddr(sections: seq<Section>, t: BfdMemoryType): Option<nat> {
    if sections == [] then None
    else Lower(FirstAddr(sections[..|sections| - 1], t), SectionAddr(sections[|sections| - 1], t))
  }

  function Lower(a: Option<nat>, b: Option<nat>): Option<nat> {
    if a.None? then b else if b.None? then a else Some(Min(a.value, b.value))
  }

  // No section lies below it, and one lies at it.
  lemma {:induction false} FirstAddrIsLowest(sections: seq<Section>, t: BfdMemoryType)
    ensures FirstAddr(sections, t).None? <==> forall s | s in sections :: SectionAddr(s, t).None?
    ensures FirstAddr(sections, t).Some? ==>
              && (exists s :: s in sections && SectionAddr(s, t) == FirstAddr(sections, t))
              && (forall s | s in sections && SectionAddr(s, t).Some? ::
                    FirstAddr(sections, t).value <= SectionAddr(s, t).value)
  {
    hide SectionAddr;
    if sections != [] {
      var n := |sections| - 1;
      FirstAddrIsLowest(sections[..n], t);
      assert sections == sections[..n] + [sections[n]];
      assert sections[n] in sections;
    }
  }

  predicate Fits(s: Section, t: BfdMemoryType) {
    var a := SectionAddr(s, t);
    a.Some? ==> a.value + |s.contents| <= MAX_IMAGE_SIZE
  }

  datatype AvrMemoryByte = AvrMemoryByte(val: byte, used: bool)

  class BfdImage {
    const image: array<AvrMemoryByte>
    var lastAddress: nat
    var firstAddress: nat
    var firstAddressOk: bool
    var hasData: bool

    ghost predicate Valid()
      reads this, image
    {
      && image.Length == MAX_IMAGE_SIZE
      && firstAddress <= lastAddress <= MAX_IMAGE_SIZE
      && (firstAddressOk <==> hasData)
      && (forall i | 0 <= i < MAX_IMAGE_SIZE && image[i].used :: hasData && firstAddress <= i < lastAddress)
      && (forall i | 0 <= i < MAX_IMAGE_SIZE && !image[i].used :: image[i].val == 0)
    }

    // The first address, once there is one.
    ghost function First(): Option<nat>
      reads this
    {
      if hasData then Some(firstAddress) else None
    }

    // The bytes in use.
    ghost function Contents(): (m: Memory)
      reads this, image
    {
      map i: nat | i < image.Length && image[i].used :: image[i].val
    }

    constructor ()
      ensures Valid() && fresh(image) && Contents() == map[] && !hasData && lastAddress == 0
    {
      image := new AvrMemoryByte[MAX_IMAGE_SIZE](_ => AvrMemoryByte(0, false));
      new;
      InitImage();
    }

    method InitImage()
      requires image.Length == MAX_IMAGE_SIZE
      modifies this, image
      ensures Valid() && Contents() == map[] && !hasData && lastAddress == 0
    {
      lastAddress, firstAddress, firstAddressOk, hasData := 0, 0, false, false;
      for i := 0 to MAX_IMAGE_SIZE
        modifies image
        invariant forall k | 0 <= k < i :: image[k] == AvrMemoryByte(0, false)
      {
        image[i] := AvrMemoryByte(0, false);
      }
    }

    // jtag_create_image for one section.
    method CreateImage(s: Section, t: BfdMemoryType)
      requires Valid() && Fits(s, t)
      modifies this, image
      ensures Valid() && Contents() == Overlaid(old(Contents()), s, t)
      ensures hasData == (old(hasData) || SectionAddr(s, t).Some?)
      ensures lastAddress == if SectionAddr(s, t).Some?
                             then Max(old(lastAddress), SectionAddr(s, t).value + |s.contents|)
                             else old(lastAddress)
      ensures First() == Lower(old(First()), SectionAddr(s, t))
    {
      var a := SectionAddr(s, t);
      if a.None? {
        return;
      }
      hide Store, SectionAddr;
      var addr, size := a.value, |s.contents|;
      CopySection(addr, s.contents);
      if addr + size > lastAddress {
        lastAddress := addr + size;
      }
      if !firstAddressOk || addr < firstAddress {
        firstAddress, firstAddressOk := addr, true;
      }
      hasData := true;
    }

    method CopySection(addr: nat, contents: seq<byte>)
      requires addr + |contents| <= image.Length
      modifies image
      ensures Contents() == Store(old(Contents()), addr, contents)
      ensures forall i | 0 <= i < image.Length :: image[i].used == (old(image[i].used) || addr <= i < addr + |contents|)
      ensures forall i | 0 <= i < image.Length && !image[i].used :: image[i] == old(image[i])
    {
      assert contents[..0] == [];
      for i := 0 to |contents|
        invariant Contents() == Store(old(Contents()), addr, contents[..i])
        invariant forall k | 0 <= k < image.Length :: image[k].used == (old(image[k].used) || addr <= k < addr + i)
        invariant forall k | 0 <= k < image.Length && !image[k].used :: image[k] == old(image[k])
      {
        ghost var before := Contents();
        image[addr + i] := AvrMemoryByte(contents[i], true);
        assert Contents() == before[addr + i := contents[i]];
        StoreConcat(old(Contents()), addr, contents[..i], [contents[i]]);
        assert contents[..i] + [contents[i]] == contents[..i + 1];
      }
      assert contents[..|contents|] == contents;
    }
  }
}
