// The mkII emulator's side of the breakpoint commands (src/jtag2bp.cc:201-296): what it
// watches after the commands it was sent, read from their numbers alone.

module Emulator {
  import opened BreakpointTable
  import opened Breakpoints
  import opened Spaces

  // What a slot watches: execution at a byte address, or accesses to a data address.
  datatype Watch =
    | Execution(address: nat)
    | Reads(address: nat)
    | Writes(address: nat)
    | Accesses(address: nat)
    | Mask(bits: nat)
    | Nothing

  // The type, address and mode of a set command, as the emulator takes them: type 1 is
  // program memory by words, type 2 data memory, type 3 the mask of a range.
  function Meaning(kind: nat, target: nat, mode: nat): Watch {
    if kind == 1 && mode == 3 then Execution(2 * target)
    else if kind == 2 && mode == 0 then Reads(target)
    else if kind == 2 && mode == 1 then Writes(target)
    else if kind == 2 && mode == 2 then Accesses(target)
    else if kind == 3 && mode == 0 then Mask(target)
    else Nothing
  }

  // What a breakpoint asked for is to watch.
  function Asked(k: Key): Watch {
    match k.kind
    case CODE => Execution(k.address - k.address % 2)
    case READ_DATA => Reads(KeptBits(k.address))
    case WRITE_DATA => Writes(KeptBits(k.address))
    case ACCESS_DATA => Accesses(KeptBits(k.address))
    case DATA_MASK => Mask(KeptBits(k.address))
    case NONE => Nothing
  }

  // The command for an entry has the emulator watch what was asked for.
  lemma SetCommandIsAsked(b: Breakpoint)
    ensures var c := SetCommand(b);
      c.SetBreak? && c.slot == b.bpnum && Meaning(c.kind, c.target, c.mode) == Asked(KeyOf(b))
  {
    hide WithoutSpace, KeptBits;
    WithoutSpaceKeeps(b.address);
  }

  // For a data address that is an offset and sixteen bits more.
  lemma AskedAtOffset(space: nat, a: nat, kind: BpType)
    requires space in {0, 0x80_0000, 0x81_0000, 0x82_0000, 0x83_0000, 0x84_0000, 0x85_0000, 0x90_0000} && a < 0x1_0000
    ensures Asked(Key(space + a, READ_DATA)) == Reads(a) && Asked(Key(space + a, WRITE_DATA)) == Writes(a)
    ensures Asked(Key(space + a, ACCESS_DATA)) == Accesses(a)
  {
    hide WithoutSpace, KeptBits;
    OffsetLeavesAddress(space, a);
    WithoutSpaceKeeps(space + a);
  }

  // What the emulator has installed: hardware slots, and the byte addresses of the
  // program words replaced by software breakpoints.
  datatype Ice = Ice(slots: map<nat, Watch>, words: set<nat>)

  const EMPTY_ICE := Ice(map[], {})

  // Slot 0 stands for a software breakpoint, which only program memory has.
  function CarryOut(ice: Ice, c: Command): Ice {
    match c
    case SetBreak(kind, slot, target, mode) =>
      var w := Meaning(kind, target, mode);
      if slot != 0 then ice.(slots := ice.slots[slot := w])
      else if w.Execution? then ice.(words := ice.words + {w.address}) else ice
    case ClrBreak(slot, target) =>
      if slot == 0 then ice.(words := ice.words - {2 * target}) else ice.(slots := ice.slots - {slot})
  }

  function Replay(ice: Ice, commands: seq<Command>): Ice {
    if commands == [] then ice
    else CarryOut(Replay(ice, commands[..|commands| - 1]), commands[|commands| - 1])
  }

  lemma {:induction false} ReplayConcat(ice: Ice, a: seq<Command>, b: seq<Command>)
    ensures Replay(ice, a + b) == Replay(Replay(ice, a), b)
    decreases |b|
  {
    if b == [] {
      assert a + b == a;
    } else {
      assert (a + b)[..|a + b| - 1] == a + b[..|b| - 1];
      ReplayConcat(ice, a, b[..|b| - 1]);
    }
  }
}
