// The mkII breakpoint manager (src/jtaggeneric.cc, src/jtag2bp.cc): a table that
// caches what the emulator holds and synchronises it lazily.

module Breakpoints {
  import opened BreakpointTable
  import opened Spaces

  datatype Command =
    | SetBreak(kind: nat, slot: nat, target: nat, mode: nat)
    | ClrBreak(slot: nat, target: nat)

  // The command that installs an entry.  The space bits of a data address are masked away.
  function SetCommand(b: Breakpoint): Command {
    match b.kind
    case CODE => SetBreak(1, b.bpnum, b.address / 2, 3)
    case READ_DATA => SetBreak(2, b.bpnum, WithoutSpace(b.address), 0)
    case WRITE_DATA => SetBreak(2, b.bpnum, WithoutSpace(b.address), 1)
    case ACCESS_DATA => SetBreak(2, b.bpnum, WithoutSpace(b.address), 2)
    case DATA_MASK => SetBreak(3, b.bpnum, WithoutSpace(b.address), 0)
    case NONE => SetBreak(0, b.bpnum, WithoutSpace(b.address), 0)
  }

  // Only a software breakpoint needs its address to be cleared.
  function ClrCommand(b: Breakpoint): Command {
    ClrBreak(b.bpnum, if b.bpnum == 0 then b.address / 2 else 0)
  }

  // ----- what the operations do to the table

  datatype Key = Key(address: Address, kind: BpType)

  function KeyOf(b: Breakpoint): Key { Key(b.address, b.kind) }

  // What has been asked for.
  ghost function Wanted(t: seq<Breakpoint>): set<Key> {
    set i | 0 <= i < |t| && t[i].enabled :: KeyOf(t[i])
  }

  // The first entry for the key, or the end of the list.
  function Find(t: seq<Breakpoint>, k: Key, i: nat): (r: nat)
    requires i <= |t|
    ensures i <= r <= |t|
    ensures r < |t| ==> t[r].last || KeyOf(t[r]) == k
    ensures forall j :: i <= j < r ==> !t[j].last && KeyOf(t[j]) != k
    decreases |t| - i
  {
    if i == |t| || t[i].last || KeyOf(t[i]) == k then i else Find(t, k, i + 1)
  }

  // The first entry that may be overwritten.
  function FindFree(t: seq<Breakpoint>, i: nat): (r: nat)
    requires i <= |t|
    ensures i <= r <= |t|
    ensures r < |t| ==> !t[r].enabled && !t[r].toremove
    ensures forall j :: i <= j < r ==> t[j].enabled || t[j].toremove
    decreases |t| - i
  {
    if i == |t| || !(t[i].enabled || t[i].toremove) then i else FindFree(t, i + 1)
  }

  // The entry an add works on: the one for the key, else a new one at the end,
  // else in a full table one that can be overwritten.
  function PickEntry(t: seq<Breakpoint>, k: Key): (r: nat)
    ensures r <= |t|
  {
    var i := Find(t, k, 0);
    if i + 1 == |t| then FindFree(t, 0) else i
  }

  // The table an add hands to the layout, unless there is no entry left.
  function Requested(t: seq<Breakpoint>, k: Key): (r: seq<Breakpoint>)
    requires PickEntry(t, k) + 1 < |t|
    ensures |r| == |t|
  {
    var i := PickEntry(t, k);
    var t1 := if t[i].last
              then t[i + 1 := t[i + 1].(last := true, enabled := false, address := 0, kind := NONE)] else t;
    t1[i := t[i].(last := false, enabled := true, address := k.address, kind := k.kind,
                  toadd := !t[i].icestatus, toremove := false)]
  }

  // The layout failed: the entry is disabled, and so may others be.
  ghost predicate FailedAdd(cfg: Config, t: seq<Breakpoint>, i: nat, t': seq<Breakpoint>) {
    exists t1: seq<Breakpoint> :: LayoutStep(cfg, t, t1, false) && i < |t1| &&
      t' == t1[i := t1[i].(enabled := false, toadd := false)]
  }

  ghost predicate AddStep(cfg: Config, t: seq<Breakpoint>, k: Key, t': seq<Breakpoint>, ok: bool) {
    if PickEntry(t, k) + 1 >= |t| then !ok && t' == t
    else if ok then LayoutStep(cfg, Requested(t, k), t', true)
    else FailedAdd(cfg, Requested(t, k), PickEntry(t, k), t')
  }

  // Deleting only marks the entry.
  function Deleted(t: seq<Breakpoint>, k: Key): (r: seq<Breakpoint>)
    ensures |r| == |t|
  {
    var i := Find(t, k, 0);
    if i < |t| && !t[i].last then t[i := t[i].(enabled := false, toadd := false, toremove := t[i].icestatus)] else t
  }

  function Disabled(b: Breakpoint): Breakpoint {
    b.(toremove := b.toremove || (b.enabled && b.icestatus), enabled := false)
  }

  function Map(f: Breakpoint -> Breakpoint, t: seq<Breakpoint>): (r: seq<Breakpoint>)
    ensures |r| == |t| && forall i :: 0 <= i < |t| ==> r[i] == f(t[i])
  {
    seq(|t|, i requires 0 <= i < |t| => f(t[i]))
  }

  function Cleared(b: Breakpoint): Breakpoint {
    if b.toremove then b.(icestatus := false, toremove := false) else b
  }

  function Installed(b: Breakpoint): Breakpoint {
    if Pending(b) then b.(icestatus := true, toadd := false) else b
  }

  // The clear commands for a laid-out table, and the set commands after them.
  function ClearCommands(t: seq<Breakpoint>): seq<Command> {
    if t == [] then []
    else ClearCommands(t[..|t| - 1]) + if t[|t| - 1].toremove then [ClrCommand(t[|t| - 1])] else []
  }

  function SetCommands(t: seq<Breakpoint>): seq<Command> {
    if t == [] then []
    else SetCommands(t[..|t| - 1]) + if Pending(t[|t| - 1]) then [SetCommand(t[|t| - 1])] else []
  }

  ghost predicate UpdateStep(cfg: Config, t: seq<Breakpoint>, t': seq<Breakpoint>, commands: seq<Command>) {
    exists laid: seq<Breakpoint>, room: bool ::
      && LayoutStep(cfg, t, laid, room)
      && t' == Map(Installed, Map(Cleared, laid))
      && commands == ClearCommands(laid) + SetCommands(Map(Cleared, laid))
  }

  lemma {:induction false} IdleTail(t: seq<Breakpoint>, n: nat)
    requires n <= |t| && forall i :: n <= i < |t| ==> !t[i].toremove && !Pending(t[i])
    ensures ClearCommands(t) == ClearCommands(t[..n]) && SetCommands(t) == SetCommands(t[..n])
    decreases |t|
  {
    if n < |t| {
      var m := |t| - 1;
      IdleTail(t[..m], n);
      assert t[..m][..n] == t[..n];
    } else {
      assert t[..n] == t;
    }
  }

  lemma DroppedIsWellFormed(t: seq<Breakpoint>, t': seq<Breakpoint>)
    requires WellFormed(t) && SomeDropped(t, t') && forall i :: 0 <= i < |t'| ==> t'[i].bpnum <= 3
    ensures WellFormed(t')
  {
    var n: nat :| IsEnd(t, n) && forall i :: n <= i < |t| ==> Idle(t[i]);
    assert forall i :: 0 <= i < |t| ==> KeptOrDropped(t[i], t'[i]);
    assert IsEnd(t', n);
  }

  // A layout under way: as long as there was room, the placed entries sit in
  // slots of their own; once there was none, no layout could have succeeded.
  ghost predicate Laying(cfg: Config, t0: seq<Breakpoint>, t: seq<Breakpoint>, remaining: seq<bool>,
                         placed: set<nat>, hadroom: bool)
  {
    && SomeDropped(t0, t) && |remaining| == 6 && !remaining[0] && !remaining[4] && !remaining[5]
    && (forall i :: 0 <= i < |t| ==> t[i].bpnum <= 3)
    && if hadroom then Placing(cfg, t0, t, remaining, placed) else !Feasible(cfg, t0)
  }

  function Dropped(b: Breakpoint): Breakpoint { b.(enabled := false, toadd := false) }

  // The pending data entries before d and the pending code entries before c.
  ghost predicate PlacedSoFar(t0: seq<Breakpoint>, placed: set<nat>, d: nat, c: nat) {
    forall j: nat :: j in placed <==> j < |t0| && Pending(t0[j]) && if t0[j].kind == CODE then j < c else j < d
  }

  // The data slots still free, counted against the data breakpoints met so far.
  predicate DataCounted(cfg: Config, t0: seq<Breakpoint>, remaining: seq<bool>, d: nat)
    requires |remaining| == 6 && d <= |t0|
  {
    (if remaining[FIRST_DATA] then 1 else 0) + (if remaining[DATA_MASK_SLOT] then 1 else 0) ==
    if DataBefore(t0, d) < FreeData(cfg, t0) then FreeData(cfg, t0) - DataBefore(t0, d) else 0
  }

  // One entry of the data pass: if it is data it takes a slot or is left over.
  lemma CountOne(cfg: Config, t0: seq<Breakpoint>, t: seq<Breakpoint>, t': seq<Breakpoint>,
                 remaining: seq<bool>, remaining': seq<bool>, d: nat)
    requires d < |t0| && |remaining| == |remaining'| == 6 && SomeDropped(t0, t) && NoMasks(t0)
    requires DataCounted(cfg, t0, remaining, d) && DroppedUpTo(cfg, t0, t, d)
    requires if !PendingData(t[d]) then t' == t && remaining' == remaining
             else if !remaining[FIRST_DATA] && !remaining[DATA_MASK_SLOT] then
               t' == t[d := Dropped(t[d])] && remaining' == remaining
             else exists s | 2 <= s <= 3 ::
               remaining[s] && remaining' == remaining[s := false] && t' == t[d := t[d].(bpnum := s)]
    ensures DataCounted(cfg, t0, remaining', d + 1) && DroppedUpTo(cfg, t0, t', d + 1)
  {
    hide FreeData, SomeDropped;
    assert KeptOrDropped(t0[d], t[d]) by {
      SomeDroppedAt(t0, t, d);
    }
    assert PendingData(t0[d]) <==> PendingData(t[d]);
  }

  lemma SomeDroppedAt(t0: seq<Breakpoint>, t: seq<Breakpoint>, i: nat)
    requires SomeDropped(t0, t) && i < |t0|
    ensures |t| == |t0| && KeptOrDropped(t0[i], t[i])
  {
  }

  lemma LayingStarts(cfg: Config, t: seq<Breakpoint>, remaining: seq<bool>)
    requires WellFormed(t) && |remaining| == 6 && !remaining[0] && !remaining[4] && !remaining[5]
    requires forall s :: 1 <= s <= 3 ==> (remaining[s] <==> Available(cfg, t, s))
    ensures Laying(cfg, t, t, remaining, {}, true)
  {
  }

  lemma LayOne(cfg: Config, t0: seq<Breakpoint>, t: seq<Breakpoint>, remaining: seq<bool>,
               placed: set<nat>, hadroom: bool, i: nat, slot: nat)
    requires Laying(cfg, t0, t, remaining, placed, hadroom)
    requires i < |t| && Pending(t[i]) && Fits(cfg, t[i].kind, slot) && (hadroom ==> i !in placed)
    requires slot == 0 || (slot <= 3 && remaining[slot])
    requires IsData(t[i].kind) && slot == DATA_MASK_SLOT ==> !remaining[FIRST_DATA]
    ensures Laying(cfg, t0, t[i := t[i].(bpnum := slot)], remaining[slot := false], placed + {i}, hadroom)
    ensures Pending(t0[i]) && t0[i].kind == t[i].kind
  {
    assert KeptOrDropped(t0[i], t[i]);
    if hadroom {
      hide Placing, Available, Fits, SomeDropped;
      assert t0[i].kind == t[i].kind && Pending(t0[i]);
      Place(cfg, t0, t, remaining, placed, i, slot);
    }
    LayKeepsShape(t0, t, i, slot);
  }

  lemma LayKeepsShape(t0: seq<Breakpoint>, t: seq<Breakpoint>, i: nat, slot: nat)
    requires SomeDropped(t0, t) && i < |t| && Pending(t[i])
    ensures SomeDropped(t0, t[i := t[i].(bpnum := slot)])
  {
  }

  lemma DropKeepsShape(t0: seq<Breakpoint>, t: seq<Breakpoint>, i: nat)
    requires SomeDropped(t0, t) && i < |t|
    requires NoMasks(t0) ==> Pending(t[i]) && IsData(t[i].kind)
    ensures SomeDropped(t0, t[i := Dropped(t[i])])
  {
  }

  // In a layout that still had room the entries are as they were, slots aside.
  lemma LayingPending(cfg: Config, t0: seq<Breakpoint>, t: seq<Breakpoint>, remaining: seq<bool>, placed: set<nat>,
                      i: nat)
    requires Laying(cfg, t0, t, remaining, placed, true) && i < |t|
    ensures |t0| == |t| && Pending(t[i]) == Pending(t0[i]) && t[i].kind == t0[i].kind
  {
  }

  lemma DropData(cfg: Config, t0: seq<Breakpoint>, t: seq<Breakpoint>, remaining: seq<bool>,
                 placed: set<nat>, hadroom: bool, i: nat)
    requires Laying(cfg, t0, t, remaining, placed, hadroom)
    requires i < |t| && Pending(t[i]) && IsData(t[i].kind) && !remaining[FIRST_DATA] && !remaining[DATA_MASK_SLOT]
    requires hadroom ==> i !in placed && forall j :: j in placed ==> j < |t0| && t0[j].kind != CODE
    ensures Laying(cfg, t0, t[i := Dropped(t[i])], remaining, placed, false)
  {
    DropKeepsShape(t0, t, i);
    if hadroom {
      LayingPending(cfg, t0, t, remaining, placed, i);
      hide Placing;
      NoRoomForData(cfg, t0, t, remaining, placed, i);
    }
  }

  lemma DropMask(cfg: Config, t0: seq<Breakpoint>, t: seq<Breakpoint>, remaining: seq<bool>,
                 placed: set<nat>, hadroom: bool, i: nat, m: nat)
    requires Laying(cfg, t0, t, remaining, placed, hadroom)
    requires i < |t| && Pending(t[i]) && t[i].kind == DATA_MASK && !remaining[DATA_MASK_SLOT] && m < |t|
    requires hadroom ==> i !in placed && forall j :: j in placed ==> j < |t0| && t0[j].kind != CODE
    ensures var t1 := t[m := Dropped(t[m])]; Laying(cfg, t0, t1[i := Dropped(t1[i])], remaining, placed, false)
  {
    assert KeptOrDropped(t0[i], t[i]);
    assert !NoMasks(t0) by {
      assert t0[i].kind == DATA_MASK;
    }
    DropKeepsShape(t0, t, m);
    DropKeepsShape(t0, t[m := Dropped(t[m])], i);
    if hadroom {
      LayingPending(cfg, t0, t, remaining, placed, i);
      hide Placing;
      NoRoomForMask(cfg, t0, t, remaining, placed, i);
    }
  }

  // The data pass before entry d.
  ghost predicate DataPass(cfg: Config, t0: seq<Breakpoint>, t: seq<Breakpoint>, remaining: seq<bool>,
                           placed: set<nat>, hadroom: bool, d: nat)
  {
    && d <= |t0| && Laying(cfg, t0, t, remaining, placed, hadroom)
    && (hadroom ==> PlacedSoFar(t0, placed, d, 0))
    && (NoMasks(t0) ==> DataCounted(cfg, t0, remaining, d) && DroppedUpTo(cfg, t0, t, d))
  }

  lemma PassStarts(cfg: Config, t: seq<Breakpoint>, remaining: seq<bool>)
    requires Laying(cfg, t, t, remaining, {}, true)
    ensures DataPass(cfg, t, t, remaining, {}, true, 0)
  {
  }

  lemma PassSkips(cfg: Config, t0: seq<Breakpoint>, t: seq<Breakpoint>, remaining: seq<bool>,
                  placed: set<nat>, hadroom: bool, d: nat)
    requires DataPass(cfg, t0, t, remaining, placed, hadroom, d) && d < |t| && FlagsAgree(t0[d])
    requires !(Pending(t[d]) && t[d].kind == DATA_MASK) && !PendingData(t[d])
    ensures DataPass(cfg, t0, t, remaining, placed, hadroom, d + 1)
  {
    hide Placing, Feasible, DataCounted, DroppedUpTo;
    SomeDroppedAt(t0, t, d);
    if hadroom {
      LayingPending(cfg, t0, t, remaining, placed, d);
    }
    if NoMasks(t0) {
      CountOne(cfg, t0, t, t, remaining, remaining, d);
    }
  }

  lemma PassDropsMask(cfg: Config, t0: seq<Breakpoint>, t: seq<Breakpoint>, remaining: seq<bool>,
                      placed: set<nat>, hadroom: bool, d: nat, m: nat)
    requires DataPass(cfg, t0, t, remaining, placed, hadroom, d)
    requires d < |t| && Pending(t[d]) && t[d].kind == DATA_MASK && !remaining[DATA_MASK_SLOT] && m < |t|
    ensures var t1 := t[m := Dropped(t[m])];
      DataPass(cfg, t0, t1[d := Dropped(t1[d])], remaining, placed, false, d + 1)
  {
    hide Placing, Feasible, DataCounted, DroppedUpTo;
    SomeDroppedAt(t0, t, d);
    assert t0[d].kind == DATA_MASK;
    DropMask(cfg, t0, t, remaining, placed, hadroom, d, m);
  }

  lemma PassDropsData(cfg: Config, t0: seq<Breakpoint>, t: seq<Breakpoint>, remaining: seq<bool>,
                      placed: set<nat>, hadroom: bool, d: nat)
    requires DataPass(cfg, t0, t, remaining, placed, hadroom, d)
    requires d < |t| && PendingData(t[d]) && !remaining[DATA_MASK_SLOT] && !remaining[FIRST_DATA]
    ensures DataPass(cfg, t0, t[d := Dropped(t[d])], remaining, placed, false, d + 1)
  {
    hide Placing, Feasible, DataCounted, DroppedUpTo;
    DropData(cfg, t0, t, remaining, placed, hadroom, d);
    if NoMasks(t0) {
      CountOne(cfg, t0, t, t[d := Dropped(t[d])], remaining, remaining, d);
    }
  }

  lemma PassPlaces(cfg: Config, t0: seq<Breakpoint>, t: seq<Breakpoint>, remaining: seq<bool>,
                   placed: set<nat>, hadroom: bool, d: nat, slot: nat)
    requires DataPass(cfg, t0, t, remaining, placed, hadroom, d)
    requires d < |t| && Pending(t[d]) && t[d].kind != CODE && Fits(cfg, t[d].kind, slot) && slot <= 3 && remaining[slot]
    requires IsData(t[d].kind) && slot == DATA_MASK_SLOT ==> !remaining[FIRST_DATA]
    ensures DataPass(cfg, t0, t[d := t[d].(bpnum := slot)], remaining[slot := false], placed + {d}, hadroom, d + 1)
  {
    hide Placing, Feasible, DataCounted, DroppedUpTo;
    SomeDroppedAt(t0, t, d);
    LayOne(cfg, t0, t, remaining, placed, hadroom, d, slot);
    if NoMasks(t0) {
      assert t0[d].kind != DATA_MASK;
      CountOne(cfg, t0, t, t[d := t[d].(bpnum := slot)], remaining, remaining[slot := false], d);
    }
  }

  lemma PassBounds(cfg: Config, t0: seq<Breakpoint>, t: seq<Breakpoint>, remaining: seq<bool>,
                   placed: set<nat>, hadroom: bool, d: nat, n: nat)
    requires DataPass(cfg, t0, t, remaining, placed, hadroom, d) && IsEnd(t0, n)
    requires WellFormed(t0)
    ensures |t| == |t0| && IsEnd(t, n)
    ensures d < |t| ==> FlagsAgree(t0[d]) && t[d].maskPointer < |t|
  {
    LayingKeepsEnd(cfg, t0, t, remaining, placed, hadroom, n);
    if d < |t| {
      SomeDroppedAt(t0, t, d);
    }
  }

  lemma LayingKeepsEnd(cfg: Config, t0: seq<Breakpoint>, t: seq<Breakpoint>, remaining: seq<bool>,
                       placed: set<nat>, hadroom: bool, n: nat)
    requires Laying(cfg, t0, t, remaining, placed, hadroom) && IsEnd(t0, n)
    ensures IsEnd(t, n)
  {
  }

  lemma PassEnds(cfg: Config, t0: seq<Breakpoint>, t: seq<Breakpoint>, remaining: seq<bool>,
                 placed: set<nat>, hadroom: bool, n: nat)
    requires DataPass(cfg, t0, t, remaining, placed, hadroom, n) && IsEnd(t0, n)
    ensures Laying(cfg, t0, t, remaining, placed, hadroom) && IsEnd(t, n)
    ensures hadroom ==> PlacedSoFar(t0, placed, n, 0)
    ensures NoMasks(t0) ==> DroppedUpTo(cfg, t0, t, n)
  {
    LayingKeepsEnd(cfg, t0, t, remaining, placed, hadroom, n);
  }

  lemma SameDropped(cfg: Config, t0: seq<Breakpoint>, t: seq<Breakpoint>, t': seq<Breakpoint>, d: nat)
    requires |t'| == |t| && forall i :: 0 <= i < |t| ==> t'[i].enabled == t[i].enabled
    ensures DroppedUpTo(cfg, t0, t, d) ==> DroppedUpTo(cfg, t0, t', d)
  {
  }

  lemma LayingDone(cfg: Config, t0: seq<Breakpoint>, t: seq<Breakpoint>, remaining: seq<bool>,
                   placed: set<nat>, hadroom: bool, n: nat)
    requires Laying(cfg, t0, t, remaining, placed, hadroom) && (hadroom ==> PlacedSoFar(t0, placed, n, n))
    requires WellFormed(t0) && forall i :: n <= i < |t0| ==> Idle(t0[i])
    requires NoMasks(t0) ==> DroppedUpTo(cfg, t0, t, n)
    ensures WellFormed(t) && LayoutStep(cfg, t0, t, hadroom)
  {
    DroppedIsWellFormed(t0, t);
    if hadroom {
      hide Placing, Available;
      AllPlaced(cfg, t0, t, remaining, placed);
    }
  }

  lemma RequestIsWellFormed(t: seq<Breakpoint>, k: Key)
    requires WellFormed(t) && k.kind != NONE && PickEntry(t, k) + 1 < |t|
    ensures WellFormed(Requested(t, k))
  {
    var n: nat :| IsEnd(t, n) && forall i :: n <= i < |t| ==> Idle(t[i]);
    var i := PickEntry(t, k);
    var r := Requested(t, k);
    var n' := if t[i].last then i + 1 else n;
    assert i <= n;
    assert IsEnd(r, n');
  }

  lemma DisablingIsWellFormed(t: seq<Breakpoint>, i: nat)
    requires WellFormed(t) && i < |t|
    ensures WellFormed(t[i := t[i].(enabled := false, toadd := false)])
  {
    var n: nat :| IsEnd(t, n) && forall i :: n <= i < |t| ==> Idle(t[i]);
    assert IsEnd(t[i := t[i].(enabled := false, toadd := false)], n);
  }

  // An entry before the end of the list.
  ghost predicate Reachable(t: seq<Breakpoint>, i: nat) {
    i < |t| && forall j :: 0 <= j <= i ==> !t[j].last
  }

  lemma EndIsIdle(t: seq<Breakpoint>, i: nat)
    requires WellFormed(t) && i < |t| && forall j :: 0 <= j < i ==> !t[j].last
    ensures t[i].last ==> forall j :: i <= j < |t| ==> Idle(t[j])
    ensures i + 1 == |t| ==> t[i].last
  {
  }

  lemma DeletingIsWellFormed(t: seq<Breakpoint>, k: Key)
    requires WellFormed(t)
    ensures WellFormed(Deleted(t, k))
  {
    var n: nat :| IsEnd(t, n) && forall i :: n <= i < |t| ==> Idle(t[i]);
    assert IsEnd(Deleted(t, k), n);
  }

  lemma UpdatingIsWellFormed(t: seq<Breakpoint>)
    requires WellFormed(t)
    ensures WellFormed(Map(Installed, Map(Cleared, t)))
  {
    var n: nat :| IsEnd(t, n) && forall i :: n <= i < |t| ==> Idle(t[i]);
    assert IsEnd(Map(Installed, Map(Cleared, t)), n);
  }

  class Jtag {
    const bp: array<Breakpoint>
    const cfg: Config
    var sent: seq<Command>   // the commands the emulator has carried out

    ghost predicate Valid()
      reads this, bp
    {
      bp.Length == MAX_TOTAL_BREAKPOINTS2 && WellFormed(bp[..])
    }

    constructor (config: Config)
      ensures Valid() && fresh(bp) && cfg == config && sent == []
      ensures bp[..] == NewTable()
    {
      cfg := config;
      sent := [];
      bp := new Breakpoint[MAX_TOTAL_BREAKPOINTS2](_ => DEFAULT_BP);
      new;
      assert IsEnd(bp[..], 0);
    }

    // The first free slot from start on, or one past the last.
    method NextFree(remaining: array<bool>, start: nat) returns (bpnum: nat)
      requires remaining.Length == 6 && start <= 5
      ensures start <= bpnum <= 5
      ensures bpnum <= MAX_BREAKPOINTS2 ==> remaining[bpnum]
      ensures forall s :: start <= s < bpnum ==> !remaining[s]
    {
      bpnum := start;
      while !remaining[bpnum] && bpnum <= MAX_BREAKPOINTS2
        invariant start <= bpnum <= 5
        invariant forall s :: start <= s < bpnum ==> !remaining[s]
      {
        bpnum := bpnum + 1;
      }
    }

    // The slots not held by entries that stay.
    method FreeSlots() returns (remaining: array<bool>)
      requires Valid()
      ensures fresh(remaining) && remaining.Length == 6
      ensures !remaining[0] && !remaining[4] && !remaining[5]
      ensures forall s :: 1 <= s <= 3 ==> (remaining[s] <==> Available(cfg, bp[..], s))
    {
      remaining := new bool[6] [false, true, true, true, false, false];
      if cfg.softBpOnly {
        var k := 1;
        while k < MAX_BREAKPOINTS2 + 1
          invariant 1 <= k <= 5 && !remaining[0] && !remaining[5]
          invariant forall s :: 1 <= s < k ==> !remaining[s]
        {
          remaining[k] := false;
          k := k + 1;
        }
      } else if cfg.xmega {
        remaining[XMEGA_UNAVAIL] := false;
      }
      ghost var n: nat :| IsEnd(bp[..], n) && forall i :: n <= i < bp.Length ==> Idle(bp[..][i]);
      var i := 0;
      while !bp[i].last
        invariant 0 <= i <= n
        invariant !remaining[0] && !remaining[4] && !remaining[5]
        invariant forall s :: 1 <= s <= 3 ==> (remaining[s] <==>
          && !cfg.softBpOnly && !(cfg.xmega && s == XMEGA_UNAVAIL)
          && forall j :: 0 <= j < i && Held(bp[j]) ==> bp[j].bpnum != s)
        decreases n - i
      {
        if bp[i].enabled && !bp[i].toremove && bp[i].icestatus {
          remaining[bp[i].bpnum] := false;
        }
        i := i + 1;
      }
      forall s | 1 <= s <= 3
        ensures remaining[s] <==> Available(cfg, bp[..], s)
      {
        assert forall j :: i <= j < bp.Length ==> !Held(bp[..][j]);
      }
    }

    // A pending mask takes slot 3, or is dropped with the entry it points to.
    method PlaceMask(remaining: array<bool>, i: nat, hadroom: bool, ghost t0: seq<Breakpoint>, ghost placed: set<nat>)
      returns (hadroom': bool, ghost placed': set<nat>)
      requires remaining.Length == 6 && i < bp.Length && Pending(bp[i]) && bp[i].kind == DATA_MASK
      requires bp[i].maskPointer < bp.Length
      requires DataPass(cfg, t0, bp[..], remaining[..], placed, hadroom, i)
      modifies bp, remaining
      ensures DataPass(cfg, t0, bp[..], remaining[..], placed', hadroom', i + 1)
    {
      hide DataPass, Laying;
      ghost var t, r := bp[..], remaining[..];
      hadroom', placed' := hadroom, placed;
      if !remaining[DATA_MASK_SLOT] {
        var m := bp[i].maskPointer;
        PassDropsMask(cfg, t0, t, r, placed, hadroom, i, m);
        bp[m] := bp[m].(enabled := false, toadd := false);
        bp[i] := bp[i].(enabled := false, toadd := false);
        assert bp[..] == t[m := Dropped(t[m])][i := Dropped(t[m := Dropped(t[m])][i])];
        hadroom' := false;
      } else {
        PassPlaces(cfg, t0, t, r, placed, hadroom, i, DATA_MASK_SLOT);
        remaining[DATA_MASK_SLOT] := false;
        bp[i] := bp[i].(bpnum := DATA_MASK_SLOT);
        placed' := placed + {i};
        assert bp[..] == t[i := t[i].(bpnum := DATA_MASK_SLOT)] && remaining[..] == r[DATA_MASK_SLOT := false];
      }
    }

    // A pending data breakpoint takes slot 2 or 3, or is dropped.
    method PlaceWatch(remaining: array<bool>, i: nat, hadroom: bool, ghost t0: seq<Breakpoint>, ghost placed: set<nat>)
      returns (hadroom': bool, ghost placed': set<nat>)
      requires remaining.Length == 6 && i < bp.Length && PendingData(bp[i])
      requires DataPass(cfg, t0, bp[..], remaining[..], placed, hadroom, i)
      modifies bp, remaining
      ensures DataPass(cfg, t0, bp[..], remaining[..], placed', hadroom', i + 1)
    {
      hide DataPass, Laying;
      ghost var t, r := bp[..], remaining[..];
      hadroom', placed' := hadroom, placed;
      if !remaining[DATA_MASK_SLOT] && !remaining[FIRST_DATA] {
        PassDropsData(cfg, t0, t, r, placed, hadroom, i);
        bp[i] := bp[i].(enabled := false, toadd := false);
        assert bp[..] == t[i := Dropped(t[i])];
        hadroom' := false;
      } else {
        var bpnum := NextFree(remaining, FIRST_DATA);
        assert bpnum <= DATA_MASK_SLOT;
        PassPlaces(cfg, t0, t, r, placed, hadroom, i, bpnum);
        bp[i] := bp[i].(bpnum := bpnum);
        remaining[bpnum] := false;
        placed' := placed + {i};
        assert bp[..] == t[i := t[i].(bpnum := bpnum)] && remaining[..] == r[bpnum := false];
      }
    }

    // The data pass, masks and data in table order.
    method PlaceData(remaining: array<bool>, ghost n: nat) returns (hadroom: bool, ghost placed: set<nat>)
      requires Valid() && IsEnd(bp[..], n) && remaining.Length == 6
      requires Laying(cfg, bp[..], bp[..], remaining[..], {}, true)
      modifies bp, remaining
      ensures DataPass(cfg, old(bp[..]), bp[..], remaining[..], placed, hadroom, n)
    {
      ghost var t0 := bp[..];
      PassStarts(cfg, t0, remaining[..]);
      hide DataPass, Laying, Available, WellFormed, FlagsAgree;
      hadroom, placed := true, {};
      var i := 0;
      while !bp[i].last
        invariant 0 <= i <= n
        invariant DataPass(cfg, t0, bp[..], remaining[..], placed, hadroom, i)
        decreases n - i
      {
        ghost var t, r := bp[..], remaining[..];
        PassBounds(cfg, t0, t, r, placed, hadroom, i, n);
        if bp[i].enabled && bp[i].toadd && bp[i].kind == DATA_MASK {
          hadroom, placed := PlaceMask(remaining, i, hadroom, t0, placed);
        } else if bp[i].enabled && bp[i].toadd && IsData(bp[i].kind) {
          hadroom, placed := PlaceWatch(remaining, i, hadroom, t0, placed);
        } else {
          PassSkips(cfg, t0, t, r, placed, hadroom, i);
        }
        i := i + 1;
      }
      PassBounds(cfg, t0, bp[..], remaining[..], placed, hadroom, i, n);
    }

    // The code pass: what slots are left, then software.
    method PlaceCode(remaining: array<bool>, ghost n: nat, ghost t0: seq<Breakpoint>, room: bool, ghost data: set<nat>)
      returns (hadroom: bool, ghost placed: set<nat>)
      requires bp.Length == |t0| && IsEnd(bp[..], n) && remaining.Length == 6
      requires Laying(cfg, t0, bp[..], remaining[..], data, room) && (room ==> PlacedSoFar(t0, data, n, 0))
      modifies bp, remaining
      ensures Laying(cfg, t0, bp[..], remaining[..], placed, hadroom)
      ensures hadroom ==> PlacedSoFar(t0, placed, n, n)
      ensures forall j :: 0 <= j < |t0| ==> bp[j].enabled == old(bp[j].enabled)
    {
      hide Placing, Feasible, Available;
      hadroom, placed := room, data;
      var i := 0;
      while !bp[i].last
        invariant 0 <= i <= n
        invariant forall j :: 0 <= j < |t0| ==> bp[j].last == old(bp[j].last) && bp[j].enabled == old(bp[j].enabled)
        invariant Laying(cfg, t0, bp[..], remaining[..], placed, hadroom)
        invariant hadroom ==> PlacedSoFar(t0, placed, n, i)
        decreases n - i
      {
        var bpnum := NextFree(remaining, 0);
        if bpnum > MAX_BREAKPOINTS2 {
          bpnum := if !cfg.noSoftBp then 0 else 0xff;
        }
        ghost var t, r := bp[..], remaining[..];
        assert KeptOrDropped(t0[i], t[i]);
        if hadroom {
          LayingPending(cfg, t0, t, r, placed, i);
        }
        if bp[i].enabled && bp[i].toadd && bp[i].kind == CODE {
          if bpnum == 0xff {
            if hadroom {
              NoRoomForCode(cfg, t0, t, r, placed, i);
            }
            hadroom := false;
            break;
          }
          LayOne(cfg, t0, t, r, placed, hadroom, i, bpnum);
          bp[i] := bp[i].(bpnum := bpnum);
          remaining[bpnum] := false;
          placed := placed + {i};
          assert bp[..] == t[i := t[i].(bpnum := bpnum)] && remaining[..] == r[bpnum := false];
        }
        i := i + 1;
      }
    }

    method LayoutBreakpoints() returns (hadroom: bool)
      requires Valid()
      modifies bp
      ensures Valid() && LayoutStep(cfg, old(bp[..]), bp[..], hadroom)
    {
      hide Feasible, Available, Laying, PlacedSoFar, LayoutStep, DataPass, DroppedUpTo, NoMasks;
      ghost var t0 := bp[..];
      ghost var n: nat :| IsEnd(t0, n) && forall i :: n <= i < |t0| ==> Idle(t0[i]);
      var remaining := FreeSlots();
      LayingStarts(cfg, t0, remaining[..]);
      ghost var placed;
      hadroom, placed := PlaceData(remaining, n);
      ghost var t1 := bp[..];
      PassEnds(cfg, t0, t1, remaining[..], placed, hadroom, n);
      hadroom, placed := PlaceCode(remaining, n, t0, hadroom, placed);
      SameDropped(cfg, t0, t1, bp[..], n);
      LayingDone(cfg, t0, bp[..], remaining[..], placed, hadroom, n);
    }

    // The entry for the key, or the end of the list.
    method FindEntry(key: Key) returns (bpIndex: nat)
      requires Valid()
      ensures bpIndex == Find(bp[..], key, 0) && bpIndex < bp.Length
    {
      ghost var n: nat :| IsEnd(bp[..], n);
      bpIndex := 0;
      while !bp[bpIndex].last
        invariant 0 <= bpIndex <= n && Find(bp[..], key, 0) == Find(bp[..], key, bpIndex)
        decreases n - bpIndex
      {
        if bp[bpIndex].address == key.address && bp[bpIndex].kind == key.kind {
          break;
        }
        bpIndex := bpIndex + 1;
      }
    }

    // An entry neither enabled nor waiting to be cleared; there is always one.
    method FreeEntry() returns (bpIndex: nat)
      requires Valid()
      ensures bpIndex == FindFree(bp[..], 0) && bpIndex < bp.Length
    {
      ghost var n: nat :| IsEnd(bp[..], n) && forall i :: n <= i < bp.Length ==> Idle(bp[..][i]);
      bpIndex := 0;
      while bp[bpIndex].enabled || bp[bpIndex].toremove
        invariant 0 <= bpIndex <= n && FindFree(bp[..], 0) == FindFree(bp[..], bpIndex)
        decreases n - bpIndex
      {
        bpIndex := bpIndex + 1;
      }
    }

    method AddBreakpoint(address: Address, kind: BpType, length: nat) returns (ok: bool)
      requires Valid() && kind != NONE && (IsData(kind) ==> length <= 1)
      modifies bp
      ensures Valid() && AddStep(cfg, old(bp[..]), Key(address, kind), bp[..], ok)
    {
      hide LayoutStep;
      ghost var t0 := bp[..];
      var key := Key(address, kind);
      var bpIndex := FindEntry(key);
      EndIsIdle(t0, bpIndex);
      if !bp[bpIndex].last {
        bp[bpIndex] := bp[bpIndex].(enabled := true);
      }
      // Always true: an entry that was found has the requested type, and the
      // end of the list is not enabled.
      if !bp[bpIndex].enabled || bp[bpIndex].address != address || bp[bpIndex].kind == kind {
        if bpIndex + 1 == MAX_TOTAL_BREAKPOINTS2 {
          assert bp[..] == t0;
          bpIndex := FreeEntry();
        }
        assert bpIndex == PickEntry(t0, key);
        if bpIndex + 1 == MAX_TOTAL_BREAKPOINTS2 {
          return false;
        }
        if bp[bpIndex].last {
          bp[bpIndex + 1] := bp[bpIndex + 1].(last := true, enabled := false, address := 0, kind := NONE);
        }
        bp[bpIndex] := bp[bpIndex].(last := false, enabled := true, address := address, kind := kind);
      }
      if !bp[bpIndex].icestatus {
        bp[bpIndex] := bp[bpIndex].(toadd := true, toremove := false);
      } else {
        bp[bpIndex] := bp[bpIndex].(toadd := false, toremove := false);
      }
      assert bp[..] == Requested(t0, key);
      RequestIsWellFormed(t0, key);
      ok := LayoutBreakpoints();
      if !ok {
        ghost var t1 := bp[..];
        bp[bpIndex] := bp[bpIndex].(enabled := false, toadd := false);
        assert bp[..] == t1[bpIndex := t1[bpIndex].(enabled := false, toadd := false)];
        DisablingIsWellFormed(t1, bpIndex);
      }
    }

    method DeleteBreakpoint(address: Address, kind: BpType) returns (ok: bool)
      requires Valid() && kind != NONE
      modifies bp
      ensures Valid() && bp[..] == Deleted(old(bp[..]), Key(address, kind))
      ensures ok == (exists i :: 0 <= i < bp.Length && Reachable(old(bp[..]), i) &&
                                 KeyOf(old(bp[..])[i]) == Key(address, kind))
    {
      ghost var t0 := bp[..];
      var bpIndex := FindEntry(Key(address, kind));
      EndIsIdle(t0, bpIndex);
      if !bp[bpIndex].last {
        bp[bpIndex] := bp[bpIndex].(enabled := false);
      }
      if bp[bpIndex].enabled || bp[bpIndex].address != address || bp[bpIndex].kind != kind {
        return false;
      }
      if bp[bpIndex].icestatus {
        bp[bpIndex] := bp[bpIndex].(toadd := false, toremove := true);
      } else {
        bp[bpIndex] := bp[bpIndex].(toadd := false, toremove := false);
      }
      ok := true;
      assert bp[..] == Deleted(t0, Key(address, kind));
      DeletingIsWellFormed(t0, Key(address, kind));
    }

    method DeleteAllBreakpoints()
      requires Valid()
      modifies bp
      ensures Valid() && bp[..] == Map(Disabled, old(bp[..]))
    {
      ghost var t0 := bp[..];
      ghost var n: nat :| IsEnd(t0, n) && forall i :: n <= i < |t0| ==> Idle(t0[i]);
      var i := 0;
      while !bp[i].last
        invariant 0 <= i <= n
        invariant forall j :: 0 <= j < bp.Length ==> bp[j] == if j < i then Disabled(t0[j]) else t0[j]
        decreases n - i
      {
        if bp[i].enabled && bp[i].icestatus {
          bp[i] := bp[i].(toremove := true);
        }
        bp[i] := bp[i].(enabled := false);
        i := i + 1;
      }
      assert bp[..] == Map(Disabled, t0);
      assert IsEnd(bp[..], n);
    }

    method CodeBreakpointAt(address: Address) returns (found: bool)
      requires Valid()
      ensures found <==> Key(address, CODE) in Wanted(bp[..])
    {
      ghost var n: nat :| IsEnd(bp[..], n) && forall i :: n <= i < bp.Length ==> Idle(bp[..][i]);
      var i := 0;
      while !bp[i].last
        invariant 0 <= i <= n
        invariant forall j :: 0 <= j < i ==> !(bp[j].enabled && KeyOf(bp[j]) == Key(address, CODE))
        decreases n - i
      {
        if bp[i].address == address && bp[i].kind == CODE && bp[i].enabled {
          assert KeyOf(bp[..][i]) == Key(address, CODE);
          return true;
        }
        i := i + 1;
      }
      assert forall j :: i <= j < bp.Length ==> Idle(bp[..][j]);
      return false;
    }

    method ClearPhase(ghost n: nat)
      requires bp.Length == MAX_TOTAL_BREAKPOINTS2 && IsEnd(bp[..], n)
      requires forall i :: n <= i < bp.Length ==> Idle(bp[..][i])
      modifies this`sent, bp
      ensures bp[..] == Map(Cleared, old(bp[..])) && sent == old(sent) + ClearCommands(old(bp[..]))
    {
      ghost var t0 := bp[..];
      var i := 0;
      while !bp[i].last
        invariant 0 <= i <= n
        invariant forall j :: 0 <= j < bp.Length ==> bp[j] == if j < i then Cleared(t0[j]) else t0[j]
        invariant sent == old(sent) + ClearCommands(t0[..i])
        decreases n - i
      {
        assert t0[..i + 1][..i] == t0[..i];
        if bp[i].toremove {
          sent := sent + [ClrBreak(bp[i].bpnum, if bp[i].bpnum == 0 then bp[i].address / 2 else 0)];
          bp[i] := bp[i].(icestatus := false, toremove := false);
        }
        i := i + 1;
      }
      IdleTail(t0, n);
    }

    method SetPhase(ghost n: nat)
      requires bp.Length == MAX_TOTAL_BREAKPOINTS2 && IsEnd(bp[..], n)
      requires forall i :: n <= i < bp.Length ==> Idle(bp[..][i])
      modifies this`sent, bp
      ensures bp[..] == Map(Installed, old(bp[..])) && sent == old(sent) + SetCommands(old(bp[..]))
    {
      hide SetCommand;
      ghost var t0 := bp[..];
      var i := 0;
      while !bp[i].last
        invariant 0 <= i <= n
        invariant forall j :: 0 <= j < bp.Length ==> bp[j] == if j < i then Installed(t0[j]) else t0[j]
        invariant sent == old(sent) + SetCommands(t0[..i])
        decreases n - i
      {
        assert t0[..i + 1][..i] == t0[..i];
        if bp[i].toadd && bp[i].enabled {
          sent := sent + [SetCommand(bp[i])];
          bp[i] := bp[i].(icestatus := true, toadd := false);
        }
        i := i + 1;
      }
      IdleTail(t0, n);
    }

    method UpdateBreakpoints()
      requires Valid()
      modifies this`sent, bp
      ensures Valid()
      ensures old(sent) <= sent && UpdateStep(cfg, old(bp[..]), bp[..], sent[|old(sent)|..])
    {
      hide LayoutStep;
      var room := LayoutBreakpoints();
      ghost var laid := bp[..];
      ghost var n: nat :| IsEnd(laid, n) && forall i :: n <= i < |laid| ==> Idle(laid[i]);
      ClearPhase(n);
      assert IsEnd(bp[..], n);
      SetPhase(n);
      UpdatingIsWellFormed(laid);
      assert sent[|old(sent)|..] == ClearCommands(laid) + SetCommands(Map(Cleared, laid));
    }
  }
}
