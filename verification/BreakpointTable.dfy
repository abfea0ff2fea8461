// The table of mkII breakpoints (src/jtag.h) and the allocation of hardware
// slots to its pending entries (src/jtaggeneric.cc).

module BreakpointTable {
  datatype BpType = NONE | CODE | WRITE_DATA | READ_DATA | ACCESS_DATA | DATA_MASK

  type Address = a: nat | a < 0x1_0000_0000

  datatype Breakpoint = Breakpoint(
    address: Address, maskPointer: nat, kind: BpType, enabled: bool, last: bool,
    icestatus: bool, toremove: bool, toadd: bool, bpnum: nat)

  const DEFAULT_BP := Breakpoint(0, 0, NONE, false, true, false, false, false, 0)

  const MAX_TOTAL_BREAKPOINTS2: nat := 255
  const MAX_BREAKPOINTS2: nat := 4
  const XMEGA_UNAVAIL: nat := 1
  const FIRST_DATA: nat := 2
  const DATA_MASK_SLOT: nat := 3

  function NewTable(): (t: seq<Breakpoint>)
    ensures |t| == MAX_TOTAL_BREAKPOINTS2 && forall i :: 0 <= i < |t| ==> t[i] == DEFAULT_BP
  {
    seq(MAX_TOTAL_BREAKPOINTS2, _ => DEFAULT_BP)
  }

  // What the connection and the device allow.
  datatype Config = Config(noSoftBp: bool, softBpOnly: bool, xmega: bool)

  predicate IsData(k: BpType) { k == READ_DATA || k == WRITE_DATA || k == ACCESS_DATA }

  // Wanted but not in the emulator.
  predicate Pending(b: Breakpoint) { b.enabled && b.toadd }

  // In the emulator and staying there.
  predicate Held(b: Breakpoint) { b.enabled && !b.toremove && b.icestatus }

  predicate Idle(b: Breakpoint) { b.kind == NONE && !b.enabled && !b.toremove && !b.toadd && !b.icestatus }

  // The first entry marked as the end of the list.
  predicate IsEnd(t: seq<Breakpoint>, n: nat) {
    n < |t| && t[n].last && forall i :: 0 <= i < n ==> !t[i].last
  }

  predicate FlagsAgree(b: Breakpoint) {
    && b.bpnum <= 3 && b.maskPointer < MAX_TOTAL_BREAKPOINTS2
    && (b.toadd ==> !b.icestatus)
    && (b.toremove ==> b.icestatus && !b.enabled)
    && (b.enabled ==> b.kind != NONE && (b.icestatus || b.toadd))
  }

  // What every operation keeps, whether or not it succeeds.
  ghost predicate WellFormed(t: seq<Breakpoint>) {
    && |t| == MAX_TOTAL_BREAKPOINTS2
    && (exists n: nat :: IsEnd(t, n) && forall i :: n <= i < |t| ==> Idle(t[i]))
    && (forall i :: 0 <= i < |t| ==> FlagsAgree(t[i]))
  }

  // ----- which slots a placement may use

  predicate Available(cfg: Config, t: seq<Breakpoint>, s: nat) {
    && 1 <= s <= 3 && !cfg.softBpOnly && !(cfg.xmega && s == XMEGA_UNAVAIL)
    && forall i :: 0 <= i < |t| && Held(t[i]) ==> t[i].bpnum != s
  }

  // Slot 0 stands for a software breakpoint.
  predicate Fits(cfg: Config, k: BpType, s: nat) {
    match k
    case CODE => 1 <= s <= 3 || (s == 0 && !cfg.noSoftBp)
    case DATA_MASK => s == DATA_MASK_SLOT
    case NONE => false
    case _ => s == FIRST_DATA || s == DATA_MASK_SLOT
  }

  // p gives every pending entry a slot of its own that it fits and that is free.
  ghost predicate ValidPlacement(cfg: Config, t: seq<Breakpoint>, p: seq<nat>) {
    && |p| == |t|
    && (forall i :: 0 <= i < |t| && Pending(t[i]) ==>
          Fits(cfg, t[i].kind, p[i]) && (p[i] != 0 ==> Available(cfg, t, p[i])))
    && (forall i, j :: 0 <= i < j < |t| && Pending(t[i]) && Pending(t[j]) ==> p[i] != p[j] || p[i] == 0)
  }

  ghost predicate Feasible(cfg: Config, t: seq<Breakpoint>) {
    exists p :: ValidPlacement(cfg, t, p)
  }

  function Slots(t: seq<Breakpoint>): (p: seq<nat>)
    ensures |p| == |t| && forall i :: 0 <= i < |t| ==> p[i] == t[i].bpnum
  {
    seq(|t|, i requires 0 <= i < |t| => t[i].bpnum)
  }

  // Only the slots of pending entries may differ.
  ghost predicate OnlySlotsMoved(t: seq<Breakpoint>, t': seq<Breakpoint>) {
    && |t'| == |t|
    && forall i :: 0 <= i < |t| ==>
         t'[i] == if Pending(t[i]) then t[i].(bpnum := t'[i].bpnum) else t[i]
  }

  // What a failed layout may do to one entry besides: drop it from the request.
  predicate KeptOrDropped(b: Breakpoint, b': Breakpoint) {
    || b' == b.(bpnum := b'.bpnum)
    || b' == b.(bpnum := b'.bpnum, enabled := false, toadd := false)
  }

  ghost predicate NoMasks(t: seq<Breakpoint>) {
    forall i :: 0 <= i < |t| ==> t[i].kind != DATA_MASK
  }

  ghost predicate SomeDropped(t: seq<Breakpoint>, t': seq<Breakpoint>) {
    && |t'| == |t|
    && (forall i :: 0 <= i < |t| ==> KeptOrDropped(t[i], t'[i]) && (!Pending(t[i]) ==> t'[i].bpnum == t[i].bpnum))
    && (NoMasks(t) ==> forall i :: 0 <= i < |t| && !(Pending(t[i]) && IsData(t[i].kind)) ==>
          t'[i] == t[i].(bpnum := t'[i].bpnum))
  }

  // How many slots data breakpoints find free.
  function FreeData(cfg: Config, t: seq<Breakpoint>): nat {
    (if Available(cfg, t, FIRST_DATA) then 1 else 0) + (if Available(cfg, t, DATA_MASK_SLOT) then 1 else 0)
  }

  predicate PendingData(b: Breakpoint) { Pending(b) && IsData(b.kind) }

  // How many pending data breakpoints come before entry i.
  function DataBefore(t: seq<Breakpoint>, i: nat): nat
    requires i <= |t|
  {
    if i == 0 then 0 else DataBefore(t, i - 1) + if PendingData(t[i - 1]) then 1 else 0
  }

  // Entry i asks for a data slot when those before it have taken them all.
  predicate LeftOver(cfg: Config, t: seq<Breakpoint>, i: nat) {
    i < |t| && PendingData(t[i]) && DataBefore(t, i) >= FreeData(cfg, t)
  }

  // Of the entries before d exactly those left over were disabled, and no others.
  predicate DroppedUpTo(cfg: Config, t: seq<Breakpoint>, t': seq<Breakpoint>, d: nat) {
    && |t'| == |t|
    && forall i: nat | i < |t| :: t'[i].enabled == (t[i].enabled && !(i < d && LeftOver(cfg, t, i)))
  }

  // What a layout promises: success exactly when a placement exists, and then
  // it is one.
  ghost predicate LayoutStep(cfg: Config, t: seq<Breakpoint>, t': seq<Breakpoint>, hadroom: bool) {
    && (hadroom <==> Feasible(cfg, t))
    && if hadroom then OnlySlotsMoved(t, t') && ValidPlacement(cfg, t, Slots(t'))
       else
         && SomeDropped(t, t') && (NoMasks(t) ==> DroppedUpTo(cfg, t, t', |t|))
         && forall i :: 0 <= i < |t'| ==> t'[i].bpnum <= 3
  }

  // ----- the greedy allocation, entry by entry

  // The entries in placed have their slots; remaining says which are left.
  ghost predicate Placing(cfg: Config, t0: seq<Breakpoint>, t: seq<Breakpoint>, remaining: seq<bool>,
                          placed: set<nat>) {
    && |remaining| == 6 && OnlySlotsMoved(t0, t)
    && (forall i :: i in placed ==>
          && i < |t0| && Pending(t0[i]) && Fits(cfg, t0[i].kind, t[i].bpnum)
          && (t[i].bpnum != 0 ==> Available(cfg, t0, t[i].bpnum)))
    && (forall i, j :: i in placed && j in placed && i != j ==> t[i].bpnum != t[j].bpnum || t[i].bpnum == 0)
    && (forall s :: 1 <= s <= 3 ==>
          (remaining[s] <==> Available(cfg, t0, s) && forall i :: i in placed ==> t[i].bpnum != s))
    && (forall i :: i in placed && IsData(t0[i].kind) && t[i].bpnum == DATA_MASK_SLOT ==> !remaining[FIRST_DATA])
  }

  lemma Place(cfg: Config, t0: seq<Breakpoint>, t: seq<Breakpoint>, remaining: seq<bool>, placed: set<nat>, i: nat,
              slot: nat)
    requires Placing(cfg, t0, t, remaining, placed)
    requires i < |t0| && i !in placed && Pending(t0[i]) && Fits(cfg, t0[i].kind, slot)
    requires slot == 0 || (slot <= 3 && remaining[slot])
    requires IsData(t0[i].kind) && slot == DATA_MASK_SLOT ==> !remaining[FIRST_DATA]
    ensures Placing(cfg, t0, t[i := t[i].(bpnum := slot)], remaining[slot := false], placed + {i})
  {
    hide Available, Fits;
    var t' := t[i := t[i].(bpnum := slot)];
    var remaining' := remaining[slot := false];
    var placed' := placed + {i};
    forall s | 1 <= s <= 3
      ensures remaining'[s] <==> Available(cfg, t0, s) && forall i :: i in placed' ==> t'[i].bpnum != s
    {
      if s == slot {
        assert i in placed' && t'[i].bpnum == s;
      } else {
        assert forall k :: k in placed ==> t'[k].bpnum == t[k].bpnum;
        assert forall k :: k in placed' ==> k in placed || t'[k].bpnum == slot;
      }
    }
  }

  lemma NoRoomForMask(cfg: Config, t0: seq<Breakpoint>, t: seq<Breakpoint>, remaining: seq<bool>, placed: set<nat>,
                      i: nat)
    requires Placing(cfg, t0, t, remaining, placed)
    requires forall j :: j in placed ==> t0[j].kind != CODE
    requires i < |t0| && i !in placed && Pending(t0[i]) && t0[i].kind == DATA_MASK && !remaining[DATA_MASK_SLOT]
    ensures !Feasible(cfg, t0)
  {
  }

  lemma NoRoomForData(cfg: Config, t0: seq<Breakpoint>, t: seq<Breakpoint>, remaining: seq<bool>, placed: set<nat>,
                      i: nat)
    requires Placing(cfg, t0, t, remaining, placed)
    requires forall j :: j in placed ==> t0[j].kind != CODE
    requires i < |t0| && i !in placed && Pending(t0[i]) && IsData(t0[i].kind)
    requires !remaining[DATA_MASK_SLOT] && !remaining[FIRST_DATA]
    ensures !Feasible(cfg, t0)
  {
  }

  lemma NoRoomForCode(cfg: Config, t0: seq<Breakpoint>, t: seq<Breakpoint>, remaining: seq<bool>, placed: set<nat>,
                      i: nat)
    requires Placing(cfg, t0, t, remaining, placed) && cfg.noSoftBp
    requires i < |t0| && i !in placed && Pending(t0[i])
    requires !remaining[1] && !remaining[2] && !remaining[3]
    ensures !Feasible(cfg, t0)
  {
  }

  lemma AllPlaced(cfg: Config, t0: seq<Breakpoint>, t: seq<Breakpoint>, remaining: seq<bool>, placed: set<nat>)
    requires Placing(cfg, t0, t, remaining, placed)
    requires forall i :: 0 <= i < |t0| && Pending(t0[i]) ==> i in placed
    ensures LayoutStep(cfg, t0, t, true)
  {
    assert ValidPlacement(cfg, t0, Slots(t));
  }
}
