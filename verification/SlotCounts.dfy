// When there is room for the breakpoints asked for, by counting: two data slots, three
// hardware slots in all, and software breakpoints for code where the device has them.

module SlotCounts {
  import opened BreakpointTable

  // Not taken by a breakpoint that stays, nor by the connection or the device.
  predicate IsFree(cfg: Config, t: seq<Breakpoint>, slot: nat) {
    && slot in {1, 2, 3} && !cfg.softBpOnly && !(cfg.xmega && slot == 1)
    && forall i :: 0 <= i < |t| && t[i].enabled && t[i].icestatus && !t[i].toremove ==> t[i].bpnum != slot
  }

  // The free slots that take data, and the one for code alone.
  function DataSlots(cfg: Config, t: seq<Breakpoint>): (s: seq<nat>)
    ensures |s| <= 2 && (forall i :: 0 <= i < |s| ==> s[i] in {2, 3} && IsFree(cfg, t, s[i]))
    ensures |s| == 2 ==> s[0] != s[1]
    ensures forall x :: x in {2, 3} && IsFree(cfg, t, x) ==> x in s
  {
    (if IsFree(cfg, t, 2) then [2] else []) + (if IsFree(cfg, t, 3) then [3] else [])
  }

  function CodeSlot(cfg: Config, t: seq<Breakpoint>): seq<nat> { if IsFree(cfg, t, 1) then [1] else [] }

  // What a breakpoint needs a slot for.
  datatype Use = ForCode | ForData | ForMask

  function UseOf(k: BpType): Use { if k == CODE then ForCode else if k == DATA_MASK then ForMask else ForData }

  predicate Waits(b: Breakpoint, u: Use) { b.enabled && b.toadd && UseOf(b.kind) == u }

  // How many breakpoints for this use before entry n are to be installed.
  function Waiting(t: seq<Breakpoint>, u: Use, n: nat): nat
    requires n <= |t|
  {
    if n == 0 then 0 else Waiting(t, u, n - 1) + if Waits(t[n - 1], u) then 1 else 0
  }

  lemma {:induction false} WaitingGrows(t: seq<Breakpoint>, u: Use, i: nat, n: nat)
    requires i <= n <= |t|
    ensures Waiting(t, u, i) <= Waiting(t, u, n)
    ensures i < n && Waits(t[i], u) ==> Waiting(t, u, i) < Waiting(t, u, n)
    decreases n
  {
    if i < n {
      WaitingGrows(t, u, i, n - 1);
    }
  }

  // No more things than places, if each has one of its own.
  lemma {:induction false} Pigeonhole(things: set<nat>, place: seq<nat>, places: set<nat>)
    requires forall i | i in things :: i < |place| && place[i] in places
    requires forall i, j | i in things && j in things && i != j :: place[i] != place[j]
    ensures |things| <= |places|
    decreases |things|
  {
    if things != {} {
      var i :| i in things;
      Pigeonhole(things - {i}, place, places - {place[i]});
    }
  }

  // The entries that wait for one use.
  function Waiters(t: seq<Breakpoint>, u: Use, n: nat): set<nat>
    requires n <= |t|
  {
    set i: nat | i < n && Waits(t[i], u)
  }

  lemma {:induction false} WaitersCounted(t: seq<Breakpoint>, u: Use, n: nat)
    requires n <= |t|
    ensures |Waiters(t, u, n)| == Waiting(t, u, n)
    decreases n
  {
    hide Waits;
    if n == 0 {
      assert Waiters(t, u, 0) == {};
    } else {
      WaitersCounted(t, u, n - 1);
      var before := Waiters(t, u, n - 1);
      assert Waiters(t, u, n) == if Waits(t[n - 1], u) then before + {n - 1} else before;
    }
  }

  // Each kind of breakpoint has its limit; a mask takes the last data slot.
  predicate CountsFit(cfg: Config, t: seq<Breakpoint>) {
    var data, code, masks := Waiting(t, ForData, |t|), Waiting(t, ForCode, |t|), Waiting(t, ForMask, |t|);
    && (masks > 0 ==> masks == 1 && IsFree(cfg, t, 3))
    && data + masks <= |DataSlots(cfg, t)|
    && (cfg.noSoftBp ==> code + data + masks <= |CodeSlot(cfg, t)| + |DataSlots(cfg, t)|)
  }

  // Where a waiting breakpoint can be placed.
  lemma WaiterPlace(cfg: Config, t: seq<Breakpoint>, p: seq<nat>, i: nat)
    requires ValidPlacement(cfg, t, p) && i < |t| && Pending(t[i])
    ensures match UseOf(t[i].kind)
      case ForMask => p[i] == 3 && 3 in DataSlots(cfg, t)
      case ForData => p[i] in DataSlots(cfg, t)
      case ForCode => p[i] in DataSlots(cfg, t) || p[i] in CodeSlot(cfg, t) || (p[i] == 0 && !cfg.noSoftBp)
  {
    assert p[i] != 0 ==> Available(cfg, t, p[i]) && IsFree(cfg, t, p[i]);
  }

  lemma PlacesDiffer(cfg: Config, t: seq<Breakpoint>, p: seq<nat>, i: nat, j: nat)
    requires ValidPlacement(cfg, t, p) && i < |t| && j < |t| && i != j && Pending(t[i]) && Pending(t[j]) && p[i] != 0
    ensures p[i] != p[j]
  {
  }

  // Things that wait have places of their own among these.
  lemma WaitersFit(cfg: Config, t: seq<Breakpoint>, p: seq<nat>, things: set<nat>, places: set<nat>)
    requires ValidPlacement(cfg, t, p)
    requires forall i | i in things :: i < |t| && Pending(t[i]) && p[i] in places && p[i] != 0
    ensures |things| <= |places|
  {
    assert |p| == |t|;
    hide ValidPlacement;
    forall i, j | i in things && j in things && i != j
      ensures p[i] != p[j]
    {
      PlacesDiffer(cfg, t, p, i, j);
    }
    Pigeonhole(things, p, places);
  }

  lemma MasksFit(cfg: Config, t: seq<Breakpoint>, p: seq<nat>)
    requires ValidPlacement(cfg, t, p)
    ensures Waiting(t, ForMask, |t|) > 0 ==> Waiting(t, ForMask, |t|) == 1 && IsFree(cfg, t, 3)
  {
    var masks := Waiters(t, ForMask, |t|);
    WaitersCounted(t, ForMask, |t|);
    hide ValidPlacement, Waiting, IsFree;
    forall i | i in masks
      ensures i < |t| && Pending(t[i]) && p[i] in {3} && p[i] != 0 && 3 in DataSlots(cfg, t)
    {
      WaiterPlace(cfg, t, p, i);
    }
    WaitersFit(cfg, t, p, masks, {3});
    if |masks| > 0 {
      var i :| i in masks;
      assert 3 in DataSlots(cfg, t);
    }
  }

  lemma DataFits(cfg: Config, t: seq<Breakpoint>, p: seq<nat>)
    requires ValidPlacement(cfg, t, p)
    ensures Waiting(t, ForData, |t|) + Waiting(t, ForMask, |t|) <= |DataSlots(cfg, t)|
  {
    var datas, masks := Waiters(t, ForData, |t|), Waiters(t, ForMask, |t|);
    var places := Elements(DataSlots(cfg, t));
    WaitersCounted(t, ForData, |t|);
    WaitersCounted(t, ForMask, |t|);
    SetOfSeq(DataSlots(cfg, t));
    assert datas !! masks;
    hide ValidPlacement, Waiting, IsFree;
    forall i | i in datas + masks
      ensures i < |t| && Pending(t[i]) && p[i] in places && p[i] != 0
    {
      WaiterPlace(cfg, t, p, i);
    }
    hide Waiters, DataSlots, Elements;
    WaitersFit(cfg, t, p, datas + masks, places);
  }

  lemma HardwareFits(cfg: Config, t: seq<Breakpoint>, p: seq<nat>)
    requires ValidPlacement(cfg, t, p) && cfg.noSoftBp
    ensures Waiting(t, ForCode, |t|) + Waiting(t, ForData, |t|) + Waiting(t, ForMask, |t|) <=
            |CodeSlot(cfg, t)| + |DataSlots(cfg, t)|
  {
    var datas, codes, masks := Waiters(t, ForData, |t|), Waiters(t, ForCode, |t|), Waiters(t, ForMask, |t|);
    var d, c := Elements(DataSlots(cfg, t)), Elements(CodeSlot(cfg, t));
    WaitersCounted(t, ForData, |t|);
    WaitersCounted(t, ForCode, |t|);
    WaitersCounted(t, ForMask, |t|);
    SetOfSeq(DataSlots(cfg, t));
    SetOfSeq(CodeSlot(cfg, t));
    assert datas !! codes && (datas + codes) !! masks;
    hide ValidPlacement, Waiting, IsFree;
    forall i | i in datas + codes + masks
      ensures i < |t| && Pending(t[i]) && p[i] in d + c && p[i] != 0
    {
      WaiterPlace(cfg, t, p, i);
    }
    hide Waiters, DataSlots, CodeSlot, Elements;
    WaitersFit(cfg, t, p, datas + codes + masks, d + c);
  }

  function Elements(s: seq<nat>): set<nat> { set x | x in s }

  lemma SetOfSeq(s: seq<nat>)
    requires |s| <= 2
    ensures |Elements(s)| <= |s|
  {
    if |s| == 1 {
      assert Elements(s) == {s[0]};
    } else if |s| == 2 {
      assert Elements(s) == {s[0], s[1]};
    }
  }

  // The slots data breakpoints can take beside the masks.
  function Beside(cfg: Config, t: seq<Breakpoint>): seq<nat> {
    if Waiting(t, ForMask, |t|) == 0 then DataSlots(cfg, t) else if IsFree(cfg, t, 2) then [2] else []
  }

  // The waiting data breakpoints in order take these, the code breakpoints the others;
  // what is left over becomes software breakpoints.
  function PlaceOf(cfg: Config, t: seq<Breakpoint>, i: nat): nat
    requires i < |t|
  {
    var d := Beside(cfg, t);
    var n := Waiting(t, ForData, |t|);
    match UseOf(t[i].kind)
    case ForMask => 3
    case ForData => if Waiting(t, ForData, i) < |d| then d[Waiting(t, ForData, i)] else 0
    case ForCode =>
      var rest := CodeSlot(cfg, t) + if n <= |d| then d[n..] else [];
      if Waiting(t, ForCode, i) < |rest| then rest[Waiting(t, ForCode, i)] else 0
  }

  lemma BesideFits(cfg: Config, t: seq<Breakpoint>)
    requires CountsFit(cfg, t)
    ensures var d := Beside(cfg, t); var masks := Waiting(t, ForMask, |t|);
      && Waiting(t, ForData, |t|) <= |d| == |DataSlots(cfg, t)| - masks <= 2
      && (forall i :: 0 <= i < |d| ==> d[i] in {2, 3} && IsFree(cfg, t, d[i]) && (masks > 0 ==> d[i] != 3))
      && (|d| == 2 ==> d[0] != d[1])
  {
    hide Waiting;
  }

  lemma PlaceOfFits(cfg: Config, t: seq<Breakpoint>, i: nat)
    requires CountsFit(cfg, t) && i < |t| && Pending(t[i]) && t[i].kind != NONE
    ensures var s := PlaceOf(cfg, t, i); Fits(cfg, t[i].kind, s) && (s != 0 ==> Available(cfg, t, s))
  {
    BesideFits(cfg, t);
    hide Waiting, Beside;
    WaitingGrows(t, UseOf(t[i].kind), i, |t|);
  }

  lemma PlacesApart(cfg: Config, t: seq<Breakpoint>, i: nat, j: nat)
    requires CountsFit(cfg, t) && i < j < |t| && Pending(t[i]) && Pending(t[j])
    ensures PlaceOf(cfg, t, i) != PlaceOf(cfg, t, j) || PlaceOf(cfg, t, i) == 0
  {
    BesideFits(cfg, t);
    hide Waiting, Beside;
    WaitingGrows(t, UseOf(t[i].kind), i, j);
    WaitingGrows(t, UseOf(t[i].kind), j, |t|);
    WaitingGrows(t, UseOf(t[i].kind), i, |t|);
    WaitingGrows(t, UseOf(t[j].kind), j, |t|);
    hide IsFree, DataSlots;
  }

  // There is a placement exactly when the numbers fit.
  lemma FeasibleExactly(cfg: Config, t: seq<Breakpoint>)
    requires forall i :: 0 <= i < |t| && Pending(t[i]) ==> t[i].kind != NONE
    ensures Feasible(cfg, t) <==> CountsFit(cfg, t)
  {
    if Feasible(cfg, t) {
      var p :| ValidPlacement(cfg, t, p);
      MasksFit(cfg, t, p);
      DataFits(cfg, t, p);
      if cfg.noSoftBp {
        HardwareFits(cfg, t, p);
      }
    }
    if CountsFit(cfg, t) {
      hide CountsFit;
      var p := seq(|t|, i requires 0 <= i < |t| => PlaceOf(cfg, t, i));
      forall i: nat | i < |t| && Pending(t[i])
        ensures Fits(cfg, t[i].kind, p[i]) && (p[i] != 0 ==> Available(cfg, t, p[i]))
      {
        PlaceOfFits(cfg, t, i);
      }
      forall i: nat, j: nat | i < j < |t| && Pending(t[i]) && Pending(t[j])
        ensures p[i] != p[j] || p[i] == 0
      {
        PlacesApart(cfg, t, i, j);
      }
      hide PlaceOf;
      assert ValidPlacement(cfg, t, p);
    }
  }
}
