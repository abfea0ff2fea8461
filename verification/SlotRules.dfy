// Which slots the device and the connection leave to breakpoints of a kind
// (src/jtaggeneric.cc:877-905), kept over the calls of the mkII breakpoint manager.

module SlotRules {
  import opened BreakpointTable
  import opened Breakpoints
  import opened BreakpointRuns
  import opened Emulator
  import opened FailedAdds
  import opened SlotCounts

  // Slot 0 is a software breakpoint.  Of the hardware slots debugWIRE, or old firmware
  // with an Xmega, leaves none, an Xmega not the first, and only the last two take data.
  predicate Allowed(cfg: Config, kind: BpType, slot: nat) {
    && slot <= 3
    && (cfg.softBpOnly ==> slot == 0) && (cfg.xmega ==> slot != 1) && (cfg.noSoftBp ==> slot != 0)
    && (kind != CODE ==> slot in {2, 3})
  }

  ghost predicate Obeys(cfg: Config, t: seq<Breakpoint>) {
    forall i :: 0 <= i < |t| && t[i].icestatus ==> Allowed(cfg, t[i].kind, t[i].bpnum)
  }

  lemma PlacementIsAllowed(cfg: Config, t: seq<Breakpoint>, p: seq<nat>, i: nat)
    requires ValidPlacement(cfg, t, p) && i < |t| && Pending(t[i])
    ensures Allowed(cfg, t[i].kind, p[i])
  {
  }

  lemma SameInstalledObeys(cfg: Config, t: seq<Breakpoint>, t': seq<Breakpoint>)
    requires Obeys(cfg, t) && SameInstalled(t, t')
    ensures Obeys(cfg, t')
  {
    assert forall i :: 0 <= i < |t| && t[i].icestatus ==> KeyOf(t'[i]) == KeyOf(t[i]);
  }

  lemma LaidIsSameInstalled(t: seq<Breakpoint>, t': seq<Breakpoint>)
    requires WellFormed(t) && OnlySlotsMoved(t, t')
    ensures SameInstalled(t, t')
  {
    assert forall i :: 0 <= i < |t| ==> FlagsAgree(t[i]);
  }

  lemma AddObeys(cfg: Config, t: seq<Breakpoint>, k: Key, t': seq<Breakpoint>, ok: bool)
    requires WellFormed(t) && PlainTable(t) && NothingForgotten(t) && PlainKey(k) && Obeys(cfg, t)
    requires AddStep(cfg, t, k, t', ok)
    requires !ok && PickEntry(t, k) + 1 < |t| ==> !t[PickEntry(t, k)].icestatus
    ensures Obeys(cfg, t')
  {
    hide Obeys, Effect, SameInstalled, Requested, PickEntry, WellFormed, PlainTable, NothingForgotten;
    if PickEntry(t, k) + 1 < |t| {
      RequestKeepsPlain(t, k);
      RequestIsWellFormed(t, k);
      if ok {
        SameInstalledObeys(cfg, t, Requested(t, k));
        LaidIsSameInstalled(Requested(t, k), t');
        SameInstalledObeys(cfg, Requested(t, k), t');
      } else {
        FailedAddHasEffect(cfg, t, k, t');
        EffectKeepsInstalled(cfg, t, k, t');
        SameInstalledObeys(cfg, t, t');
      }
    }
  }

  lemma DeleteObeys(cfg: Config, t: seq<Breakpoint>, k: Key)
    requires WellFormed(t) && PlainTable(t) && NothingForgotten(t) && k.kind != NONE && Obeys(cfg, t)
    ensures Obeys(cfg, Deleted(t, k)) && Obeys(cfg, Map(Disabled, t))
  {
    DeletedKeeps(t, k);
    hide Deleted, WellFormed, PlainTable, NothingForgotten;
    SameInstalledObeys(cfg, t, Deleted(t, k));
  }

  lemma UpdateObeys(cfg: Config, t: seq<Breakpoint>, t': seq<Breakpoint>, commands: seq<Command>)
    requires WellFormed(t) && Feasible(cfg, t) && Obeys(cfg, t) && UpdateStep(cfg, t, t', commands)
    ensures Obeys(cfg, t')
  {
    hide Feasible, Allowed;
    var laid: seq<Breakpoint>, room: bool :|
      && LayoutStep(cfg, t, laid, room)
      && t' == Map(Installed, Map(Cleared, laid))
      && commands == ClearCommands(laid) + SetCommands(Map(Cleared, laid));
    hide ValidPlacement;
    LaidIsSameInstalled(t, laid);
    SameInstalledObeys(cfg, t, laid);
    forall i: nat | i < |t'| && t'[i].icestatus
      ensures Allowed(cfg, t'[i].kind, t'[i].bpnum)
    {
      if Pending(t[i]) {
        PlacementIsAllowed(cfg, t, Slots(laid), i);
      }
    }
  }

  // Over debugWIRE an add succeeds exactly for code, if the device has software
  // breakpoints and the table an entry left.
  lemma DebugWireAdds(cfg: Config, t: seq<Breakpoint>, k: Key, t': seq<Breakpoint>, ok: bool, ice: Ice)
    requires Good(cfg, t, ice) && Obeys(cfg, t) && PlainKey(k) && cfg.softBpOnly && AddStep(cfg, t, k, t', ok)
    ensures ok <==> PickEntry(t, k) + 1 < |t| && k.kind == CODE && !cfg.noSoftBp
  {
    hide WellFormed, PlainTable, NothingForgotten, Represents, SlotsApart, PickEntry, Requested, Feasible;
    if PickEntry(t, k) + 1 < |t| {
      var i, r := PickEntry(t, k), Requested(t, k);
      RequestKeepsPlain(t, k);
      SameInstalledObeys(cfg, t, r);
      RequestedEntry(t, k);
      if ok {
        assert Pending(r[i]) ==> Allowed(cfg, k.kind, t'[i].bpnum) by {
          if Pending(r[i]) {
            PlacementIsAllowed(cfg, r, Slots(t'), i);
          }
        }
      }
      if k.kind == CODE && !cfg.noSoftBp {
        SoftwareIsFeasible(cfg, t, k);
      }
    }
  }

  lemma RequestedEntry(t: seq<Breakpoint>, k: Key)
    requires PickEntry(t, k) + 1 < |t|
    ensures var r := Requested(t, k)[PickEntry(t, k)];
      KeyOf(r) == k && r.enabled && (Pending(r) || r.icestatus)
  {
  }

  lemma SoftwareIsFeasible(cfg: Config, t: seq<Breakpoint>, k: Key)
    requires PickEntry(t, k) + 1 < |t| && cfg.softBpOnly && k.kind == CODE && !cfg.noSoftBp && Feasible(cfg, t)
    ensures Feasible(cfg, Requested(t, k))
  {
    var r := Requested(t, k);
    var p: seq<nat> := seq(|r|, _ => 0);
    var q :| ValidPlacement(cfg, t, q);
    forall i: nat | i < |r| && Pending(r[i])
      ensures r[i].kind == CODE
    {
      if i != PickEntry(t, k) {
        PlacementIsAllowed(cfg, t, q, i);
      }
    }
    assert ValidPlacement(cfg, r, p);
  }

  // An add is refused for lack of an entry exactly when the list is full, none of its
  // entries is for this breakpoint and none can be overwritten.
  lemma NoEntryExactly(t: seq<Breakpoint>, k: Key)
    requires WellFormed(t)
    ensures PickEntry(t, k) + 1 >= |t| <==>
            forall i :: 0 <= i < 254 ==> !t[i].last && KeyOf(t[i]) != k && (t[i].enabled || t[i].toremove)
  {
    var i := Find(t, k, 0);
    EndIsIdle(t, i);
  }

  // So an add of a new breakpoint to a full list takes an entry that is neither wanted
  // nor waiting to be cleared, and leaves all others as they are.
  lemma FreeEntryIsReused(t: seq<Breakpoint>, k: Key)
    requires WellFormed(t) && PickEntry(t, k) + 1 < |t|
    requires forall i :: 0 <= i < 254 ==> !t[i].last && KeyOf(t[i]) != k
    ensures var i := PickEntry(t, k);
      && !t[i].enabled && !t[i].toremove && KeyOf(Requested(t, k)[i]) == k
      && Requested(t, k) == t[i := Requested(t, k)[i]]
  {
    EndIsIdle(t, Find(t, k, 0));
  }

  // An add succeeds exactly when there is an entry for it and the breakpoints then
  // waiting fit the free slots by number.
  lemma AddSucceedsByCounting(cfg: Config, t: seq<Breakpoint>, k: Key, t': seq<Breakpoint>, ok: bool)
    requires WellFormed(t) && PlainTable(t) && PlainKey(k) && AddStep(cfg, t, k, t', ok)
    ensures ok <==> PickEntry(t, k) + 1 < |t| && CountsFit(cfg, Requested(t, k))
  {
    hide PickEntry, Requested, CountsFit;
    if PickEntry(t, k) + 1 < |t| {
      RequestShape(t, k);
      RequestIsWellFormed(t, k);
      assert forall i :: 0 <= i < |t| ==> FlagsAgree(Requested(t, k)[i]);
      FeasibleExactly(cfg, Requested(t, k));
    }
  }
}
