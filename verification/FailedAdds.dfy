// What an add that finds no room leaves behind in the table of the mkII breakpoint
// manager (src/jtaggeneric.cc).

module FailedAdds {
  import opened BreakpointTable
  import opened Breakpoints
  import opened BreakpointRuns
  import opened Emulator

  // The other breakpoints a failed add drops: pending data breakpoints for which those
  // before them in the table left no data slot.
  function Lost(cfg: Config, t: seq<Breakpoint>, k: Key): set<Key>
    requires PickEntry(t, k) + 1 < |t|
  {
    set j: nat | j < |t| && j != PickEntry(t, k) && LeftOver(cfg, Requested(t, k), j) :: KeyOf(t[j])
  }

  // The request differs from the table in the entry for the key, and in nothing that is
  // enabled or installed besides.
  ghost predicate Shape(t: seq<Breakpoint>, i: nat, k: Key, r: seq<Breakpoint>) {
    && |r| == |t| && i < |t| && KeyOf(r[i]) == k && (t[i].enabled ==> KeyOf(t[i]) == k)
    && r[i].icestatus == t[i].icestatus && !r[i].toremove
    && forall j: nat | j < |t| && j != i ::
         && r[j].enabled == t[j].enabled && Pending(r[j]) == Pending(t[j]) && r[j].bpnum == t[j].bpnum
         && r[j].icestatus == t[j].icestatus && r[j].toremove == t[j].toremove
         && (t[j].enabled || t[j].icestatus ==> KeyOf(r[j]) == KeyOf(t[j]) && KeyOf(t[j]) != k)
  }

  lemma RequestShape(t: seq<Breakpoint>, k: Key)
    requires WellFormed(t) && PlainTable(t) && PlainKey(k) && PickEntry(t, k) + 1 < |t|
    ensures Shape(t, PickEntry(t, k), k, Requested(t, k)) && NoMasks(Requested(t, k))
  {
    EndIsIdle(t, Find(t, k, 0));
  }

  // One entry after a failed add: what is left over is disabled, and so is entry i; for
  // the rest only the slots of pending entries may have moved.
  predicate Outcome(b: Breakpoint, b': Breakpoint, gone: bool) {
    && b'.address == b.address && b'.kind == b.kind && b'.icestatus == b.icestatus && b'.toremove == b.toremove
    && b'.enabled == (b.enabled && !gone) && (Pending(b') ==> Pending(b))
    && (!Pending(b) ==> b'.bpnum == b.bpnum)
  }

  predicate Kept(b: Breakpoint, b': Breakpoint) { Outcome(b, b', true) || Outcome(b, b', false) }

  lemma FailedAddEntry(cfg: Config, r: seq<Breakpoint>, i: nat, t': seq<Breakpoint>, j: nat)
    requires WellFormed(r) && NoMasks(r) && FailedAdd(cfg, r, i, t') && j < |r|
    ensures |t'| == |r| && i < |r| && Outcome(r[j], t'[j], j == i || LeftOver(cfg, r, j))
  {
    hide Feasible, LeftOver;
    var t1: seq<Breakpoint> :| LayoutStep(cfg, r, t1, false) && i < |t1| &&
      t' == t1[i := t1[i].(enabled := false, toadd := false)];
    assert KeptOrDropped(r[j], t1[j]) && FlagsAgree(r[j]);
  }

  lemma FailedAddIsWellFormed(cfg: Config, r: seq<Breakpoint>, i: nat, t': seq<Breakpoint>)
    requires WellFormed(r) && FailedAdd(cfg, r, i, t')
    ensures WellFormed(t')
  {
    hide Feasible, WellFormed, DroppedUpTo, SomeDropped;
    var t1: seq<Breakpoint> :| LayoutStep(cfg, r, t1, false) && i < |t1| &&
      t' == t1[i := t1[i].(enabled := false, toadd := false)];
    DroppedIsWellFormed(r, t1);
    DisablingIsWellFormed(t1, i);
  }

  // All entries at once, against the table before the add.
  ghost predicate Effect(cfg: Config, t: seq<Breakpoint>, k: Key, t': seq<Breakpoint>)
    requires PickEntry(t, k) + 1 < |t|
  {
    var i := PickEntry(t, k);
    && |t'| == |t| && !t'[i].enabled && t'[i].icestatus == t[i].icestatus && !t'[i].toremove && !Pending(t'[i])
    && KeyOf(t'[i]) == k && (t[i].enabled ==> KeyOf(t[i]) == k)
    && forall j: nat | j < |t| && j != i ::
         && t'[j].enabled == (t[j].enabled && !LeftOver(cfg, Requested(t, k), j))
         && t'[j].icestatus == t[j].icestatus && t'[j].toremove == t[j].toremove
         && (t[j].enabled || t[j].icestatus ==> KeyOf(t'[j]) == KeyOf(t[j]) && KeyOf(t[j]) != k)
         && (Pending(t'[j]) ==> Pending(t[j])) && (!Pending(t[j]) ==> t'[j].bpnum == t[j].bpnum)
         && (LeftOver(cfg, Requested(t, k), j) ==> t[j].enabled)
  }

  lemma FailedAddHasEffect(cfg: Config, t: seq<Breakpoint>, k: Key, t': seq<Breakpoint>)
    requires WellFormed(t) && PlainTable(t) && PlainKey(k) && NothingForgotten(t)
    requires PickEntry(t, k) + 1 < |t| && AddStep(cfg, t, k, t', false)
    ensures WellFormed(t') && PlainTable(t') && Effect(cfg, t, k, t')
  {
    hide WellFormed, PlainTable, NothingForgotten, FailedAdd, NoMasks, Requested, PickEntry, LeftOver,
      SameInstalled, Shape, Effect, Outcome;
    var i, r := PickEntry(t, k), Requested(t, k);
    RequestIsWellFormed(t, k);
    RequestShape(t, k);
    RequestKeepsPlain(t, k);
    FailedAddIsWellFormed(cfg, r, i, t');
    forall j: nat | j < |r|
      ensures |t'| == |r| && Outcome(r[j], t'[j], j == i || LeftOver(cfg, r, j)) && Kept(r[j], t'[j])
    {
      FailedAddEntry(cfg, r, i, t', j);
    }
    OutcomesAreEffect(cfg, t, k, t');
    OutcomeIsPlain(r, t');
  }

  lemma OutcomesAreEffect(cfg: Config, t: seq<Breakpoint>, k: Key, t': seq<Breakpoint>)
    requires PickEntry(t, k) + 1 < |t| == |t'|
    requires var i := PickEntry(t, k); var r := Requested(t, k);
      Shape(t, i, k, r) && forall j: nat | j < |r| :: Outcome(r[j], t'[j], j == i || LeftOver(cfg, r, j))
    ensures Effect(cfg, t, k, t')
  {
    hide PickEntry, Requested, LeftOver;
    var i, r := PickEntry(t, k), Requested(t, k);
    forall j: nat | j < |t| && LeftOver(cfg, r, j)
      ensures r[j].enabled
    {
      LeftOverIsPending(cfg, r, j);
    }
  }

  lemma LeftOverIsPending(cfg: Config, t: seq<Breakpoint>, j: nat)
    requires LeftOver(cfg, t, j)
    ensures j < |t| && Pending(t[j])
  {
  }

  lemma OutcomeIsPlain(r: seq<Breakpoint>, t': seq<Breakpoint>)
    requires PlainTable(r) && |t'| == |r|
    requires WellFormed(r) && forall j: nat | j < |r| :: Kept(r[j], t'[j])
    ensures PlainTable(t')
  {
    forall j: nat | j < |r|
      ensures KeyOf(t'[j]) == KeyOf(r[j]) && t'[j].icestatus == r[j].icestatus
      ensures r[j].icestatus ==> t'[j].bpnum == r[j].bpnum
    {
      assert FlagsAgree(r[j]) && Kept(r[j], t'[j]);
    }
  }

  // A failed add leaves the set without its own breakpoint and those it drops.
  lemma FailedAddWants(cfg: Config, t: seq<Breakpoint>, k: Key, t': seq<Breakpoint>)
    requires WellFormed(t) && PlainTable(t) && PlainKey(k) && NothingForgotten(t)
    requires PickEntry(t, k) + 1 < |t| && AddStep(cfg, t, k, t', false)
    ensures Wanted(t') == Wanted(t) - {k} - Lost(cfg, t, k)
    ensures Lost(cfg, t, k) <= Wanted(t) - {k}
  {
    hide AddStep, LeftOver, PickEntry, Requested, WellFormed, PlainTable, NothingForgotten, Effect, Wanted, Lost;
    FailedAddHasEffect(cfg, t, k, t');
    EffectWants(cfg, t, k, t');
    EffectLoses(cfg, t, k, t');
  }

  lemma EffectLoses(cfg: Config, t: seq<Breakpoint>, k: Key, t': seq<Breakpoint>)
    requires PickEntry(t, k) + 1 < |t| && Effect(cfg, t, k, t')
    ensures Lost(cfg, t, k) <= Wanted(t) - {k}
  {
    hide LeftOver, PickEntry, Requested;
  }

  lemma EffectWants(cfg: Config, t: seq<Breakpoint>, k: Key, t': seq<Breakpoint>)
    requires WellFormed(t) && PlainTable(t) && PickEntry(t, k) + 1 < |t| && Effect(cfg, t, k, t')
    ensures Wanted(t') == Wanted(t) - {k} - Lost(cfg, t, k)
  {
    hide LeftOver, PickEntry, Requested, WellFormed, PlainTable;
    var i := PickEntry(t, k);
    forall x | x in Wanted(t')
      ensures x in Wanted(t) && x != k && x !in Lost(cfg, t, k)
    {
      var j: nat :| j < |t'| && t'[j].enabled && KeyOf(t'[j]) == x;
      assert j != i && t[j].enabled && KeyOf(t[j]) == x;
      StaysApart(cfg, t, k, t', j);
    }
    forall x | x in Wanted(t) && x != k && x !in Lost(cfg, t, k)
      ensures x in Wanted(t')
    {
      var j: nat :| j < |t| && t[j].enabled && KeyOf(t[j]) == x;
      assert t'[j].enabled && KeyOf(t'[j]) == x;
    }
  }

  // Keys are listed once, so an entry that stays is not one that is dropped.
  lemma StaysApart(cfg: Config, t: seq<Breakpoint>, k: Key, t': seq<Breakpoint>, j: nat)
    requires WellFormed(t) && PlainTable(t) && PickEntry(t, k) + 1 < |t| && Effect(cfg, t, k, t')
    requires j < |t| && j != PickEntry(t, k) && t'[j].enabled
    ensures KeyOf(t[j]) !in Lost(cfg, t, k)
  {
    hide LeftOver, PickEntry, Requested;
    if KeyOf(t[j]) in Lost(cfg, t, k) {
      var l: nat :| l < |t| && l != PickEntry(t, k) && LeftOver(cfg, Requested(t, k), l) && KeyOf(t[l]) == KeyOf(t[j]);
      SameKeySameEntry(t, j, l);
      assert false;
    }
  }

  lemma SameKeySameEntry(t: seq<Breakpoint>, i: nat, j: nat)
    requires WellFormed(t) && PlainTable(t) && i < |t| && j < |t|
    requires t[i].enabled && t[j].enabled && KeyOf(t[i]) == KeyOf(t[j])
    ensures i == j
  {
    assert FlagsAgree(t[i]) && FlagsAgree(t[j]);
  }

  // It takes back only its own breakpoint exactly when every other pending data
  // breakpoint still finds a slot before it in the table order.
  lemma FailedAddTakesBackItsOwn(cfg: Config, t: seq<Breakpoint>, k: Key, t': seq<Breakpoint>)
    requires WellFormed(t) && PlainTable(t) && PlainKey(k) && NothingForgotten(t)
    requires PickEntry(t, k) + 1 < |t| && AddStep(cfg, t, k, t', false)
    ensures Wanted(t') == Wanted(t) - {k} <==>
            forall j: nat | j < |t| && j != PickEntry(t, k) :: !LeftOver(cfg, Requested(t, k), j)
  {
    FailedAddWants(cfg, t, k, t');
    hide AddStep, LeftOver, PickEntry, Requested, Wanted;
    if j: nat :| j < |t| && j != PickEntry(t, k) && LeftOver(cfg, Requested(t, k), j) {
      assert KeyOf(t[j]) in Lost(cfg, t, k);
    }
  }

  // A failed add keeps everything in order exactly when the breakpoint it was for was not
  // installed; otherwise that one stays in the emulator, marked neither wanted nor for
  // clearing.
  lemma FailedAddKeepsGood(cfg: Config, t: seq<Breakpoint>, k: Key, t': seq<Breakpoint>, ice: Ice)
    requires Good(cfg, t, ice) && PlainKey(k)
    requires PickEntry(t, k) + 1 < |t| && AddStep(cfg, t, k, t', false)
    ensures Good(cfg, t', ice) <==> !t[PickEntry(t, k)].icestatus
    ensures !NothingForgotten(t') <==> t[PickEntry(t, k)].icestatus
  {
    FailedAddHasEffect(cfg, t, k, t');
    EffectForgets(cfg, t, k, t');
    hide AddStep, Effect, Feasible, WellFormed, PlainTable, SlotsApart, NothingForgotten, Represents, PickEntry;
    if !t[PickEntry(t, k)].icestatus {
      EffectKeepsInstalled(cfg, t, k, t');
      SameInstalledKeeps(t, t', ice);
      FeasibleAfter(cfg, t, k, t');
    }
  }

  lemma EffectForgets(cfg: Config, t: seq<Breakpoint>, k: Key, t': seq<Breakpoint>)
    requires WellFormed(t) && NothingForgotten(t) && PickEntry(t, k) + 1 < |t| && Effect(cfg, t, k, t')
    ensures NothingForgotten(t') <==> !t[PickEntry(t, k)].icestatus
  {
    hide PickEntry, Requested;
    var i := PickEntry(t, k);
    if !t[i].icestatus {
      forall j: nat | j < |t| && t'[j].icestatus && !t'[j].enabled
        ensures t'[j].toremove
      {
        assert FlagsAgree(t[j]);
        assert LeftOver(cfg, Requested(t, k), j) ==> t[j].enabled;
        LeftOverIsFresh(cfg, t, k, t', j);
      }
    }
  }

  // What is dropped was pending, so it is not installed.
  lemma LeftOverIsFresh(cfg: Config, t: seq<Breakpoint>, k: Key, t': seq<Breakpoint>, j: nat)
    requires WellFormed(t) && PickEntry(t, k) + 1 < |t| && Effect(cfg, t, k, t')
    requires j < |t| && j != PickEntry(t, k)
    ensures LeftOver(cfg, Requested(t, k), j) ==> !t[j].icestatus
  {
    assert FlagsAgree(t[j]);
  }

  lemma EffectKeepsInstalled(cfg: Config, t: seq<Breakpoint>, k: Key, t': seq<Breakpoint>)
    requires WellFormed(t) && PickEntry(t, k) + 1 < |t| && Effect(cfg, t, k, t') && !t[PickEntry(t, k)].icestatus
    ensures SameInstalled(t, t')
  {
    hide PickEntry, Requested, LeftOver;
    forall j: nat | j < |t|
      ensures t[j].icestatus ==> !Pending(t[j])
    {
      assert FlagsAgree(t[j]);
    }
  }

  lemma FeasibleAfter(cfg: Config, t: seq<Breakpoint>, k: Key, t': seq<Breakpoint>)
    requires WellFormed(t) && PickEntry(t, k) + 1 < |t| && Effect(cfg, t, k, t') && Feasible(cfg, t)
    ensures Feasible(cfg, t')
  {
    hide LeftOver, PickEntry, Requested, Feasible;
    forall j | 0 <= j < |t|
      ensures Pending(t'[j]) ==> Pending(t[j]) && t'[j].kind == t[j].kind
      ensures Held(t'[j]) ==> Held(t[j]) && t'[j].bpnum == t[j].bpnum
    {
      assert FlagsAgree(t[j]);
    }
    FewerIsFeasible(cfg, t, t');
  }
}
