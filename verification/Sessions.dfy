// Whole runs of the mkII breakpoint manager: the table, the plain set of breakpoints
// the calls describe, and what the emulator has after an update.

module Sessions {
  import opened BreakpointTable
  import opened Breakpoints
  import opened BreakpointRuns
  import opened Emulator
  import opened Spaces
  import opened FailedAdds
  import opened SlotRules

  // A call; an add with its result.
  datatype Op = Add(key: Key, ok: bool) | Delete(key: Key) | DeleteAll | Update

  datatype State = State(table: seq<Breakpoint>, sent: seq<Command>)

  function Start(): State { State(NewTable(), []) }

  ghost predicate Step(cfg: Config, s: State, op: Op, s': State) {
    if op.Add? then PlainKey(op.key) && AddStep(cfg, s.table, op.key, s'.table, op.ok) && s'.sent == s.sent
    else if op.Delete? then PlainKey(op.key) && s' == State(Deleted(s.table, op.key), s.sent)
    else if op.DeleteAll? then s' == State(Map(Disabled, s.table), s.sent)
    else s.sent <= s'.sent && UpdateStep(cfg, s.table, s'.table, s'.sent[|s.sent|..])
  }

  ghost predicate StepAt(cfg: Config, states: seq<State>, ops: seq<Op>, i: nat) {
    i < |ops| && i + 1 < |states| && Step(cfg, states[i], ops[i], states[i + 1])
  }

  ghost predicate Run(cfg: Config, states: seq<State>, ops: seq<Op>) {
    && |states| == |ops| + 1 && states[0] == Start()
    && forall i: nat :: i < |ops| ==> StepAt(cfg, states, ops, i)
  }

  // A failed add for a breakpoint that is installed.
  predicate Forgets(t: seq<Breakpoint>, op: Op) {
    op.Add? && !op.ok && PickEntry(t, op.key) + 1 < |t| && t[PickEntry(t, op.key)].icestatus
  }

  predicate NeverForgets(states: seq<State>, ops: seq<Op>) {
    |states| > |ops| && forall i: nat | i < |ops| :: !Forgets(states[i].table, ops[i])
  }

  // The set after a call.  A failed add takes its breakpoint out, and those it drops.
  function WantedAfter(cfg: Config, wanted: set<Key>, t: seq<Breakpoint>, op: Op): set<Key> {
    match op
    case Add(k, ok) =>
      if ok then wanted + {k}
      else if PickEntry(t, k) + 1 >= |t| then wanted
      else wanted - {k} - Lost(cfg, t, k)
    case Delete(k) => wanted - {k}
    case DeleteAll => {}
    case Update => wanted
  }

  function WantedBy(cfg: Config, states: seq<State>, ops: seq<Op>): set<Key>
    requires |states| > |ops|
    decreases |ops|
  {
    if ops == [] then {}
    else
      var m := |ops| - 1;
      WantedAfter(cfg, WantedBy(cfg, states[..m + 1], ops[..m]), states[m].table, ops[m])
  }

  // A breakpoint is in its program word, or in a slot that it may have and that watches
  // what was asked for.
  predicate Watched(cfg: Config, ice: Ice, k: Key, slot: nat) {
    && Allowed(cfg, k.kind, slot)
    && if slot == 0 then k.kind == CODE && k.address in ice.words else slot in ice.slots && ice.slots[slot] == Asked(k)
  }

  // The emulator watches exactly the breakpoints of the set, no two in one hardware slot.
  predicate Houses(cfg: Config, ice: Ice, wanted: set<Key>, place: map<Key, nat>) {
    && place.Keys == wanted
    && (forall k | k in wanted :: Watched(cfg, ice, k, place[k]))
    && (forall k, l | k in wanted && l in wanted && k != l :: place[k] != place[l] || place[k] == 0)
    && (forall s | s in ice.slots :: s != 0 && exists k :: k in wanted && place[k] == s)
    && (forall w | w in ice.words :: exists k :: k in wanted && k.kind == CODE && k.address == w && place[k] == 0)
  }

  ghost predicate Mirrors(cfg: Config, ice: Ice, wanted: set<Key>) {
    exists place: map<Key, nat> :: Houses(cfg, ice, wanted, place)
  }

  lemma RunPrefix(cfg: Config, states: seq<State>, ops: seq<Op>)
    requires Run(cfg, states, ops) && ops != []
    ensures var m := |ops| - 1;
      Run(cfg, states[..m + 1], ops[..m]) && Step(cfg, states[m], ops[m], states[m + 1])
  {
    hide Step;
    var m := |ops| - 1;
    assert StepAt(cfg, states, ops, m);
    var states', ops' := states[..m + 1], ops[..m];
    forall i: nat | i < m
      ensures StepAt(cfg, states', ops', i)
    {
      assert StepAt(cfg, states, ops, i);
    }
  }

  lemma StartIsGood(cfg: Config)
    ensures Good(cfg, Start().table, EMPTY_ICE) && Obeys(cfg, Start().table) && Wanted(Start().table) == {}
  {
    assert IsEnd(Start().table, 0);
    assert ValidPlacement(cfg, Start().table, Slots(Start().table));
  }

  function SlotOf(t: seq<Breakpoint>, k: Key): nat {
    var i := Find(t, k, 0);
    if i < |t| then t[i].bpnum else 0
  }

  lemma EnabledIsFound(t: seq<Breakpoint>, j: nat)
    requires WellFormed(t) && PlainTable(t) && j < |t| && t[j].enabled
    ensures SlotOf(t, KeyOf(t[j])) == t[j].bpnum
  {
    var i := Find(t, KeyOf(t[j]), 0);
    EndIsIdle(t, i);
    assert FlagsAgree(t[j]);
  }

  lemma EnabledIsHoused(cfg: Config, t: seq<Breakpoint>, ice: Ice, j: nat)
    requires Good(cfg, t, ice) && Obeys(cfg, t) && Synced(t) && j < |t| && t[j].enabled
    ensures SlotOf(t, KeyOf(t[j])) == t[j].bpnum && Watched(cfg, ice, KeyOf(t[j]), t[j].bpnum)
  {
    EnabledIsFound(t, j);
    assert Holds(ice, t[j]) && FlagsAgree(t[j]);
    assert PlainKey(KeyOf(t[j]));
  }

  lemma WantedEntry(t: seq<Breakpoint>, k: Key) returns (j: nat)
    requires k in Wanted(t)
    ensures j < |t| && t[j].enabled && KeyOf(t[j]) == k
  {
    j :| j < |t| && t[j].enabled && KeyOf(t[j]) == k;
  }

  lemma WantedIsHoused(cfg: Config, t: seq<Breakpoint>, ice: Ice, k: Key)
    requires Good(cfg, t, ice) && Obeys(cfg, t) && Synced(t) && k in Wanted(t)
    ensures Watched(cfg, ice, k, SlotOf(t, k))
  {
    hide Good, Obeys, Synced;
    var j := WantedEntry(t, k);
    EnabledIsHoused(cfg, t, ice, j);
  }

  lemma WantedApart(cfg: Config, t: seq<Breakpoint>, ice: Ice, k: Key, l: Key)
    requires Good(cfg, t, ice) && Obeys(cfg, t) && Synced(t) && k in Wanted(t) && l in Wanted(t) && k != l
    ensures SlotOf(t, k) != SlotOf(t, l) || SlotOf(t, k) == 0
  {
    var i := WantedEntry(t, k);
    var j := WantedEntry(t, l);
    EnabledIsHoused(cfg, t, ice, i);
    EnabledIsHoused(cfg, t, ice, j);
    assert SlotsApart(t) && t[i].icestatus && t[j].icestatus;
  }

  lemma SyncedMirrors(cfg: Config, t: seq<Breakpoint>, ice: Ice)
    requires Good(cfg, t, ice) && Obeys(cfg, t) && Synced(t)
    ensures Mirrors(cfg, ice, Wanted(t))
  {
    hide Good, Obeys, Synced, Watched, SlotOf;
    var place := map k | k in Wanted(t) :: SlotOf(t, k);
    forall k | k in Wanted(t)
      ensures Watched(cfg, ice, k, place[k])
    {
      WantedIsHoused(cfg, t, ice, k);
    }
    forall k, l | k in Wanted(t) && l in Wanted(t) && k != l
      ensures place[k] != place[l] || place[k] == 0
    {
      WantedApart(cfg, t, ice, k, l);
    }
    OthersAreNotHeld(cfg, t, ice);
    forall j: nat | j < |t| && t[j].enabled
      ensures KeyOf(t[j]) in Wanted(t) && place[KeyOf(t[j])] == t[j].bpnum
    {
      EnabledIsHoused(cfg, t, ice, j);
    }
    hide Wanted;
    assert Houses(cfg, ice, Wanted(t), place);
  }

  lemma OthersAreNotHeld(cfg: Config, t: seq<Breakpoint>, ice: Ice)
    requires Good(cfg, t, ice) && Synced(t)
    ensures forall s :: s in ice.slots ==> s != 0 && exists j: nat :: j < |t| && t[j].enabled && t[j].bpnum == s
    ensures forall w :: w in ice.words ==>
      exists j: nat :: j < |t| && t[j].enabled && t[j].bpnum == 0 && t[j].kind == CODE && t[j].address == w
  {
    forall w | w in ice.words
      ensures exists j: nat :: j < |t| && t[j].enabled && t[j].bpnum == 0 && t[j].kind == CODE && t[j].address == w
    {
      var j: nat :| j < |t| && t[j].icestatus && t[j].bpnum == 0 && WordOf(t[j]) == w;
      assert PlainKey(KeyOf(t[j]));
    }
  }

  lemma FailedStepKeepsGood(cfg: Config, t: seq<Breakpoint>, k: Key, t': seq<Breakpoint>, ice: Ice)
    requires Good(cfg, t, ice) && PlainKey(k) && AddStep(cfg, t, k, t', false) && !Forgets(t, Add(k, false))
    ensures Good(cfg, t', ice)
    ensures Wanted(t') == WantedAfter(cfg, Wanted(t), t, Add(k, false))
  {
    hide Wanted, Lost;
    if PickEntry(t, k) + 1 < |t| {
      FailedAddKeepsGood(cfg, t, k, t', ice);
      FailedAddWants(cfg, t, k, t');
    }
  }

  lemma StepObeys(cfg: Config, s: State, op: Op, s': State)
    requires Good(cfg, s.table, Replay(EMPTY_ICE, s.sent)) && Obeys(cfg, s.table)
    requires Step(cfg, s, op, s') && !Forgets(s.table, op)
    ensures Obeys(cfg, s'.table)
  {
    hide Obeys, AddStep, UpdateStep, Deleted, WellFormed, PlainTable, NothingForgotten, SlotsApart, Represents,
      Feasible;
    match op
    case Add(k, ok) => AddObeys(cfg, s.table, k, s'.table, ok);
    case Delete(k) => DeleteObeys(cfg, s.table, k);
    case DeleteAll => DeleteObeys(cfg, s.table, Key(0, CODE));
    case Update => UpdateObeys(cfg, s.table, s'.table, s'.sent[|s.sent|..]);
  }

  lemma StepKeepsGood(cfg: Config, s: State, op: Op, s': State)
    requires Good(cfg, s.table, Replay(EMPTY_ICE, s.sent)) && Obeys(cfg, s.table)
    requires Step(cfg, s, op, s') && !Forgets(s.table, op)
    ensures Good(cfg, s'.table, Replay(EMPTY_ICE, s'.sent)) && Obeys(cfg, s'.table)
    ensures Wanted(s'.table) == WantedAfter(cfg, Wanted(s.table), s.table, op)
    ensures op == Update ==> Synced(s'.table)
  {
    StepObeys(cfg, s, op, s');
    hide Good, Synced, AddStep, UpdateStep, Deleted, Forgets, Wanted, Lost;
    var ice := Replay(EMPTY_ICE, s.sent);
    match op
    case Add(k, ok) =>
      if ok {
        AddKeepsGood(cfg, s.table, k, s'.table, ice);
      } else {
        FailedStepKeepsGood(cfg, s.table, k, s'.table, ice);
      }
    case Delete(k) =>
      DeleteKeepsGood(cfg, s.table, k, ice);
    case DeleteAll =>
      DeleteAllKeepsGood(cfg, s.table, ice);
    case Update =>
      var commands := s'.sent[|s.sent|..];
      UpdateKeepsGood(cfg, s.table, s'.table, commands, ice);
      assert s'.sent == s.sent + commands;
      ReplayConcat(EMPTY_ICE, s.sent, commands);
  }

  // Over every run whose failed adds were for breakpoints not installed, the table
  // stands for the set, and right after an update so does the emulator.
  lemma {:induction false} RunWithFailuresMirrors(cfg: Config, states: seq<State>, ops: seq<Op>)
    requires Run(cfg, states, ops) && NeverForgets(states, ops)
    ensures var s := states[|ops|];
      && Good(cfg, s.table, Replay(EMPTY_ICE, s.sent)) && Obeys(cfg, s.table)
      && Wanted(s.table) == WantedBy(cfg, states, ops)
      && (ops != [] && ops[|ops| - 1] == Update ==>
            Mirrors(cfg, Replay(EMPTY_ICE, s.sent), WantedBy(cfg, states, ops)) && Synced(s.table))
    decreases |ops|
  {
    hide Good, Obeys, Mirrors, Synced, Step, WantedAfter, Forgets;
    if ops == [] {
      StartIsGood(cfg);
    } else {
      var m := |ops| - 1;
      RunPrefix(cfg, states, ops);
      assert forall i: nat | i < m :: !Forgets(states[..m + 1][i].table, ops[..m][i]);
      RunWithFailuresMirrors(cfg, states[..m + 1], ops[..m]);
      StepKeepsGood(cfg, states[m], ops[m], states[m + 1]);
      if ops[m] == Update {
        SyncedMirrors(cfg, states[m + 1].table, Replay(EMPTY_ICE, states[m + 1].sent));
      }
    }
  }

  // The plain set the calls describe when no add fails.
  function PlainSet(ops: seq<Op>): set<Key> {
    if ops == [] then {}
    else
      var before := PlainSet(ops[..|ops| - 1]);
      match ops[|ops| - 1]
      case Add(k, _) => before + {k}
      case Delete(k) => before - {k}
      case DeleteAll => {}
      case Update => before
  }

  predicate AllSucceed(ops: seq<Op>) { forall i | 0 <= i < |ops| && ops[i].Add? :: ops[i].ok }

  lemma {:induction false} SuccessIsPlain(cfg: Config, states: seq<State>, ops: seq<Op>)
    requires |states| > |ops| && AllSucceed(ops)
    ensures WantedBy(cfg, states, ops) == PlainSet(ops) && NeverForgets(states, ops)
    decreases |ops|
  {
    if ops != [] {
      var m := |ops| - 1;
      SuccessIsPlain(cfg, states[..m + 1], ops[..m]);
    }
  }

  // Over every run in which each add succeeded, the table stands for the plain
  // set, and right after an update so does the emulator.
  lemma RunMirrors(cfg: Config, states: seq<State>, ops: seq<Op>)
    requires Run(cfg, states, ops) && AllSucceed(ops)
    ensures var s := states[|ops|];
      && Good(cfg, s.table, Replay(EMPTY_ICE, s.sent)) && Obeys(cfg, s.table)
      && Wanted(s.table) == PlainSet(ops)
      && (ops != [] && ops[|ops| - 1] == Update ==>
            Mirrors(cfg, Replay(EMPTY_ICE, s.sent), PlainSet(ops)) && Synced(s.table))
  {
    hide Good, Obeys, Mirrors, Synced, Step, WantedBy, PlainSet;
    SuccessIsPlain(cfg, states, ops);
    RunWithFailuresMirrors(cfg, states, ops);
  }

  // ----- runs in which a failed add does harm

  function WatchKey(a: Address): Key { Key(a, WRITE_DATA) }

  // A watchpoint that is pending, or was deleted before it was installed.
  function Watch(a: Address, on: bool, slot: nat): Breakpoint {
    DEFAULT_BP.(address := a, kind := WRITE_DATA, enabled := on, toadd := on, last := false, bpnum := slot)
  }

  // One the emulator has.
  function Stays(a: Address, on: bool, slot: nat, marked: bool): Breakpoint {
    Watch(a, on, slot).(toadd := false, icestatus := true, toremove := marked)
  }

  function Table(x: Breakpoint, y: Breakpoint, z: Breakpoint): (t: seq<Breakpoint>)
    ensures |t| == MAX_TOTAL_BREAKPOINTS2
    ensures forall i :: 0 <= i < |t| ==>
      t[i] == if i == 0 then x else if i == 1 then y else if i == 2 then z else DEFAULT_BP
  {
    NewTable()[0 := x][1 := y][2 := z]
  }

  // A request for entry i whose layout is t'.
  lemma AddSucceeds(cfg: Config, t: seq<Breakpoint>, k: Key, t': seq<Breakpoint>)
    requires PickEntry(t, k) + 1 < |t|
    requires OnlySlotsMoved(Requested(t, k), t') && ValidPlacement(cfg, Requested(t, k), Slots(t'))
    ensures AddStep(cfg, t, k, t', true)
  {
  }

  lemma FirstAdd(cfg: Config, a: Address)
    requires !cfg.softBpOnly
    ensures AddStep(cfg, NewTable(), WatchKey(a), Table(Watch(a, true, 2), DEFAULT_BP, DEFAULT_BP), true)
  {
    var t' := Table(Watch(a, true, 2), DEFAULT_BP, DEFAULT_BP);
    var r := Requested(NewTable(), WatchKey(a));
    assert PickEntry(NewTable(), WatchKey(a)) == 0;
    assert r == Table(Watch(a, true, 0), DEFAULT_BP, DEFAULT_BP);
    assert Available(cfg, r, 2);
    AddSucceeds(cfg, NewTable(), WatchKey(a), t');
  }

  // The second entry is new; the first may be pending, deleted, or marked for clearing.
  lemma SecondAdd(cfg: Config, x: Breakpoint, b: Address, slot: nat)
    requires !cfg.softBpOnly && KeyOf(x) != WatchKey(b) && !x.last && !Held(x) && slot in {2, 3}
    requires Pending(x) ==> x.kind == WRITE_DATA && x.bpnum == 2 && slot == 3
    ensures AddStep(cfg, Table(x, DEFAULT_BP, DEFAULT_BP), WatchKey(b),
                    Table(x, Watch(b, true, slot), DEFAULT_BP), true)
  {
    var t := Table(x, DEFAULT_BP, DEFAULT_BP);
    var t' := Table(x, Watch(b, true, slot), DEFAULT_BP);
    assert Find(t, WatchKey(b), 0) == Find(t, WatchKey(b), 1) == 1;
    var r := Requested(t, WatchKey(b));
    assert r == Table(x, Watch(b, true, 0), DEFAULT_BP);
    assert Available(cfg, r, 2) && Available(cfg, r, 3);
    AddSucceeds(cfg, t, WatchKey(b), t');
  }

  // With the first one out of the way the second moves down to slot 2.
  lemma ThirdAdd(cfg: Config, x: Breakpoint, b: Address, c: Address, slot: nat)
    requires !cfg.softBpOnly && b != c && KeyOf(x) != WatchKey(c) && !x.last && !Held(x) && !Pending(x)
    ensures AddStep(cfg, Table(x, Watch(b, true, slot), DEFAULT_BP), WatchKey(c),
                    Table(x, Watch(b, true, 2), Watch(c, true, 3)), true)
  {
    var t := Table(x, Watch(b, true, slot), DEFAULT_BP);
    var t' := Table(x, Watch(b, true, 2), Watch(c, true, 3));
    assert Find(t, WatchKey(c), 0) == Find(t, WatchKey(c), 1) == Find(t, WatchKey(c), 2) == 2;
    var r := Requested(t, WatchKey(c));
    assert r == Table(x, Watch(b, true, slot), Watch(c, true, 0));
    assert Available(cfg, r, 2) && Available(cfg, r, 3);
    AddSucceeds(cfg, t, WatchKey(c), t');
  }

  lemma ThreeInTwo(cfg: Config, t: seq<Breakpoint>, p: seq<nat>)
    requires |t| >= 3 && PendingData(t[1]) && PendingData(t[2])
    requires PendingData(t[0]) || (Held(t[0]) && t[0].bpnum == 2)
    ensures !ValidPlacement(cfg, t, p)
  {
  }

  // The first watchpoint wants its slot back, and the third finds none.
  lemma ThirdAddFails(cfg: Config, a: Address, b: Address, c: Address, installed: bool)
    requires a != b && a != c && b != c && !cfg.softBpOnly
    ensures var x := if installed then Stays(a, false, 2, true) else Watch(a, false, 2);
      var x' := if installed then Stays(a, false, 2, false) else x;
      && PickEntry(Table(x, Watch(b, true, 2), Watch(c, true, 3)), WatchKey(a)) == 0
      && AddStep(cfg, Table(x, Watch(b, true, 2), Watch(c, true, 3)), WatchKey(a),
                 Table(x', Watch(b, true, 3), Watch(c, false, 3)), false)
  {
    var x := if installed then Stays(a, false, 2, true) else Watch(a, false, 2);
    var y := if installed then Stays(a, true, 2, false) else Watch(a, true, 2);
    var t := Table(x, Watch(b, true, 2), Watch(c, true, 3));
    var r := Requested(t, WatchKey(a));
    assert r == Table(y, Watch(b, true, 2), Watch(c, true, 3));
    var t1 := Table(y, Watch(b, true, 3), Watch(c, false, 3));
    assert Available(cfg, r, 3) && Available(cfg, r, 2) == !installed by {
      assert installed ==> Held(r[0]) && r[0].bpnum == 2;
    }
    assert DataBefore(r, 0) == 0;
    assert DataBefore(r, 1) == if installed then 0 else 1;
    assert DataBefore(r, 2) == if installed then 1 else 2;
    assert forall i: nat | i < |r| :: LeftOver(cfg, r, i) <==> i == 2;
    assert DroppedUpTo(cfg, r, t1, |r|) && SomeDropped(r, t1);
    if Feasible(cfg, r) {
      var p :| ValidPlacement(cfg, r, p);
      ThreeInTwo(cfg, r, p);
      assert false;
    }
    assert LayoutStep(cfg, r, t1, false);
  }

  // Some run makes these calls and ends here.
  ghost predicate Reaches(cfg: Config, ops: seq<Op>, t: seq<Breakpoint>, sent: seq<Command>) {
    exists states :: Run(cfg, states, ops) && states[|ops|] == State(t, sent)
  }

  lemma NoCalls(cfg: Config)
    ensures Reaches(cfg, [], NewTable(), [])
  {
    assert Run(cfg, [Start()], []);
  }

  lemma OneMore(cfg: Config, ops: seq<Op>, n: nat, t: seq<Breakpoint>, sent: seq<Command>, s': State)
    requires n < |ops| && Reaches(cfg, ops[..n], t, sent) && Step(cfg, State(t, sent), ops[n], s')
    ensures Reaches(cfg, ops[..n + 1], s'.table, s'.sent)
  {
    hide Step;
    var states :| Run(cfg, states, ops[..n]) && states[n] == State(t, sent);
    var states', ops' := states + [s'], ops[..n + 1];
    forall i: nat | i < |ops'|
      ensures StepAt(cfg, states', ops', i)
    {
      assert i < n ==> StepAt(cfg, states, ops[..n], i);
    }
    assert Run(cfg, states', ops') && states'[|ops'|] == s';
  }

  lemma ThenAdd(cfg: Config, ops: seq<Op>, n: nat, t: seq<Breakpoint>, sent: seq<Command>, a: Address, ok: bool,
                t': seq<Breakpoint>)
    requires n < |ops| && ops[n] == Add(WatchKey(a), ok)
    requires Reaches(cfg, ops[..n], t, sent) && AddStep(cfg, t, WatchKey(a), t', ok)
    ensures Reaches(cfg, ops[..n + 1], t', sent)
  {
    hide AddStep, Reaches;
    OneMore(cfg, ops, n, t, sent, State(t', sent));
  }

  lemma ThenDelete(cfg: Config, ops: seq<Op>, n: nat, t: seq<Breakpoint>, sent: seq<Command>, a: Address,
                   t': seq<Breakpoint>)
    requires n < |ops| && ops[n] == Delete(WatchKey(a))
    requires Reaches(cfg, ops[..n], t, sent) && Deleted(t, WatchKey(a)) == t'
    ensures Reaches(cfg, ops[..n + 1], t', sent)
  {
    hide Deleted, Reaches;
    OneMore(cfg, ops, n, t, sent, State(t', sent));
  }

  lemma ThenUpdate(cfg: Config, ops: seq<Op>, n: nat, t: seq<Breakpoint>, sent: seq<Command>,
                   commands: seq<Command>, t': seq<Breakpoint>)
    requires n < |ops| && ops[n] == Update
    requires Reaches(cfg, ops[..n], t, sent) && UpdateStep(cfg, t, t', commands)
    ensures Reaches(cfg, ops[..n + 1], t', sent + commands)
  {
    hide UpdateStep, Reaches;
    assert (sent + commands)[|sent|..] == commands;
    OneMore(cfg, ops, n, t, sent, State(t', sent + commands));
  }

  lemma DeleteFirst(x: Breakpoint, y: Breakpoint, a: Address)
    requires KeyOf(x) == WatchKey(a) && !x.last
    ensures Deleted(Table(x, y, DEFAULT_BP), WatchKey(a)) ==
            Table(x.(enabled := false, toadd := false, toremove := x.icestatus), y, DEFAULT_BP)
  {
  }

  lemma WantedInTable(x: Breakpoint, y: Breakpoint, z: Breakpoint)
    ensures Wanted(Table(x, y, z)) ==
            (if x.enabled then {KeyOf(x)} else {}) + (if y.enabled then {KeyOf(y)} else {}) +
            (if z.enabled then {KeyOf(z)} else {})
  {
    var t := Table(x, y, z);
    assert x.enabled ==> t[0].enabled && KeyOf(t[0]) in Wanted(t);
    assert y.enabled ==> t[1].enabled && KeyOf(t[1]) in Wanted(t);
    assert z.enabled ==> t[2].enabled && KeyOf(t[2]) in Wanted(t);
  }

  lemma FirstUpdate(cfg: Config, a: Address)
    requires !cfg.softBpOnly
    ensures UpdateStep(cfg, Table(Watch(a, true, 2), DEFAULT_BP, DEFAULT_BP),
                       Table(Stays(a, true, 2, false), DEFAULT_BP, DEFAULT_BP), [SetCommand(Watch(a, true, 2))])
  {
    var t := Table(Watch(a, true, 2), DEFAULT_BP, DEFAULT_BP);
    assert Available(cfg, t, 2);
    assert ValidPlacement(cfg, t, Slots(t)) && OnlySlotsMoved(t, t);
    assert LayoutStep(cfg, t, t, true);
    assert Map(Cleared, t) == t && Map(Installed, t) == Table(Stays(a, true, 2, false), DEFAULT_BP, DEFAULT_BP);
    IdleTail(t, 1);
    assert t[..1][..0] == [] && t[..1][0] == t[0];
    assert ClearCommands(t[..1]) == [] && SetCommands(t[..1]) == [SetCommand(t[0])];
  }

  // An update of a table with nothing pending and nothing marked sends nothing.
  lemma IdleUpdate(cfg: Config, t: seq<Breakpoint>)
    requires forall i :: 0 <= i < |t| ==> !t[i].toremove && !Pending(t[i])
    ensures UpdateStep(cfg, t, t, [])
  {
    assert ValidPlacement(cfg, t, Slots(t)) && OnlySlotsMoved(t, t);
    assert LayoutStep(cfg, t, t, true);
    assert Map(Cleared, t) == t && Map(Installed, t) == t;
    IdleTail(t, 0);
    assert t[..0] == [];
  }

  lemma OneSlot(b: Breakpoint)
    requires b.kind == WRITE_DATA && b.bpnum == 2
    ensures Replay(EMPTY_ICE, [SetCommand(b)]).slots == map[2 := Writes(KeptBits(b.address))]
  {
    hide WithoutSpace, KeptBits, SetCommand, Meaning;
    SetCommandIsAsked(b);
    var sent := [SetCommand(b)];
    assert sent[..0] == [] && Replay(EMPTY_ICE, sent) == CarryOut(EMPTY_ICE, sent[0]);
  }

  lemma DeleteSecond(x: Breakpoint, y: Breakpoint, z: Breakpoint, b: Address)
    requires KeyOf(x) != WatchKey(b) && !x.last && KeyOf(y) == WatchKey(b) && !y.last
    ensures Deleted(Table(x, y, z), WatchKey(b)) ==
            Table(x, y.(enabled := false, toadd := false, toremove := y.icestatus), z)
  {
    var t := Table(x, y, z);
    assert Find(t, WatchKey(b), 0) == Find(t, WatchKey(b), 1) == 1;
  }

  lemma FiveCalls(cfg: Config, a: Address, b: Address, c: Address, t1: seq<Breakpoint>, t2: seq<Breakpoint>,
                  t3: seq<Breakpoint>, t4: seq<Breakpoint>, t5: seq<Breakpoint>)
    requires AddStep(cfg, NewTable(), WatchKey(a), t1, true) && AddStep(cfg, t1, WatchKey(b), t2, true)
    requires Deleted(t2, WatchKey(a)) == t3 && AddStep(cfg, t3, WatchKey(c), t4, true)
    requires AddStep(cfg, t4, WatchKey(a), t5, false)
    ensures var ops := [Add(WatchKey(a), true), Add(WatchKey(b), true), Delete(WatchKey(a)),
                        Add(WatchKey(c), true), Add(WatchKey(a), false)];
      Reaches(cfg, ops[..4], t4, []) && Reaches(cfg, ops, t5, [])
  {
    hide *;
    var ops := [Add(WatchKey(a), true), Add(WatchKey(b), true), Delete(WatchKey(a)),
                Add(WatchKey(c), true), Add(WatchKey(a), false)];
    NoCalls(cfg);
    ThenAdd(cfg, ops, 0, NewTable(), [], a, true, t1);
    ThenAdd(cfg, ops, 1, t1, [], b, true, t2);
    ThenDelete(cfg, ops, 2, t2, [], a, t3);
    ThenAdd(cfg, ops, 3, t3, [], c, true, t4);
    ThenAdd(cfg, ops, 4, t4, [], a, false, t5);
    assert ops[..5] == ops;
  }

  // After adding a and b, deleting a and adding c, adding a again fails and takes c with it.
  lemma FailedAddDropsAnother(cfg: Config, a: Address, b: Address, c: Address)
    returns (t: seq<Breakpoint>, t': seq<Breakpoint>)
    requires a != b && a != c && b != c && !cfg.softBpOnly
    ensures var ops := [Add(WatchKey(a), true), Add(WatchKey(b), true), Delete(WatchKey(a)),
                        Add(WatchKey(c), true), Add(WatchKey(a), false)];
      && Reaches(cfg, ops[..4], t, []) && Wanted(t) == {WatchKey(b), WatchKey(c)}
      && Reaches(cfg, ops, t', []) && Wanted(t') == {WatchKey(b)}
  {
    hide AddStep, Deleted, Reaches, Wanted, Table;
    var D := DEFAULT_BP;
    t := Table(Watch(a, false, 2), Watch(b, true, 2), Watch(c, true, 3));
    t' := Table(Watch(a, false, 2), Watch(b, true, 3), Watch(c, false, 3));
    var t2 := Table(Watch(a, true, 2), Watch(b, true, 3), D);
    FirstAdd(cfg, a);
    SecondAdd(cfg, Watch(a, true, 2), b, 3);
    DeleteFirst(Watch(a, true, 2), Watch(b, true, 3), a);
    ThirdAdd(cfg, Watch(a, false, 2), b, c, 3);
    ThirdAddFails(cfg, a, b, c, false);
    FiveCalls(cfg, a, b, c, Table(Watch(a, true, 2), D, D), t2, Deleted(t2, WatchKey(a)), t, t');
    WantedInTable(Watch(a, false, 2), Watch(b, true, 2), Watch(c, true, 3));
    WantedInTable(Watch(a, false, 2), Watch(b, true, 3), Watch(c, false, 3));
  }

  lemma EightCalls(cfg: Config, a: Address, b: Address, c: Address, sent: seq<Command>, t1: seq<Breakpoint>,
                   t2: seq<Breakpoint>, t3: seq<Breakpoint>, t4: seq<Breakpoint>, t5: seq<Breakpoint>,
                   t6: seq<Breakpoint>, t7: seq<Breakpoint>)
    requires AddStep(cfg, NewTable(), WatchKey(a), t1, true) && UpdateStep(cfg, t1, t2, sent)
    requires Deleted(t2, WatchKey(a)) == t3 && AddStep(cfg, t3, WatchKey(b), t4, true)
    requires AddStep(cfg, t4, WatchKey(c), t5, true) && AddStep(cfg, t5, WatchKey(a), t6, false)
    requires Deleted(t6, WatchKey(b)) == t7 && UpdateStep(cfg, t7, t7, [])
    ensures Reaches(cfg, [Add(WatchKey(a), true), Update, Delete(WatchKey(a)), Add(WatchKey(b), true),
                          Add(WatchKey(c), true), Add(WatchKey(a), false), Delete(WatchKey(b)), Update], t7, sent)
  {
    hide *;
    var ops := [Add(WatchKey(a), true), Update, Delete(WatchKey(a)), Add(WatchKey(b), true),
                Add(WatchKey(c), true), Add(WatchKey(a), false), Delete(WatchKey(b)), Update];
    NoCalls(cfg);
    ThenAdd(cfg, ops, 0, NewTable(), [], a, true, t1);
    ThenUpdate(cfg, ops, 1, t1, [], sent, t2);
    assert [] + sent == sent == sent + [];
    ThenDelete(cfg, ops, 2, t2, sent, a, t3);
    ThenAdd(cfg, ops, 3, t3, sent, b, true, t4);
    ThenAdd(cfg, ops, 4, t4, sent, c, true, t5);
    ThenAdd(cfg, ops, 5, t5, sent, a, false, t6);
    ThenDelete(cfg, ops, 6, t6, sent, b, t7);
    ThenUpdate(cfg, ops, 7, t7, sent, [], t7);
    assert ops[..8] == ops;
  }

  // The installed a is deleted and b and c are added; adding a again fails, and forgets
  // that a is installed.  With b deleted too, an update leaves a in the emulator though
  // nothing is wanted any more.
  lemma FailedAddLeavesOneBehind(cfg: Config, a: Address, b: Address, c: Address) returns (t: seq<Breakpoint>)
    requires a != b && a != c && b != c && !cfg.softBpOnly
    ensures var ops := [Add(WatchKey(a), true), Update, Delete(WatchKey(a)), Add(WatchKey(b), true),
                        Add(WatchKey(c), true), Add(WatchKey(a), false), Delete(WatchKey(b)), Update];
      var sent := [SetCommand(Watch(a, true, 2))];
      && Reaches(cfg, ops, t, sent) && Wanted(t) == {} && Replay(EMPTY_ICE, sent).slots == map[2 := Writes(KeptBits(a))]
  {
    hide AddStep, Deleted, Reaches, Wanted, Table, UpdateStep, SetCommand, Replay;
    var D := DEFAULT_BP;
    t := Table(Stays(a, false, 2, false), Watch(b, false, 3), Watch(c, false, 3));
    var t2 := Table(Stays(a, true, 2, false), D, D);
    var t6 := Table(Stays(a, false, 2, false), Watch(b, true, 3), Watch(c, false, 3));
    FirstAdd(cfg, a);
    FirstUpdate(cfg, a);
    DeleteFirst(Stays(a, true, 2, false), D, a);
    SecondAdd(cfg, Stays(a, false, 2, true), b, 2);
    ThirdAdd(cfg, Stays(a, false, 2, true), b, c, 2);
    ThirdAddFails(cfg, a, b, c, true);
    DeleteSecond(Stays(a, false, 2, false), Watch(b, true, 3), Watch(c, false, 3), b);
    IdleUpdate(cfg, t);
    EightCalls(cfg, a, b, c, [SetCommand(Watch(a, true, 2))], Table(Watch(a, true, 2), D, D), t2,
               Deleted(t2, WatchKey(a)), Table(Stays(a, false, 2, true), Watch(b, true, 2), D),
               Table(Stays(a, false, 2, true), Watch(b, true, 2), Watch(c, true, 3)), t6, t);
    WantedInTable(Stays(a, false, 2, false), Watch(b, false, 3), Watch(c, false, 3));
    OneSlot(Watch(a, true, 2));
  }
}
