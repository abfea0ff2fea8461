// What the calls of the mkII breakpoint manager keep: the emulator's breakpoints, seen
// as the effect of the commands sent, against the plain set of breakpoints asked for.

module BreakpointRuns {
  import opened BreakpointTable
  import opened Breakpoints
  import opened Emulator

  // The program word at an entry's address.
  function WordOf(b: Breakpoint): nat { b.address - b.address % 2 }

  // The emulator has this breakpoint where the table says.
  predicate Holds(ice: Ice, b: Breakpoint) {
    if b.bpnum == 0 then WordOf(b) in ice.words
    else b.bpnum in ice.slots && ice.slots[b.bpnum] == Asked(KeyOf(b))
  }

  // Every entry that claims to be installed is, and nothing else is.
  ghost predicate Represents(t: seq<Breakpoint>, ice: Ice) {
    && (forall i :: 0 <= i < |t| && t[i].icestatus ==> Holds(ice, t[i]))
    && (forall s :: s in ice.slots ==> s != 0 && exists i :: 0 <= i < |t| && t[i].icestatus && t[i].bpnum == s)
    && (forall w :: w in ice.words ==>
          exists i :: 0 <= i < |t| && t[i].icestatus && t[i].bpnum == 0 && WordOf(t[i]) == w)
  }

  // A key that stands for a breakpoint of one byte, or of one program word.
  predicate PlainKey(k: Key) {
    (k.kind == CODE && k.address % 2 == 0) || IsData(k.kind)
  }

  ghost predicate PlainTable(t: seq<Breakpoint>) {
    && (forall i :: 0 <= i < |t| && t[i].kind != NONE ==> PlainKey(KeyOf(t[i])))
    && (forall i, j :: 0 <= i < j < |t| && t[i].kind != NONE ==> KeyOf(t[i]) != KeyOf(t[j]))
    && (forall i :: 0 <= i < |t| && t[i].icestatus ==> t[i].kind != NONE && (t[i].bpnum == 0 ==> t[i].kind == CODE))
  }

  // No two installed breakpoints share a hardware slot.
  ghost predicate SlotsApart(t: seq<Breakpoint>) {
    forall i, j :: 0 <= i < j < |t| && t[i].icestatus && t[j].icestatus ==> t[i].bpnum != t[j].bpnum || t[i].bpnum == 0
  }

  // Whatever is installed but no longer wanted is marked for clearing.
  ghost predicate NothingForgotten(t: seq<Breakpoint>) {
    forall i :: 0 <= i < |t| && t[i].icestatus && !t[i].enabled ==> t[i].toremove
  }

  // The invariant of runs.
  ghost predicate Good(cfg: Config, t: seq<Breakpoint>, ice: Ice) {
    && WellFormed(t) && PlainTable(t) && SlotsApart(t) && NothingForgotten(t)
    && Represents(t, ice) && Feasible(cfg, t)
  }

  // ----- steps that leave the emulator alone

  ghost predicate SameInstalled(t: seq<Breakpoint>, t': seq<Breakpoint>) {
    && |t'| == |t|
    && forall i :: 0 <= i < |t| ==>
         && t'[i].icestatus == t[i].icestatus
         && (t[i].icestatus ==> KeyOf(t'[i]) == KeyOf(t[i]) && t'[i].bpnum == t[i].bpnum)
  }

  lemma SameWords(t: seq<Breakpoint>, t': seq<Breakpoint>)
    ensures forall i :: 0 <= i < |t| && i < |t'| && KeyOf(t'[i]) == KeyOf(t[i]) ==> WordOf(t'[i]) == WordOf(t[i])
  {
  }

  // Two software breakpoints sit in two words.
  lemma WordsApart(t: seq<Breakpoint>, i: nat, k: nat)
    requires PlainTable(t) && i < |t| && k < |t| && i != k
    requires t[i].kind == CODE && t[k].kind == CODE
    ensures WordOf(t[i]) != WordOf(t[k])
  {
    assert PlainKey(KeyOf(t[i])) && PlainKey(KeyOf(t[k]));
    assert KeyOf(t[i]) != KeyOf(t[k]);
  }

  lemma ClearedWord(b: Breakpoint)
    ensures ClrCommand(b) == ClrBreak(b.bpnum, if b.bpnum == 0 then WordOf(b) / 2 else 0)
    ensures 2 * (WordOf(b) / 2) == WordOf(b)
  {
  }

  lemma SameInstalledKeeps(t: seq<Breakpoint>, t': seq<Breakpoint>, ice: Ice)
    requires SameInstalled(t, t') && Represents(t, ice) && SlotsApart(t)
    ensures Represents(t', ice) && SlotsApart(t')
  {
    hide Asked, WordOf;
    assert forall i :: 0 <= i < |t| && KeyOf(t'[i]) == KeyOf(t[i]) ==> WordOf(t'[i]) == WordOf(t[i]) by {
      SameWords(t, t');
    }
    forall i | 0 <= i < |t'| && t'[i].icestatus
      ensures Holds(ice, t'[i])
    {
      assert Holds(ice, t[i]);
    }
    forall s | s in ice.slots
      ensures s != 0 && exists i :: 0 <= i < |t'| && t'[i].icestatus && t'[i].bpnum == s
    {
      var i :| 0 <= i < |t| && t[i].icestatus && t[i].bpnum == s;
      assert t'[i].bpnum == s;
    }
    forall w | w in ice.words
      ensures exists i :: 0 <= i < |t'| && t'[i].icestatus && t'[i].bpnum == 0 && WordOf(t'[i]) == w
    {
      var i :| 0 <= i < |t| && t[i].icestatus && t[i].bpnum == 0 && WordOf(t[i]) == w;
      assert t'[i].bpnum == 0 && KeyOf(t'[i]) == KeyOf(t[i]);
    }
  }

  lemma SameWanted(t: seq<Breakpoint>, t': seq<Breakpoint>)
    requires |t'| == |t| && forall i :: 0 <= i < |t| ==> t'[i].enabled == t[i].enabled && KeyOf(t'[i]) == KeyOf(t[i])
    ensures Wanted(t') == Wanted(t)
  {
  }

  lemma PlacementStays(cfg: Config, t: seq<Breakpoint>, t': seq<Breakpoint>)
    requires OnlySlotsMoved(t, t') && ValidPlacement(cfg, t, Slots(t'))
    requires forall i :: 0 <= i < |t| ==> FlagsAgree(t[i])
    ensures ValidPlacement(cfg, t', Slots(t'))
  {
  }

  // Moving the slots of pending entries changes nothing that is installed.
  lemma LayoutKeeps(cfg: Config, t: seq<Breakpoint>, t': seq<Breakpoint>, ice: Ice)
    requires WellFormed(t) && PlainTable(t) && SlotsApart(t) && NothingForgotten(t) && Represents(t, ice)
    requires LayoutStep(cfg, t, t', true) && WellFormed(t')
    ensures Good(cfg, t', ice) && ValidPlacement(cfg, t', Slots(t')) && Wanted(t') == Wanted(t)
  {
    assert forall i :: 0 <= i < |t| ==> t'[i] == t[i].(bpnum := t'[i].bpnum) && (t[i].icestatus ==> t'[i] == t[i]) by {
      assert forall i :: 0 <= i < |t| ==> FlagsAgree(t[i]);
    }
    PlacementStays(cfg, t, t');
    hide ValidPlacement, OnlySlotsMoved, WellFormed;
    assert SameInstalled(t, t');
    SameInstalledKeeps(t, t', ice);
    SameWanted(t, t');
    assert PlainTable(t') by {
      assert forall i :: 0 <= i < |t| ==> KeyOf(t'[i]) == KeyOf(t[i]);
    }
  }

  lemma LaidIsWellFormed(cfg: Config, t: seq<Breakpoint>, t': seq<Breakpoint>)
    requires WellFormed(t) && LayoutStep(cfg, t, t', true)
    ensures WellFormed(t')
  {
    assert SomeDropped(t, t');
    forall i | 0 <= i < |t'|
      ensures t'[i].bpnum <= 3
    {
      assert Slots(t')[i] == t'[i].bpnum && FlagsAgree(t[i]);
    }
    DroppedIsWellFormed(t, t');
  }

  // ----- adding

  lemma RequestKeepsPlain(t: seq<Breakpoint>, k: Key)
    requires WellFormed(t) && PlainTable(t) && NothingForgotten(t) && PlainKey(k) && PickEntry(t, k) + 1 < |t|
    ensures PlainTable(Requested(t, k)) && SameInstalled(t, Requested(t, k))
  {
    var i := PickEntry(t, k);
    var r := Requested(t, k);
    var f := Find(t, k, 0);
    EndIsIdle(t, f);
    assert f == i ==> t[i].last || KeyOf(t[i]) == k;
    assert f != i ==> !t[i].enabled && !t[i].toremove && !t[i].icestatus;
    assert forall j :: 0 <= j < |t| && j != i ==> KeyOf(r[j]) == KeyOf(t[j]) || r[j].kind == NONE;
    assert forall j :: 0 <= j < |t| && j != i && t[j].kind != NONE ==> KeyOf(t[j]) != k;
  }

  lemma RequestWants(t: seq<Breakpoint>, k: Key)
    requires WellFormed(t) && PlainTable(t) && PlainKey(k) && PickEntry(t, k) + 1 < |t|
    ensures NothingForgotten(t) ==> NothingForgotten(Requested(t, k))
    ensures Wanted(Requested(t, k)) == Wanted(t) + {k}
  {
    var i := PickEntry(t, k);
    var r := Requested(t, k);
    var f := Find(t, k, 0);
    EndIsIdle(t, f);
    assert KeyOf(r[i]) == k && r[i].enabled;
    assert forall j :: 0 <= j < |t| && j != i ==>
      r[j].enabled == t[j].enabled && (t[j].enabled ==> KeyOf(r[j]) == KeyOf(t[j]));
    assert t[i].enabled ==> KeyOf(t[i]) == k;
    forall x | x in Wanted(t)
      ensures x in Wanted(r)
    {
      var j :| 0 <= j < |t| && t[j].enabled && KeyOf(t[j]) == x;
      assert r[j].enabled && KeyOf(r[j]) == x;
    }
    forall x | x in Wanted(r)
      ensures x in Wanted(t) || x == k
    {
      var j :| 0 <= j < |r| && r[j].enabled && KeyOf(r[j]) == x;
    }
  }

  lemma AddKeepsGood(cfg: Config, t: seq<Breakpoint>, k: Key, t': seq<Breakpoint>, ice: Ice)
    requires Good(cfg, t, ice) && PlainKey(k) && AddStep(cfg, t, k, t', true)
    ensures Good(cfg, t', ice) && Wanted(t') == Wanted(t) + {k}
  {
    hide Feasible, LayoutStep, Represents, PlainTable, SlotsApart, NothingForgotten, WellFormed, SameInstalled;
    var r := Requested(t, k);
    RequestIsWellFormed(t, k);
    RequestKeepsPlain(t, k);
    RequestWants(t, k);
    SameInstalledKeeps(t, r, ice);
    LaidIsWellFormed(cfg, r, t');
    LayoutKeeps(cfg, r, t', ice);
  }

  // ----- deleting

  // Fewer requests and fewer held slots only make placing easier.
  lemma FewerIsFeasible(cfg: Config, t: seq<Breakpoint>, t': seq<Breakpoint>)
    requires Feasible(cfg, t) && |t'| == |t|
    requires forall i :: 0 <= i < |t| && Pending(t'[i]) ==> Pending(t[i]) && t'[i].kind == t[i].kind
    requires forall i :: 0 <= i < |t| && Held(t'[i]) ==> Held(t[i]) && t'[i].bpnum == t[i].bpnum
    ensures Feasible(cfg, t')
  {
    var p :| ValidPlacement(cfg, t, p);
    forall s | Available(cfg, t, s)
      ensures Available(cfg, t', s)
    {
    }
    assert ValidPlacement(cfg, t', p);
  }

  lemma DeleteKeepsGood(cfg: Config, t: seq<Breakpoint>, k: Key, ice: Ice)
    requires Good(cfg, t, ice) && k.kind != NONE
    ensures Good(cfg, Deleted(t, k), ice) && Wanted(Deleted(t, k)) == Wanted(t) - {k}
  {
    var t' := Deleted(t, k);
    DeletingIsWellFormed(t, k);
    DeletedKeeps(t, k);
    DeletedWants(t, k);
    hide Deleted, Represents, WellFormed, PlainTable, SlotsApart, NothingForgotten;
    SameInstalledKeeps(t, t', ice);
    FewerIsFeasible(cfg, t, t');
  }

  lemma DeletedKeeps(t: seq<Breakpoint>, k: Key)
    requires WellFormed(t) && PlainTable(t) && NothingForgotten(t) && k.kind != NONE
    ensures var t' := Deleted(t, k);
      && SameInstalled(t, t') && PlainTable(t') && NothingForgotten(t')
      && (forall i :: 0 <= i < |t| && Pending(t'[i]) ==> Pending(t[i]) && t'[i].kind == t[i].kind)
      && (forall i :: 0 <= i < |t| && Held(t'[i]) ==> Held(t[i]) && t'[i].bpnum == t[i].bpnum)
  {
    EndIsIdle(t, Find(t, k, 0));
  }

  lemma DeletedWants(t: seq<Breakpoint>, k: Key)
    requires WellFormed(t) && PlainTable(t) && k.kind != NONE
    ensures Wanted(Deleted(t, k)) == Wanted(t) - {k}
  {
    var t' := Deleted(t, k);
    var i := Find(t, k, 0);
    EndIsIdle(t, i);
    assert forall j :: 0 <= j < |t| && j != i ==> t'[j] == t[j];
    assert forall j :: 0 <= j < |t| && j != i && t[j].enabled ==> KeyOf(t[j]) != k;
    forall x | x in Wanted(t) && x != k
      ensures x in Wanted(t')
    {
      var j :| 0 <= j < |t| && t[j].enabled && KeyOf(t[j]) == x;
      assert t'[j].enabled && KeyOf(t'[j]) == x;
    }
    forall x | x in Wanted(t')
      ensures x in Wanted(t) && x != k
    {
      var j :| 0 <= j < |t'| && t'[j].enabled && KeyOf(t'[j]) == x;
      assert j != i;
    }
  }

  lemma DeleteAllKeepsGood(cfg: Config, t: seq<Breakpoint>, ice: Ice)
    requires Good(cfg, t, ice)
    ensures Good(cfg, Map(Disabled, t), ice) && Wanted(Map(Disabled, t)) == {}
  {
    var t' := Map(Disabled, t);
    DisabledKeeps(t);
    hide WellFormed, Represents, PlainTable, SlotsApart, NothingForgotten, SameInstalled, Disabled;
    SameInstalledKeeps(t, t', ice);
    FewerIsFeasible(cfg, t, t');
  }

  lemma DisabledKeeps(t: seq<Breakpoint>)
    requires WellFormed(t) && PlainTable(t) && NothingForgotten(t)
    ensures var t' := Map(Disabled, t);
      && WellFormed(t') && PlainTable(t') && NothingForgotten(t') && SameInstalled(t, t') && Wanted(t') == {}
      && forall i :: 0 <= i < |t| ==>
           !Pending(t'[i]) && (Held(t'[i]) ==> Held(t[i]) && t'[i].bpnum == t[i].bpnum)
  {
    var t' := Map(Disabled, t);
    var n: nat :| IsEnd(t, n) && forall i :: n <= i < |t| ==> Idle(t[i]);
    assert IsEnd(t', n);
    assert forall j :: 0 <= j < |t| ==> KeyOf(t'[j]) == KeyOf(t[j]) && FlagsAgree(t[j]);
  }

  // ----- updating

  // The first k entries already treated by f.
  function Upto(f: Breakpoint -> Breakpoint, t: seq<Breakpoint>, k: nat): (r: seq<Breakpoint>)
    requires k <= |t|
    ensures |r| == |t| && forall i :: 0 <= i < |t| ==> r[i] == if i < k then f(t[i]) else t[i]
  {
    Map(f, t[..k]) + t[k..]
  }

  lemma ClearOne(t: seq<Breakpoint>, k: nat, ice: Ice)
    requires Represents(t, ice) && SlotsApart(t) && PlainTable(t)
    requires k < |t| && t[k].toremove && t[k].icestatus
    ensures Represents(t[k := Cleared(t[k])], CarryOut(ice, ClrCommand(t[k])))
  {
    hide Asked, WordOf, ClrCommand;
    var t' := t[k := Cleared(t[k])];
    var ice' := CarryOut(ice, ClrCommand(t[k]));
    ClearedWord(t[k]);
    forall i | 0 <= i < |t'| && t'[i].icestatus
      ensures Holds(ice', t'[i])
    {
      assert i != k && Holds(ice, t[i]);
      if t[i].bpnum == 0 && t[k].bpnum == 0 {
        WordsApart(t, i, k);
      }
    }
    forall s | s in ice'.slots
      ensures s != 0 && exists i :: 0 <= i < |t'| && t'[i].icestatus && t'[i].bpnum == s
    {
      var i :| 0 <= i < |t| && t[i].icestatus && t[i].bpnum == s;
      assert i != k && t'[i] == t[i];
    }
    forall w | w in ice'.words
      ensures exists i :: 0 <= i < |t'| && t'[i].icestatus && t'[i].bpnum == 0 && WordOf(t'[i]) == w
    {
      var i :| 0 <= i < |t| && t[i].icestatus && t[i].bpnum == 0 && WordOf(t[i]) == w;
      assert i != k && t'[i] == t[i];
    }
  }

  lemma CommandsStep(t: seq<Breakpoint>, k: nat)
    requires 1 <= k <= |t|
    ensures ClearCommands(t[..k]) ==
            ClearCommands(t[..k - 1]) + if t[k - 1].toremove then [ClrCommand(t[k - 1])] else []
    ensures SetCommands(t[..k]) == SetCommands(t[..k - 1]) + if Pending(t[k - 1]) then [SetCommand(t[k - 1])] else []
  {
    assert t[..k][..k - 1] == t[..k - 1];
  }

  lemma ReplayOne(ice: Ice, a: seq<Command>, c: Command)
    ensures Replay(ice, a + [c]) == CarryOut(Replay(ice, a), c)
  {
  }

  lemma ClearKeepsTable(t: seq<Breakpoint>, k: nat)
    requires SlotsApart(t) && PlainTable(t) && k < |t|
    ensures var t' := t[k := Cleared(t[k])]; SlotsApart(t') && PlainTable(t')
  {
  }

  lemma {:induction false} ClearAll(t: seq<Breakpoint>, k: nat, ice: Ice)
    requires Represents(t, ice) && SlotsApart(t) && PlainTable(t) && k <= |t|
    requires forall i :: 0 <= i < |t| ==> FlagsAgree(t[i])
    ensures Represents(Upto(Cleared, t, k), Replay(ice, ClearCommands(t[..k])))
    ensures SlotsApart(Upto(Cleared, t, k)) && PlainTable(Upto(Cleared, t, k))
    decreases k
  {
    hide Represents, SlotsApart, PlainTable, ClrCommand;
    if k == 0 {
      assert Upto(Cleared, t, 0) == t && t[..0] == [];
    } else {
      ClearAll(t, k - 1, ice);
      var u := Upto(Cleared, t, k - 1);
      assert Upto(Cleared, t, k) == u[k - 1 := Cleared(u[k - 1])];
      CommandsStep(t, k);
      ClearKeepsTable(u, k - 1);
      var c := ClearCommands(t[..k - 1]);
      if t[k - 1].toremove {
        ClearOne(u, k - 1, Replay(ice, c));
        ReplayOne(ice, c, ClrCommand(t[k - 1]));
      } else {
        assert Upto(Cleared, t, k) == u && c + [] == c;
      }
    }
  }

  // Every pending entry has a slot no other entry has or will have.
  ghost predicate Ready(t: seq<Breakpoint>) {
    && (forall i, j :: 0 <= i < |t| && 0 <= j < |t| && i != j && (t[i].icestatus || Pending(t[i])) && Pending(t[j]) ==>
          t[i].bpnum != t[j].bpnum || t[j].bpnum == 0)
    && (forall i :: 0 <= i < |t| && Pending(t[i]) ==>
          !t[i].icestatus && t[i].kind != NONE && (t[i].bpnum == 0 ==> t[i].kind == CODE))
  }

  lemma InstalledSame(b: Breakpoint)
    ensures KeyOf(Installed(b)) == KeyOf(b) && WordOf(Installed(b)) == WordOf(b)
  {
  }

  lemma AskedWord(b: Breakpoint)
    requires b.kind == CODE
    ensures Asked(KeyOf(b)) == Execution(WordOf(b))
  {
  }

  lemma SetOne(t: seq<Breakpoint>, k: nat, ice: Ice)
    requires Represents(t, ice) && SlotsApart(t) && PlainTable(t) && Ready(t)
    requires k < |t| && Pending(t[k])
    ensures Represents(t[k := Installed(t[k])], CarryOut(ice, SetCommand(t[k])))
  {
    hide WordOf, SetCommand, Meaning;
    SetCommandIsAsked(t[k]);
    if t[k].bpnum == 0 {
      AskedWord(t[k]);
    }
    hide Asked;
    assert KeyOf(Installed(t[k])) == KeyOf(t[k]) && WordOf(Installed(t[k])) == WordOf(t[k]) by {
      InstalledSame(t[k]);
    }
    var t' := t[k := Installed(t[k])];
    var ice' := CarryOut(ice, SetCommand(t[k]));
    forall i | 0 <= i < |t'| && t'[i].icestatus
      ensures Holds(ice', t'[i])
    {
      if i != k {
        assert Holds(ice, t[i]);
      }
    }
    forall s | s in ice'.slots
      ensures s != 0 && exists i :: 0 <= i < |t'| && t'[i].icestatus && t'[i].bpnum == s
    {
      if s in ice.slots && s != t[k].bpnum {
        var i :| 0 <= i < |t| && t[i].icestatus && t[i].bpnum == s;
        assert t'[i] == t[i];
      } else {
        assert t'[k].bpnum == s;
      }
    }
    forall w | w in ice'.words
      ensures exists i :: 0 <= i < |t'| && t'[i].icestatus && t'[i].bpnum == 0 && WordOf(t'[i]) == w
    {
      if w in ice.words {
        var i :| 0 <= i < |t| && t[i].icestatus && t[i].bpnum == 0 && WordOf(t[i]) == w;
        assert t'[i] == t[i];
      } else {
        assert t'[k].bpnum == 0 && WordOf(t'[k]) == w;
      }
    }
  }

  lemma {:induction false} SetAll(t: seq<Breakpoint>, k: nat, ice: Ice)
    requires Represents(t, ice) && SlotsApart(t) && PlainTable(t) && Ready(t) && k <= |t|
    ensures Represents(Upto(Installed, t, k), Replay(ice, SetCommands(t[..k])))
    ensures SlotsApart(Upto(Installed, t, k)) && PlainTable(Upto(Installed, t, k)) && Ready(Upto(Installed, t, k))
    decreases k
  {
    hide Represents, SlotsApart, PlainTable, Ready, SetCommand;
    if k == 0 {
      assert Upto(Installed, t, 0) == t && t[..0] == [];
    } else {
      SetAll(t, k - 1, ice);
      var u := Upto(Installed, t, k - 1);
      assert Upto(Installed, t, k) == u[k - 1 := Installed(u[k - 1])];
      CommandsStep(t, k);
      var c := SetCommands(t[..k - 1]);
      if Pending(t[k - 1]) {
        SetOne(u, k - 1, Replay(ice, c));
        ReplayOne(ice, c, SetCommand(t[k - 1]));
        InstallKeepsTable(u, k - 1);
      } else {
        assert Upto(Installed, t, k) == u && c + [] == c;
      }
    }
  }

  lemma InstallKeepsTable(t: seq<Breakpoint>, k: nat)
    requires SlotsApart(t) && PlainTable(t) && Ready(t) && k < |t| && Pending(t[k])
    ensures var t' := t[k := Installed(t[k])]; SlotsApart(t') && PlainTable(t') && Ready(t')
  {
  }

  // After clearing, what is installed stays, and the placement fits around it.
  lemma ClearedIsReady(cfg: Config, t: seq<Breakpoint>)
    requires WellFormed(t) && PlainTable(t) && NothingForgotten(t) && ValidPlacement(cfg, t, Slots(t))
    ensures Ready(Map(Cleared, t))
  {
  }

  // The table after an update has no work left and lists what the emulator has.
  ghost predicate Synced(t: seq<Breakpoint>) {
    forall i :: 0 <= i < |t| ==> t[i].icestatus == t[i].enabled && !t[i].toremove && !Pending(t[i])
  }

  lemma UpdateKeepsGood(cfg: Config, t: seq<Breakpoint>, t': seq<Breakpoint>, commands: seq<Command>, ice: Ice)
    requires Good(cfg, t, ice) && UpdateStep(cfg, t, t', commands)
    ensures Good(cfg, t', Replay(ice, commands)) && Wanted(t') == Wanted(t) && Synced(t')
  {
    hide Represents, Feasible;
    var laid: seq<Breakpoint>, room: bool :|
      && LayoutStep(cfg, t, laid, room)
      && t' == Map(Installed, Map(Cleared, laid))
      && commands == ClearCommands(laid) + SetCommands(Map(Cleared, laid));
    LaidIsWellFormed(cfg, t, laid);
    LayoutKeeps(cfg, t, laid, ice);
    UpdateLaid(cfg, laid, ice);
  }

  lemma UpdateLaid(cfg: Config, t: seq<Breakpoint>, ice: Ice)
    requires Good(cfg, t, ice) && ValidPlacement(cfg, t, Slots(t))
    ensures var u := Map(Cleared, t); var t' := Map(Installed, u);
      && Good(cfg, t', Replay(ice, ClearCommands(t) + SetCommands(u)))
      && Wanted(t') == Wanted(t) && Synced(t')
  {
    hide Represents, PlainTable, SlotsApart, Ready;
    var u := Map(Cleared, t);
    var t' := Map(Installed, u);
    ClearAll(t, |t|, ice);
    assert t[..|t|] == t && Upto(Cleared, t, |t|) == u;
    ClearedIsReady(cfg, t);
    SetAll(u, |u|, Replay(ice, ClearCommands(t)));
    assert u[..|u|] == u && Upto(Installed, u, |u|) == t';
    ReplayConcat(ice, ClearCommands(t), SetCommands(u));
    UpdatingIsWellFormed(t);
    UpdatedIsSynced(t);
    assert ValidPlacement(cfg, t', Slots(t'));
  }

  lemma UpdatedIsSynced(t: seq<Breakpoint>)
    requires WellFormed(t) && NothingForgotten(t)
    ensures var t' := Map(Installed, Map(Cleared, t)); Synced(t') && Wanted(t') == Wanted(t)
  {
  }

  // ----- what an update sends

  // The commands for what is installed and not wanted, in table order.
  function ClearsNeeded(t: seq<Breakpoint>): seq<Command> {
    if t == [] then []
    else
      var b := t[|t| - 1];
      ClearsNeeded(t[..|t| - 1]) + if b.icestatus && !b.enabled then [ClrCommand(b)] else []
  }

  // The commands for what is wanted and not installed, in table order.
  function SetsNeeded(t: seq<Breakpoint>): seq<Command> {
    if t == [] then []
    else
      var b := t[|t| - 1];
      SetsNeeded(t[..|t| - 1]) + if b.enabled && !b.icestatus then [SetCommand(b)] else []
  }

  lemma {:induction false} NeededCommands(t: seq<Breakpoint>)
    requires NothingForgotten(t) && forall i :: 0 <= i < |t| ==> FlagsAgree(t[i])
    ensures ClearCommands(t) == ClearsNeeded(t) && SetCommands(Map(Cleared, t)) == SetsNeeded(t)
    decreases |t|
  {
    if t != [] {
      var m := |t| - 1;
      var u := Map(Cleared, t);
      NeededCommands(t[..m]);
      assert u[..m] == Map(Cleared, t[..m]);
      assert FlagsAgree(t[m]) && u[m] == Cleared(t[m]);
    }
  }

  // An update sends a clear for exactly the breakpoints installed but no longer
  // wanted and a set for exactly those wanted but not installed, each once, the
  // clears first; laid is the table with the slots the new ones were given.
  lemma UpdateSendsTheDifference(cfg: Config, t: seq<Breakpoint>, t': seq<Breakpoint>, commands: seq<Command>, ice: Ice)
    returns (laid: seq<Breakpoint>)
    requires Good(cfg, t, ice) && UpdateStep(cfg, t, t', commands)
    ensures OnlySlotsMoved(t, laid) && commands == ClearsNeeded(t) + SetsNeeded(laid)
  {
    var room: bool;
    laid, room :|
      && LayoutStep(cfg, t, laid, room)
      && t' == Map(Installed, Map(Cleared, laid))
      && commands == ClearCommands(laid) + SetCommands(Map(Cleared, laid));
    LaidIsWellFormed(cfg, t, laid);
    LayoutKeeps(cfg, t, laid, ice);
    NeededCommands(laid);
    SameClears(t, laid);
  }

  lemma {:induction false} SameClears(t: seq<Breakpoint>, t': seq<Breakpoint>)
    requires |t'| == |t| && forall i :: 0 <= i < |t| ==>
               t'[i].icestatus == t[i].icestatus && t'[i].enabled == t[i].enabled
    requires forall i :: 0 <= i < |t| && t[i].icestatus ==> t'[i] == t[i]
    ensures ClearsNeeded(t') == ClearsNeeded(t)
    decreases |t|
  {
    if t != [] {
      var m := |t| - 1;
      SameClears(t[..m], t'[..m]);
    }
  }

  lemma {:induction false} NothingNeeded(t: seq<Breakpoint>)
    requires forall i :: 0 <= i < |t| ==> t[i].icestatus == t[i].enabled
    ensures ClearsNeeded(t) == [] && SetsNeeded(t) == []
    decreases |t|
  {
    if t != [] {
      NothingNeeded(t[..|t| - 1]);
    }
  }

  // Deleting a breakpoint and adding it again between two updates costs nothing.
  lemma ReAddIsFree(cfg: Config, t: seq<Breakpoint>, k: Key, t2: seq<Breakpoint>, t3: seq<Breakpoint>,
                    commands: seq<Command>, ice: Ice)
    requires Good(cfg, t, ice) && Synced(t) && PlainKey(k) && k in Wanted(t)
    requires AddStep(cfg, Deleted(t, k), k, t2, true) && UpdateStep(cfg, t2, t3, commands)
    ensures commands == []
  {
    hide Good, AddStep, UpdateStep, Deleted, Wanted, Synced, OnlySlotsMoved;
    DeleteKeepsGood(cfg, t, k, ice);
    AddKeepsGood(cfg, Deleted(t, k), k, t2, ice);
    var laid := UpdateSendsTheDifference(cfg, t2, t3, commands, ice);
    ReAddRestores(cfg, t, k, t2, laid, ice);
    NothingNeeded(t2);
    NothingNeeded(laid);
  }

  lemma ReAddRestores(cfg: Config, t: seq<Breakpoint>, k: Key, t2: seq<Breakpoint>, laid: seq<Breakpoint>, ice: Ice)
    requires Good(cfg, t, ice) && Synced(t) && PlainKey(k) && k in Wanted(t)
    requires AddStep(cfg, Deleted(t, k), k, t2, true) && OnlySlotsMoved(t2, laid)
    ensures forall i :: 0 <= i < |t2| ==> t2[i].icestatus == t2[i].enabled
    ensures forall i :: 0 <= i < |laid| ==> laid[i].icestatus == laid[i].enabled
  {
    var t1 := Deleted(t, k);
    var i := Find(t, k, 0);
    EndIsIdle(t, i);
    var j :| 0 <= j < |t| && t[j].enabled && KeyOf(t[j]) == k;
    assert i == j;
    FindAgain(t, t1, k, 0);
    assert PickEntry(t1, k) == i;
    assert Requested(t1, k)[i] == t[i];
    assert Requested(t1, k) == t;
  }

  lemma {:induction false} FindAgain(t: seq<Breakpoint>, t': seq<Breakpoint>, k: Key, i: nat)
    requires |t'| == |t| && i <= |t| && forall j :: 0 <= j < |t| ==>
               t'[j].last == t[j].last && KeyOf(t'[j]) == KeyOf(t[j])
    ensures Find(t', k, i) == Find(t, k, i)
    decreases |t| - i
  {
  }
}
