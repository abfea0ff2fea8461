// Breakpoints of the first JTAG ICE (src/jtagbp.cc): two lists that are written to
// four comparators, two of them for code only.

module MkiBreakpoints {
  import opened BreakpointTable
  import opened Common

  const MAX_BREAKPOINTS_CODE: nat := 4
  const MAX_BREAKPOINTS_DATA: nat := 2
  const MAX_BREAKPOINTS: nat := 4

  datatype MkiBreakpoint = MkiBreakpoint(address: nat, kind: BpType)

  // ----- the emulator

  // The comparators as the commands left them.
  datatype Box = Box(z0: Option<nat>, z1: Option<nat>, xHigh: nat, xLow: nat, yHigh: nat, yLow: nat, mode: bv8)

  function XOn(mode: bv8): bool { mode & 0x20 != 0 }
  function YOn(mode: bv8): bool { XOn(mode) && mode & 0x10 != 0 }

  // What the two bits that belong to a comparator make it watch.
  function Watched(bits: bv8): BpType {
    match bits
    case 0 => READ_DATA
    case 1 => WRITE_DATA
    case 2 => ACCESS_DATA
    case _ => CODE
  }

  // The breakpoints in comparators X and Y.
  function InXY(box: Box): seq<MkiBreakpoint> {
    (if XOn(box.mode)
     then [MkiBreakpoint(box.xHigh * 256 + box.xLow, Watched((box.mode >> 2) & 3))]
     else []) +
    (if YOn(box.mode)
     then [MkiBreakpoint(box.yHigh * 256 + box.yLow, Watched(box.mode & 3))]
     else [])
  }

  // The comparators have 16 address bits.
  function Wire(b: MkiBreakpoint): MkiBreakpoint { b.(address := b.address % 0x1_0000) }

  function WireAll(bs: seq<MkiBreakpoint>): (ws: seq<MkiBreakpoint>)
    ensures |ws| == |bs| && forall i :: 0 <= i < |bs| ==> ws[i] == Wire(bs[i])
  {
    seq(|bs|, i requires 0 <= i < |bs| => Wire(bs[i]))
  }

  // Addresses of sixteen bits are compared as they are.
  lemma WireKeeps(bs: seq<MkiBreakpoint>)
    requires forall b | b in bs :: b.address < 0x1_0000
    ensures WireAll(bs) == bs
  {
    assert forall i :: 0 <= i < |bs| ==> bs[i] in bs;
  }

  // What is left for X and Y.
  function Rest(codes: seq<MkiBreakpoint>, datas: seq<MkiBreakpoint>): seq<MkiBreakpoint> {
    (if |codes| > 2 then codes[2..] else []) + datas
  }

  // The two lists.
  datatype Lists = Lists(codes: seq<MkiBreakpoint>, datas: seq<MkiBreakpoint>)

  // Adding fails exactly when four breakpoints, or two of data, are there already.
  predicate Adds(l: Lists, address: nat, kind: BpType, ok: bool, l': Lists) {
    && (ok <==> |l.codes| + |l.datas| < 4 && (kind == CODE || |l.datas| < 2))
    && l'.codes == l.codes + (if ok && kind == CODE then [MkiBreakpoint(address / 2, CODE)] else [])
    && l'.datas == l.datas + (if ok && kind != CODE then [MkiBreakpoint(address, kind)] else [])
  }

  // Deleting fails exactly when there is no such breakpoint.
  predicate Deletes(l: Lists, address: nat, kind: BpType, ok: bool, l': Lists) {
    if kind == CODE then
      var b := MkiBreakpoint(address / 2, CODE);
      (ok <==> b in l.codes) && l'.codes == Without(l.codes, b) && l'.datas == l.datas
    else
      var b := MkiBreakpoint(address, kind);
      (ok <==> b in l.datas) && l'.datas == Without(l.datas, b) && l'.codes == l.codes
  }

  predicate WithinLimits(codes: seq<MkiBreakpoint>, datas: seq<MkiBreakpoint>) {
    && |codes| + |datas| <= MAX_BREAKPOINTS && |datas| <= MAX_BREAKPOINTS_DATA
    && (forall b | b in codes :: b.kind == CODE)
    && (forall b | b in datas :: IsData(b.kind))
  }

  // The box after an update: the first two code breakpoints in Z0 and Z1, all others
  // in X and Y, each once.  With none for X and Y these keep what they had.
  ghost predicate Updated(before: Box, after: Box, codes: seq<MkiBreakpoint>, datas: seq<MkiBreakpoint>) {
    && after.z0 == (if |codes| > 0 then Some(codes[0].address) else before.z0)
    && after.z1 == (if |codes| > 1 then Some(codes[1].address) else before.z1)
    && InXY(after) == if Rest(codes, datas) == [] then InXY(before) else WireAll(Rest(codes, datas))
  }

  // A mode byte says what it was put together from.
  lemma ModeBits(x: BpType, y: BpType)
    requires (x == CODE || IsData(x)) && (y == CODE || IsData(y))
    ensures var m := 0x20 | XBits(x);
            XOn(m) && !YOn(m) && Watched((m >> 2) & 3) == x
    ensures var m := 0x20 | XBits(x) | 0x10 | YBits(y);
            XOn(m) && YOn(m) && Watched((m >> 2) & 3) == x && Watched(m & 3) == y
  {
  }

  function XBits(kind: BpType): bv8 {
    match kind
    case READ_DATA => 0x00
    case WRITE_DATA => 0x04
    case ACCESS_DATA => 0x08
    case CODE => 0x0c
    case _ => 0x00
  }

  function YBits(kind: BpType): bv8 {
    match kind
    case READ_DATA => 0x00
    case WRITE_DATA => 0x01
    case ACCESS_DATA => 0x02
    case CODE => 0x03
    case _ => 0x00
  }

  // The first breakpoint equal to b is gone; the others keep their order.
  function Without(bs: seq<MkiBreakpoint>, b: MkiBreakpoint): seq<MkiBreakpoint> {
    if bs == [] then [] else if bs[0] == b then bs[1..] else [bs[0]] + Without(bs[1..], b)
  }

  lemma {:induction false} WithoutAt(bs: seq<MkiBreakpoint>, b: MkiBreakpoint, i: nat)
    requires i < |bs| && bs[i] == b && b !in bs[..i]
    ensures Without(bs, b) == bs[..i] + bs[i + 1..]
  {
    if i > 0 {
      assert bs[1..][..i - 1] == bs[..i][1..];
      assert bs[0] in bs[..i];
      WithoutAt(bs[1..], b, i - 1);
      assert bs[..i] == [bs[0]] + bs[1..][..i - 1];
    }
  }

  lemma OneMore<T>(x: T, s: seq<T>)
    ensures multiset([x] + s) == multiset{x} + multiset(s)
  {
  }

  lemma TakeOther<T>(x: T, b: T, m: multiset<T>)
    ensures x != b ==> multiset{x} + (m - multiset{b}) == multiset{x} + m - multiset{b}
    ensures x == b ==> multiset{x} + m - multiset{b} == m
  {
  }

  // Exactly one breakpoint goes, if there is one to go.
  lemma {:induction false} WithoutTakesOne(bs: seq<MkiBreakpoint>, b: MkiBreakpoint)
    ensures multiset(Without(bs, b)) == multiset(bs) - multiset{b}
  {
    if bs != [] {
      assert bs == [bs[0]] + bs[1..];
      WithoutTakesOne(bs[1..], b);
      OneMore(bs[0], bs[1..]);
      OneMore(bs[0], Without(bs[1..], b));
      TakeOther(bs[0], b, multiset(bs[1..]));
    }
  }

  class Jtag1 {
    const bpCode: array<MkiBreakpoint>
    const bpData: array<MkiBreakpoint>
    var numBreakpointsCode: nat
    var numBreakpointsData: nat
    var box: Box

    ghost predicate Valid()
      reads this, bpCode, bpData
    {
      && bpCode != bpData && bpCode.Length == MAX_BREAKPOINTS_CODE && bpData.Length == MAX_BREAKPOINTS_DATA
      && numBreakpointsCode <= bpCode.Length && numBreakpointsData <= bpData.Length
      && WithinLimits(Codes(), Datas())
    }

    function Codes(): seq<MkiBreakpoint>
      requires numBreakpointsCode <= bpCode.Length
      reads this`numBreakpointsCode, bpCode
    {
      bpCode[..numBreakpointsCode]
    }

    function Datas(): seq<MkiBreakpoint>
      requires numBreakpointsData <= bpData.Length
      reads this`numBreakpointsData, bpData
    {
      bpData[..numBreakpointsData]
    }

    constructor (box: Box)
      ensures Valid() && this.box == box && Codes() == [] && Datas() == [] && fresh(bpCode) && fresh(bpData)
    {
      bpCode := new MkiBreakpoint[MAX_BREAKPOINTS_CODE](_ => MkiBreakpoint(0, NONE));
      bpData := new MkiBreakpoint[MAX_BREAKPOINTS_DATA](_ => MkiBreakpoint(0, NONE));
      numBreakpointsCode, numBreakpointsData := 0, 0;
      this.box := box;
    }

    method CodeBreakpointAt(address: nat) returns (found: bool)
      requires Valid()
      ensures found <==> MkiBreakpoint(address / 2, CODE) in Codes()
    {
      for i := 0 to numBreakpointsCode
        invariant MkiBreakpoint(address / 2, CODE) !in bpCode[..i]
      {
        assert bpCode[..i + 1] == bpCode[..i] + [bpCode[i]];
        if bpCode[i].address == address / 2 {
          assert bpCode[i] in Codes();
          return true;
        }
      }
      found := false;
    }

    method DeleteAllBreakpoints()
      requires Valid()
      modifies this`numBreakpointsCode, this`numBreakpointsData
      ensures Valid() && Codes() == [] && Datas() == []
    {
      numBreakpointsData, numBreakpointsCode := 0, 0;
    }

    method AddBreakpoint(address: nat, kind: BpType) returns (ok: bool)
      requires Valid() && (kind == CODE || IsData(kind))
      modifies this`numBreakpointsCode, this`numBreakpointsData, bpCode, bpData
      ensures Valid()
      ensures Adds(old(Lists(Codes(), Datas())), address, kind, ok, Lists(Codes(), Datas()))
    {
      if numBreakpointsCode + numBreakpointsData == MAX_BREAKPOINTS {
        return false;
      }
      if kind == CODE {
        bpCode[numBreakpointsCode] := MkiBreakpoint(address / 2, CODE);
        numBreakpointsCode := numBreakpointsCode + 1;
      } else {
        if numBreakpointsData == MAX_BREAKPOINTS_DATA {
          return false;
        }
        bpData[numBreakpointsData] := MkiBreakpoint(address, kind);
        numBreakpointsData := numBreakpointsData + 1;
      }
      ok := true;
    }

    method DeleteBreakpoint(address: nat, kind: BpType) returns (ok: bool)
      requires Valid() && (kind == CODE || IsData(kind))
      modifies this`numBreakpointsCode, this`numBreakpointsData, bpCode, bpData
      ensures Valid()
      ensures Deletes(old(Lists(Codes(), Datas())), address, kind, ok, Lists(Codes(), Datas()))
    {
      if kind == CODE {
        numBreakpointsCode, ok := Squash(bpCode, numBreakpointsCode, MkiBreakpoint(address / 2, CODE));
      } else {
        numBreakpointsData, ok := Squash(bpData, numBreakpointsData, MkiBreakpoint(address, kind));
      }
    }

    method SetX(address: nat)
      modifies this`box
      ensures box == old(box).(xHigh := address / 256 % 256, xLow := address % 256)
    {
      box := box.(xHigh := address / 256 % 256);
      box := box.(xLow := address % 256);
    }

    method SetY(address: nat)
      modifies this`box
      ensures box == old(box).(yHigh := address / 256 % 256, yLow := address % 256)
    {
      box := box.(yHigh := address / 256 % 256);
      box := box.(yLow := address % 256);
    }

    function Left(c: nat, d: nat): seq<MkiBreakpoint>
      requires c <= numBreakpointsCode <= bpCode.Length && d <= numBreakpointsData <= bpData.Length
      reads this`numBreakpointsCode, this`numBreakpointsData, bpCode, bpData
    {
      Codes()[c..] + Datas()[d..]
    }

    // The next breakpoint to write: code first, then data.
    method Next(bpC: nat, bpD: nat) returns (bp: Option<MkiBreakpoint>, c: nat, d: nat)
      requires Valid() && bpC <= numBreakpointsCode && bpD <= numBreakpointsData
      ensures bpC <= c <= numBreakpointsCode && bpD <= d <= numBreakpointsData
      ensures Left(bpC, bpD) == (if bp.Some? then [bp.value] else []) + Left(c, d)
      ensures bp.None? ==> Left(bpC, bpD) == []
      ensures bp.Some? ==> bp.value.kind == CODE || IsData(bp.value.kind)
    {
      bp, c, d := None, bpC, bpD;
      if c < numBreakpointsCode {
        assert bpCode[c] in Codes() && Codes()[c..] == [bpCode[c]] + Codes()[c + 1..];
        bp := Some(bpCode[c]);
        c := c + 1;
      } else if d < numBreakpointsData {
        assert bpData[d] in Datas() && Datas()[d..] == [bpData[d]] + Datas()[d + 1..];
        bp := Some(bpData[d]);
        d := d + 1;
      }
    }

    // The code-only comparators.
    method UpdateZ() returns (bpC: nat)
      requires Valid()
      modifies this`box
      ensures bpC <= numBreakpointsCode && Left(bpC, 0) == Rest(Codes(), Datas())
      ensures box == old(box).(z0 := if Codes() != [] then Some(Codes()[0].address) else old(box.z0),
                               z1 := if |Codes()| > 1 then Some(Codes()[1].address) else old(box.z1))
    {
      bpC := 0;
      if bpC < numBreakpointsCode {
        box := box.(z0 := Some(bpCode[bpC].address));
        bpC := bpC + 1;
      }
      if bpC < numBreakpointsCode {
        box := box.(z1 := Some(bpCode[bpC].address));
        bpC := bpC + 1;
      }
    }

    method UpdateBreakpoints()
      requires Valid()
      modifies this`box
      ensures Updated(old(box), box, Codes(), Datas())
    {
      hide InXY, WireAll, XBits, YBits, Left, Rest;
      ghost var before := box;
      var bpMode: bv8 := 0x00;
      var bpC := UpdateZ();
      var bpD := 0;
      SameXY(before, box);
      ghost var rest := Left(bpC, bpD);
      FewLeft(Codes(), Datas());
      var bp;
      bp, bpC, bpD := Next(bpC, bpD);
      if bp.Some? {
        ghost var x := bp.value;
        SetX(bp.value.address);
        bpMode := 0x20 | XBits(bp.value.kind);
        bp, bpC, bpD := Next(bpC, bpD);
        if bp.Some? {
          SetY(bp.value.address);
          bpMode := bpMode | 0x10 | YBits(bp.value.kind);
        }
        box := box.(mode := bpMode);
        assert Left(bpC, bpD) == [];
        assert rest == [x] + if bp.Some? then [bp.value] else [];
        XYHold(box, x, bp);
      }
    }
  }

  // The limits leave no more than X and Y can take.
  lemma FewLeft(codes: seq<MkiBreakpoint>, datas: seq<MkiBreakpoint>)
    requires WithinLimits(codes, datas)
    ensures |Rest(codes, datas)| <= 2
  {
  }

  // Z0 and Z1 have nothing to do with X and Y.
  lemma SameXY(before: Box, after: Box)
    requires after == before.(z0 := after.z0, z1 := after.z1)
    ensures InXY(after) == InXY(before)
  {
  }

  // The parameters sent for one or two breakpoints put them into X, and Y.
  lemma XYHold(box: Box, x: MkiBreakpoint, y: Option<MkiBreakpoint>)
    requires (x.kind == CODE || IsData(x.kind)) && (y.Some? ==> y.value.kind == CODE || IsData(y.value.kind))
    requires box.xHigh == x.address / 256 % 256 && box.xLow == x.address % 256
    requires y.Some? ==> box.yHigh == y.value.address / 256 % 256 && box.yLow == y.value.address % 256
    requires box.mode == if y.Some? then 0x20 | XBits(x.kind) | 0x10 | YBits(y.value.kind) else 0x20 | XBits(x.kind)
    ensures InXY(box) == WireAll([x] + if y.Some? then [y.value] else [])
  {
    ModeBits(x.kind, if y.Some? then y.value.kind else CODE);
    HighAndLow(x.address);
    if y.Some? {
      HighAndLow(y.value.address);
    }
  }

  lemma HighAndLow(a: nat)
    ensures a / 256 % 256 * 256 + a % 256 == a % 0x1_0000
  {
  }

  // Finds b among the first count entries and moves the later ones down over it.
  method Squash(bps: array<MkiBreakpoint>, count: nat, b: MkiBreakpoint) returns (left: nat, ok: bool)
    requires count <= bps.Length
    modifies bps
    ensures left <= count && bps[..left] == Without(old(bps[..count]), b)
    ensures ok <==> b in old(bps[..count])
    ensures forall x | x in bps[..left] :: x in old(bps[..count])
  {
    ghost var was := bps[..count];
    for i := 0 to count
      invariant bps[..count] == was && b !in was[..i]
    {
      if bps[i] == b {
        assert b in was;
        WithoutAt(was, b, i);
        forall k | i <= k < count - 1 {
          bps[k] := bps[k + 1];
        }
        assert bps[..count - 1] == was[..i] + was[i + 1..];
        return count - 1, true;
      }
      assert was[..i + 1] == was[..i] + [was[i]];
    }
    assert was[..count] == was;
    NoneWithout(was, b);
    left, ok := count, false;
  }

  lemma {:induction false} NoneWithout(bs: seq<MkiBreakpoint>, b: MkiBreakpoint)
    requires b !in bs
    ensures Without(bs, b) == bs
  {
    if bs != [] {
      NoneWithout(bs[1..], b);
    }
  }

  // The breakpoints in comparators Z0 and Z1.
  function InZ(box: Box): seq<MkiBreakpoint> {
    (if box.z0.Some? then [MkiBreakpoint(box.z0.value, CODE)] else []) +
    (if box.z1.Some? then [MkiBreakpoint(box.z1.value, CODE)] else [])
  }

  function ForZ(codes: seq<MkiBreakpoint>): seq<MkiBreakpoint> {
    if |codes| > 2 then codes[..2] else codes
  }

  // Together the four comparators take every breakpoint, in order, each in one of them.
  lemma EachInOneComparator(codes: seq<MkiBreakpoint>, datas: seq<MkiBreakpoint>)
    requires WithinLimits(codes, datas)
    ensures ForZ(codes) + Rest(codes, datas) == codes + datas
    ensures |ForZ(codes)| <= 2 && |Rest(codes, datas)| <= 2 && forall b | b in ForZ(codes) :: b.kind == CODE
  {
  }

  // The box watches the stored breakpoints and nothing else.
  ghost predicate WatchesJust(box: Box, l: Lists) {
    InZ(box) + InXY(box) == ForZ(l.codes) + WireAll(Rest(l.codes, l.datas))
  }

  // So it is after an update exactly when each comparator that the update does not write
  // was already off.
  lemma UpdateIsExact(before: Box, after: Box, l: Lists)
    requires WithinLimits(l.codes, l.datas) && Updated(before, after, l.codes, l.datas)
    ensures WatchesJust(after, l) <==>
            && (l.codes == [] ==> before.z0.None?)
            && (|l.codes| < 2 ==> before.z1.None?)
            && (Rest(l.codes, l.datas) == [] ==> !XOn(before.mode))
  {
    hide WireAll, XOn, Watched, Rest;
    var rest := Rest(l.codes, l.datas);
    ZHolds(before, after, l.codes);
    hide WithinLimits;
    assert rest == [] ==> (InXY(before) == [] <==> !XOn(before.mode));
    assert WireAll([]) == [];
    hide InXY;
    var z, xy := InZ(after), InXY(after);
    assert |z| >= |ForZ(l.codes)| && |xy| >= |WireAll(rest)|;
    hide InZ, ForZ;
    assert |z + xy| == |z| + |xy| && |ForZ(l.codes) + WireAll(rest)| == |ForZ(l.codes)| + |WireAll(rest)|;
  }

  // The Z comparators hold theirs, and more exactly when one not written was on.
  lemma ZHolds(before: Box, after: Box, codes: seq<MkiBreakpoint>)
    requires forall b | b in codes :: b.kind == CODE
    requires after.z0 == (if |codes| > 0 then Some(codes[0].address) else before.z0)
    requires after.z1 == (if |codes| > 1 then Some(codes[1].address) else before.z1)
    ensures |InZ(after)| >= |ForZ(codes)|
    ensures |InZ(after)| == |ForZ(codes)| <==>
            (codes == [] ==> before.z0.None?) && (|codes| < 2 ==> before.z1.None?)
    ensures |InZ(after)| == |ForZ(codes)| ==> InZ(after) == ForZ(codes)
  {
  }

  // ----- runs

  // A call with its result.
  datatype Op = Add(address: nat, kind: BpType, ok: bool) | Delete(address: nat, kind: BpType, ok: bool)
    | DeleteAll | Update

  datatype State = State(lists: Lists, box: Box)

  ghost predicate Step(s: State, op: Op, s': State) {
    match op
    case Add(address, kind, ok) =>
      (kind == CODE || IsData(kind)) && Adds(s.lists, address, kind, ok, s'.lists) && s'.box == s.box
    case Delete(address, kind, ok) =>
      (kind == CODE || IsData(kind)) && Deletes(s.lists, address, kind, ok, s'.lists) && s'.box == s.box
    case DeleteAll => s' == State(Lists([], []), s.box)
    case Update => s'.lists == s.lists && Updated(s.box, s'.box, s.lists.codes, s.lists.datas)
  }

  ghost predicate StepAt(states: seq<State>, ops: seq<Op>, i: nat) {
    i < |ops| && i + 1 < |states| && Step(states[i], ops[i], states[i + 1])
  }

  predicate Off(box: Box) { box.z0.None? && box.z1.None? && !XOn(box.mode) }

  // From no breakpoints and all comparators off.
  ghost predicate Run(states: seq<State>, ops: seq<Op>) {
    && |states| == |ops| + 1 && states[0].lists == Lists([], []) && Off(states[0].box)
    && forall i: nat :: i < |ops| ==> StepAt(states, ops, i)
  }

  // Some update stored more than n code breakpoints.
  predicate WroteZ(states: seq<State>, ops: seq<Op>, n: nat) {
    |states| > |ops| && exists i: nat :: i < |ops| && ops[i] == Update && |states[i].lists.codes| > n
  }

  // Some update had breakpoints for X and Y.
  predicate WroteXY(states: seq<State>, ops: seq<Op>) {
    && |states| > |ops|
    && exists i: nat :: i < |ops| && ops[i] == Update && Rest(states[i].lists.codes, states[i].lists.datas) != []
  }

  lemma RunUpTo(states: seq<State>, ops: seq<Op>, n: nat)
    requires Run(states, ops) && n <= |ops|
    ensures |states| == |ops| + 1 && Run(states[..n + 1], ops[..n])
    ensures n < |ops| ==> Step(states[n], ops[n], states[n + 1])
  {
    hide Step;
    if n < |ops| {
      assert StepAt(states, ops, n);
    }
    var states', ops' := states[..n + 1], ops[..n];
    forall i: nat | i < n
      ensures StepAt(states', ops', i)
    {
      assert StepAt(states, ops, i);
    }
  }

  // Whether some update wrote a comparator, one call later.
  lemma WroteLater(states: seq<State>, ops: seq<Op>)
    requires |states| == |ops| + 1 && ops != []
    ensures var m := |ops| - 1;
      && (forall n: nat :: WroteZ(states, ops, n) <==>
            WroteZ(states[..m + 1], ops[..m], n) || (ops[m] == Update && |states[m].lists.codes| > n))
      && (WroteXY(states, ops) <==>
            || WroteXY(states[..m + 1], ops[..m])
            || (ops[m] == Update && Rest(states[m].lists.codes, states[m].lists.datas) != []))
  {
    hide Rest;
    var m := |ops| - 1;
    forall n: nat
      ensures WroteZ(states, ops, n) <==>
              WroteZ(states[..m + 1], ops[..m], n) || (ops[m] == Update && |states[m].lists.codes| > n)
    {
      if i: nat :| i < m && ops[..m][i] == Update && |states[..m + 1][i].lists.codes| > n {
        assert ops[i] == Update && |states[i].lists.codes| > n;
      }
    }
    if i: nat :| i < m && ops[..m][i] == Update &&
                 Rest(states[..m + 1][i].lists.codes, states[..m + 1][i].lists.datas) != [] {
      assert ops[i] == Update && Rest(states[i].lists.codes, states[i].lists.datas) != [];
    }
  }

  lemma WithoutKinds(bs: seq<MkiBreakpoint>, b: MkiBreakpoint)
    ensures |Without(bs, b)| <= |bs| && forall x | x in Without(bs, b) :: x in bs
  {
  }

  lemma StepKeepsLimits(s: State, op: Op, s': State)
    requires WithinLimits(s.lists.codes, s.lists.datas) && Step(s, op, s')
    ensures WithinLimits(s'.lists.codes, s'.lists.datas)
  {
    if op.Delete? {
      WithoutKinds(s.lists.codes, MkiBreakpoint(op.address / 2, CODE));
      WithoutKinds(s.lists.datas, MkiBreakpoint(op.address, op.kind));
    }
  }

  // The breakpoint that a call names; code goes by words.
  function Named(address: nat, kind: BpType): MkiBreakpoint {
    MkiBreakpoint(if kind == CODE then address / 2 else address, kind)
  }

  // What the calls leave of code or data breakpoints, counted: each successful add adds
  // one and each successful delete takes one away.
  function Bag(ops: seq<Op>, code: bool): multiset<MkiBreakpoint> {
    if ops == [] then multiset{} else Counted(Bag(ops[..|ops| - 1], code), ops[|ops| - 1], code)
  }

  function Counted(before: multiset<MkiBreakpoint>, op: Op, code: bool): multiset<MkiBreakpoint> {
    match op
    case Add(address, kind, ok) =>
      if ok && (kind == CODE) == code then before + multiset{Named(address, kind)} else before
    case Delete(address, kind, ok) =>
      if ok && (kind == CODE) == code then before - multiset{Named(address, kind)} else before
    case DeleteAll => multiset{}
    case Update => before
  }

  lemma StepCounts(s: State, op: Op, s': State)
    requires Step(s, op, s')
    ensures multiset(s'.lists.codes) == Counted(multiset(s.lists.codes), op, true)
    ensures multiset(s'.lists.datas) == Counted(multiset(s.lists.datas), op, false)
  {
    if op.Delete? {
      var b := Named(op.address, op.kind);
      hide Adds, Updated;
      assert multiset(s'.lists.codes) == multiset(s.lists.codes) -
        if op.kind == CODE && op.ok then multiset{b} else multiset{} by {
        if op.kind == CODE {
          TakenAway(s.lists.codes, b, op.ok);
        }
      }
      assert multiset(s'.lists.datas) == multiset(s.lists.datas) -
        if op.kind != CODE && op.ok then multiset{b} else multiset{} by {
        if op.kind != CODE {
          TakenAway(s.lists.datas, b, op.ok);
        }
      }
      hide Deletes;
    }
  }

  lemma TakenAway(bs: seq<MkiBreakpoint>, b: MkiBreakpoint, ok: bool)
    requires ok <==> b in bs
    ensures multiset(Without(bs, b)) == multiset(bs) - if ok then multiset{b} else multiset{}
  {
    WithoutTakesOne(bs, b);
    assert b in multiset(bs) <==> b in bs;
  }

  // Over every run the lists hold exactly what the calls leave.
  lemma {:induction false} RunCounts(states: seq<State>, ops: seq<Op>)
    requires Run(states, ops)
    ensures multiset(states[|ops|].lists.codes) == Bag(ops, true)
    ensures multiset(states[|ops|].lists.datas) == Bag(ops, false)
    decreases |ops|
  {
    if ops != [] {
      hide Step, Run, Counted;
      var m := |ops| - 1;
      RunUpTo(states, ops, m);
      RunCounts(states[..m + 1], ops[..m]);
      StepCounts(states[m], ops[m], states[m + 1]);
    }
  }

  // And each call succeeds exactly when the limits, or what is stored, allow it.
  lemma CallSucceeds(states: seq<State>, ops: seq<Op>, i: nat)
    requires Run(states, ops) && i < |ops|
    ensures var codes, datas := Bag(ops[..i], true), Bag(ops[..i], false);
      && (ops[i].Add? ==> (ops[i].ok <==> |codes| + |datas| < 4 && (ops[i].kind == CODE || |datas| < 2)))
      && (ops[i].Delete? ==> (ops[i].ok <==>
            Named(ops[i].address, ops[i].kind) in if ops[i].kind == CODE then codes else datas))
  {
    hide Run, Bag;
    RunUpTo(states, ops, i);
    RunCounts(states[..i + 1], ops[..i]);
    var l := states[i].lists;
    assert states[..i + 1][i] == states[i];
    assert |multiset(l.codes)| == |l.codes| && |multiset(l.datas)| == |l.datas|;
    if ops[i].Delete? {
      var b := Named(ops[i].address, ops[i].kind);
      assert b in multiset(l.codes) <==> b in l.codes;
      assert b in multiset(l.datas) <==> b in l.datas;
    }
  }

  lemma StepBox(s: State, op: Op, s': State)
    requires Step(s, op, s')
    ensures s'.box.z0.Some? <==> s.box.z0.Some? || (op == Update && |s.lists.codes| > 0)
    ensures s'.box.z1.Some? <==> s.box.z1.Some? || (op == Update && |s.lists.codes| > 1)
    ensures XOn(s'.box.mode) <==> XOn(s.box.mode) || (op == Update && Rest(s.lists.codes, s.lists.datas) != [])
  {
    assert InXY(s.box) == [] <==> !XOn(s.box.mode);
    assert InXY(s'.box) == [] <==> !XOn(s'.box.mode);
  }

  // Over every run the limits hold, and a comparator is on exactly when some update has
  // written it: nothing turns it off again.
  lemma {:induction false} WrittenIsOn(states: seq<State>, ops: seq<Op>)
    requires Run(states, ops)
    ensures var s := states[|ops|];
      && WithinLimits(s.lists.codes, s.lists.datas)
      && (s.box.z0.Some? <==> WroteZ(states, ops, 0)) && (s.box.z1.Some? <==> WroteZ(states, ops, 1))
      && (XOn(s.box.mode) <==> WroteXY(states, ops))
    decreases |ops|
  {
    if ops != [] {
      hide *;
      var m := |ops| - 1;
      RunUpTo(states, ops, m);
      WrittenIsOn(states[..m + 1], ops[..m]);
      WroteLater(states, ops);
      StepKeepsLimits(states[m], ops[m], states[m + 1]);
      StepBox(states[m], ops[m], states[m + 1]);
    }
  }

  // After an update that ends a run, the box watches just the stored breakpoints exactly
  // when every comparator it has no breakpoint for was never written before.
  lemma RunIsExact(states: seq<State>, ops: seq<Op>)
    requires Run(states, ops) && ops != [] && ops[|ops| - 1] == Update
    ensures var s := states[|ops|];
      WatchesJust(s.box, s.lists) <==>
        && (s.lists.codes == [] ==> !WroteZ(states, ops, 0))
        && (|s.lists.codes| < 2 ==> !WroteZ(states, ops, 1))
        && (Rest(s.lists.codes, s.lists.datas) == [] ==> !WroteXY(states, ops))
  {
    hide WithinLimits, WroteZ, WroteXY, Rest, XOn, Updated, WatchesJust, Run, InXY;
    var m := |ops| - 1;
    RunUpTo(states, ops, m);
    WrittenIsOn(states[..m + 1], ops[..m]);
    WroteLater(states, ops);
    UpdateIsExact(states[m].box, states[m + 1].box, states[m].lists);
  }

  // One breakpoint added, sent, deleted: the next update leaves it in the box.
  lemma DeletedIsStillWatched(a: nat, box: Box) returns (states: seq<State>)
    requires Off(box)
    ensures Run(states, [Add(a, CODE, true), Update, Delete(a, CODE, true), Update]) && states[0].box == box
    ensures var s := states[4];
      s.lists == Lists([], []) && InZ(s.box) == [MkiBreakpoint(a / 2, CODE)] && !WatchesJust(s.box, s.lists)
  {
    var none, one := Lists([], []), Lists([MkiBreakpoint(a / 2, CODE)], []);
    var on := box.(z0 := Some(a / 2));
    states := [State(none, box), State(one, box), State(one, on), State(none, on), State(none, on)];
    var ops := [Add(a, CODE, true), Update, Delete(a, CODE, true), Update];
    assert Step(states[0], ops[0], states[1]);
    assert Step(states[1], ops[1], states[2]);
    assert Step(states[2], ops[2], states[3]);
    assert Step(states[3], ops[3], states[4]);
    assert forall i: nat | i < 4 :: StepAt(states, ops, i);
  }
}
