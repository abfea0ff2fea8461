// The mkII conversation as a system of two FIFO lines between host and
// emulator (src/jtag2io.cc): which response an accepted one answers, over any
// run with losses, retries, events, and wraparound of the sequence number.

module StopAndWait {
  import opened Common
  import Jtag2Io

  // A frame sent by the host.  The epoch is the number of responses accepted
  // before it was sent; neither epoch nor command is visible in its number.
  datatype Frame = Frame(number: nat, epoch: nat, command: seq<byte>)

  datatype Answer = Response(to: Frame) | Event {
    function Number(): nat {
      match this
      case Response(f) => f.number
      case Event => 0xffff
    }
  }

  datatype System = System(
    number: nat, epoch: nat,
    busy: bool, command: seq<byte>,   // whether a command is being waited for, and which
    abandoned: bool,                  // a command was given up since the last accepted response
    toDevice: seq<Frame>, toHost: seq<Answer>)

  const START: System := System(0, 0, false, [], false, [], [])

  // Begin and Resend send a frame; GiveUp is the timeout exception; Read is one
  // turn of the receiving loop.  The emulator answers a frame at most once, and
  // either line may lose anything on it.
  datatype Step =
    | Begin(command: seq<byte>) | Resend | GiveUp | Read
    | Respond | Emit | LoseFrame(i: nat) | LoseAnswer(i: nat)

  predicate Enabled(s: System, t: Step) {
    match t
    case Begin(_) => !s.busy
    case Resend => s.busy
    case GiveUp => s.busy
    case Read => s.busy && s.toHost != []
    case Respond => s.toDevice != []
    case Emit => true
    case LoseFrame(i) => i < |s.toDevice|
    case LoseAnswer(i) => i < |s.toHost|
  }

  predicate Accepts(s: System, t: Step) {
    t.Read? && Enabled(s, t) && s.toHost[0].Number() == s.number
  }

  function Without<T>(xs: seq<T>, i: nat): seq<T>
    requires i < |xs|
  {
    xs[..i] + xs[i + 1..]
  }

  function Apply(s: System, t: Step): System
    requires Enabled(s, t)
  {
    match t
    case Begin(c) => s.(busy := true, command := c, toDevice := s.toDevice + [Frame(s.number, s.epoch, c)])
    case Resend => s.(toDevice := s.toDevice + [Frame(s.number, s.epoch, s.command)])
    case GiveUp => s.(busy := false, abandoned := true)
    case Read =>
      if Accepts(s, t) then
        s.(number := Jtag2Io.NextNumber(s.number), epoch := s.epoch + 1, busy := false, abandoned := false,
           toHost := s.toHost[1..])
      else
        s.(toHost := s.toHost[1..])
    case Respond => s.(toDevice := s.toDevice[1..], toHost := s.toHost + [Response(s.toDevice[0])])
    case Emit => s.(toHost := s.toHost + [Event])
    case LoseFrame(i) => s.(toDevice := Without(s.toDevice, i))
    case LoseAnswer(i) => s.(toHost := Without(s.toHost, i))
  }

  ghost predicate Legal(s: System, steps: seq<Step>)
    decreases |steps|
  {
    steps == [] || (Enabled(s, steps[0]) && Legal(Apply(s, steps[0]), steps[1..]))
  }

  function Final(s: System, steps: seq<Step>): System
    requires Legal(s, steps)
    decreases |steps|
  {
    if steps == [] then s else Final(Apply(s, steps[0]), steps[1..])
  }

  predicate Numbered(f: Frame) { f.number == f.epoch % 0xffff }

  // A frame still under way is from this epoch or the one before, and while no
  // command was given up, those of this epoch carry the current command.
  ghost predicate UnderWay(s: System, f: Frame) {
    && Numbered(f)
    && (f.epoch == s.epoch || f.epoch + 1 == s.epoch)
    && (f.epoch == s.epoch && !s.abandoned ==> s.busy && f.command == s.command)
  }

  ghost predicate AllUnderWay(s: System) {
    && (forall i :: 0 <= i < |s.toDevice| ==> UnderWay(s, s.toDevice[i]))
    && (forall i :: 0 <= i < |s.toHost| && s.toHost[i].Response? ==> UnderWay(s, s.toHost[i].to))
  }

  // What is on its way back was sent no later than what is still on its way out.
  ghost predicate InOrder(toDevice: seq<Frame>, toHost: seq<Answer>) {
    && (forall i, j :: 0 <= i < j < |toDevice| ==> toDevice[i].epoch <= toDevice[j].epoch)
    && (forall i, j :: 0 <= i < j < |toHost| && toHost[i].Response? && toHost[j].Response? ==>
          toHost[i].to.epoch <= toHost[j].to.epoch)
    && (forall i, j :: 0 <= i < |toHost| && 0 <= j < |toDevice| && toHost[i].Response? ==>
          toHost[i].to.epoch <= toDevice[j].epoch)
  }

  ghost predicate Inv(s: System) {
    s.number == s.epoch % 0xffff && AllUnderWay(s) && InOrder(s.toDevice, s.toHost)
  }

  // Neighbouring epochs never share a number, across wraparound too.
  lemma NumberTellsEpoch(e: nat, f: nat)
    requires f == e || f + 1 == e
    ensures f % 0xffff == e % 0xffff <==> f == e
    ensures Jtag2Io.NextNumber(e % 0xffff) == (e + 1) % 0xffff
  {
  }

  // Whatever the run before: an accepted response is no event, and answers a
  // frame sent since the last accepted response; it answers the command being
  // waited for unless a command was given up in between.
  lemma AcceptedIsCurrent(s: System, t: Step)
    requires Inv(s) && Accepts(s, t)
    ensures s.toHost[0].Response? && s.toHost[0].to.epoch == s.epoch
    ensures !s.abandoned ==> s.toHost[0].to.command == s.command
  {
  }

  lemma AcceptKeepsInv(s: System, t: Step)
    requires Inv(s) && Accepts(s, t)
    ensures Inv(Apply(s, t))
  {
    NumberTellsEpoch(s.epoch, s.epoch);
    AcceptedIsCurrent(s, t);
    hide Jtag2Io.NextNumber, Numbered;
  }

  lemma StepKeepsOrder(s: System, t: Step)
    requires Inv(s) && Enabled(s, t)
    ensures InOrder(Apply(s, t).toDevice, Apply(s, t).toHost)
  {
    hide Numbered, Jtag2Io.NextNumber;
    match t
    case LoseFrame(i) =>
      LossKeepsOrder(s.toDevice, s.toHost, i, 0);
    case LoseAnswer(i) =>
      LossKeepsOrder(s.toDevice, s.toHost, 0, i);
    case Begin(_) =>
    case Resend =>
    case GiveUp =>
    case Read =>
    case Respond =>
    case Emit =>
  }

  lemma LossKeepsOrder(toDevice: seq<Frame>, toHost: seq<Answer>, i: nat, k: nat)
    requires InOrder(toDevice, toHost)
    ensures i < |toDevice| ==> InOrder(Without(toDevice, i), toHost)
    ensures k < |toHost| ==> InOrder(toDevice, Without(toHost, k))
  {
  }

  lemma SendKeepsUnderWay(s: System, t: Step)
    requires AllUnderWay(s) && Enabled(s, t) && (t.Begin? || t.Resend? || t.GiveUp?)
    requires s.number == s.epoch % 0xffff
    ensures AllUnderWay(Apply(s, t))
  {
    hide InOrder;
  }

  lemma LineKeepsUnderWay(s: System, t: Step)
    requires AllUnderWay(s) && Enabled(s, t) && !Accepts(s, t)
    requires t.Read? || t.Respond? || t.Emit? || t.LoseFrame? || t.LoseAnswer?
    ensures AllUnderWay(Apply(s, t))
  {
    hide InOrder, Numbered, Jtag2Io.NextNumber;
  }

  lemma StepKeepsInv(s: System, t: Step)
    requires Inv(s) && Enabled(s, t)
    ensures Inv(Apply(s, t))
  {
    StepKeepsOrder(s, t);
    if Accepts(s, t) {
      AcceptKeepsInv(s, t);
    } else {
      if t.Begin? || t.Resend? || t.GiveUp? {
        SendKeepsUnderWay(s, t);
      } else {
        LineKeepsUnderWay(s, t);
      }
      hide InOrder, AllUnderWay, Jtag2Io.NextNumber;
    }
  }

  lemma {:induction false} RunKeepsInv(s: System, steps: seq<Step>)
    requires Inv(s) && Legal(s, steps)
    ensures Inv(Final(s, steps))
    decreases |steps|
  {
    if steps != [] {
      StepKeepsInv(s, steps[0]);
      RunKeepsInv(Apply(s, steps[0]), steps[1..]);
    }
  }

  // Safety over every run from the start.
  lemma EveryAcceptedIsCurrent(steps: seq<Step>, t: Step)
    requires Legal(START, steps) && Accepts(Final(START, steps), t)
    ensures var s := Final(START, steps);
      && s.number < 0xffff
      && s.toHost[0].Response? && s.toHost[0].to.epoch == s.epoch
      && (!s.abandoned ==> s.toHost[0].to.command == s.command)
  {
    RunKeepsInv(START, steps);
    AcceptedIsCurrent(Final(START, steps), t);
  }

  // ----- what the host knows

  // What the host does and sees of a run.
  datatype HostEvent = Begins(command: seq<byte>) | Resends | GivesUp | Takes

  function Seen(s: System, t: Step): seq<HostEvent>
    requires Enabled(s, t)
  {
    match t
    case Begin(c) => [Begins(c)]
    case Resend => [Resends]
    case GiveUp => [GivesUp]
    case Read => if Accepts(s, t) then [Takes] else []
    case _ => []
  }

  function History(s: System, steps: seq<Step>): seq<HostEvent>
    requires Legal(s, steps)
    decreases |steps|
  {
    if steps == [] then [] else Seen(s, steps[0]) + History(Apply(s, steps[0]), steps[1..])
  }

  // What the host can tell from its history: the command it waits for, and every command
  // it sent since it last took a response, once for each sending.
  datatype Knowledge = Knowledge(busy: bool, command: seq<byte>, tried: seq<seq<byte>>)

  function Learn(k: Knowledge, e: HostEvent): Knowledge {
    match e
    case Begins(c) => Knowledge(true, c, k.tried + [c])
    case Resends => k.(tried := k.tried + [k.command])
    case GivesUp => k.(busy := false)
    case Takes => k.(busy := false, tried := [])
  }

  function Know(h: seq<HostEvent>): Knowledge {
    if h == [] then Knowledge(false, [], []) else Learn(Know(h[..|h| - 1]), h[|h| - 1])
  }

  // Histories a host can have: it waits for one command at a time.
  predicate Possible(h: seq<HostEvent>) {
    h == [] || (Possible(h[..|h| - 1]) && (h[|h| - 1].Begins? <==> !Know(h[..|h| - 1]).busy))
  }

  // A run with this history, and the response waiting at its end.
  ghost predicate RunsTo(h: seq<HostEvent>, steps: seq<Step>) {
    Legal(START, steps) && History(START, steps) == h
  }

  ghost predicate AcceptsWrong(s: System) {
    Accepts(s, Read) && s.toHost[0].Response? && s.toHost[0].to.command != s.command
  }

  // A host cannot rule out taking the response to another command exactly when it sent
  // another command, and gave it up, since it last took a response.
  lemma WrongResponseExactlyWhenAnotherWasTried(h: seq<HostEvent>)
    requires Possible(h) && Know(h).busy
    ensures (exists steps :: RunsTo(h, steps) && AcceptsWrong(Final(START, steps))) <==>
            exists c :: c in Know(h).tried && c != Know(h).command
  {
    if steps :| RunsTo(h, steps) && AcceptsWrong(Final(START, steps)) {
      RunKeepsInv(START, steps);
      AcceptedIsCurrent(Final(START, steps), Read);
      RunIsKnown(START, [], steps);
      assert [] + h == h;
    }
    if c :| c in Know(h).tried && c != Know(h).command {
      var steps := Mislead(h, c);
      assert RunsTo(h, steps) && AcceptsWrong(Final(START, steps));
    }
  }

  // The host's picture is right, and every frame of this epoch is one it remembers.
  ghost predicate Pictured(s: System, k: Knowledge) {
    && s.busy == k.busy && (s.busy ==> s.command == k.command)
    && (forall i :: 0 <= i < |s.toDevice| && s.toDevice[i].epoch == s.epoch ==> s.toDevice[i].command in k.tried)
    && (forall i :: 0 <= i < |s.toHost| && s.toHost[i].Response? && s.toHost[i].to.epoch == s.epoch ==>
          s.toHost[i].to.command in k.tried)
  }

  ghost predicate Known(s: System, h: seq<HostEvent>) { Pictured(s, Know(h)) }

  lemma SentIsPictured(s: System, k: Knowledge, t: Step)
    requires Pictured(s, k) && Enabled(s, t) && (t.Begin? || t == Resend || t == GiveUp)
    ensures |Seen(s, t)| == 1 && Pictured(Apply(s, t), Learn(k, Seen(s, t)[0]))
  {
    hide Jtag2Io.NextNumber;
  }

  // Once a response is taken nothing under way is from the new epoch.
  lemma TakenIsPictured(s: System, k: Knowledge)
    requires Inv(s) && Pictured(s, k) && Accepts(s, Read)
    ensures Pictured(Apply(s, Read), Learn(k, Takes))
  {
    hide InOrder, Jtag2Io.NextNumber, Numbered;
  }

  lemma UnseenIsPictured(s: System, k: Knowledge, t: Step)
    requires Pictured(s, k) && Enabled(s, t) && Seen(s, t) == []
    ensures Pictured(Apply(s, t), k)
  {
    hide Jtag2Io.NextNumber;
  }

  lemma StepIsKnown(s: System, h: seq<HostEvent>, t: Step)
    requires Inv(s) && Known(s, h) && Enabled(s, t)
    ensures Known(Apply(s, t), h + Seen(s, t))
  {
    hide Inv, Pictured, Apply, Learn;
    var e := Seen(s, t);
    if e == [] {
      assert h + e == h;
      UnseenIsPictured(s, Know(h), t);
    } else {
      assert (h + e)[..|h|] == h && (h + e)[|h|] == e[0];
      assert Know(h + e) == Learn(Know(h), e[0]);
      if t == Read {
        TakenIsPictured(s, Know(h));
      } else {
        SentIsPictured(s, Know(h), t);
      }
    }
  }

  lemma {:induction false} RunIsKnown(s: System, h: seq<HostEvent>, steps: seq<Step>)
    requires Inv(s) && Known(s, h) && Legal(s, steps)
    ensures Known(Final(s, steps), h + History(s, steps))
    decreases |steps|
  {
    if steps == [] {
      assert h + [] == h;
    } else {
      hide Known, Inv, Apply, Seen;
      StepIsKnown(s, h, steps[0]);
      StepKeepsInv(s, steps[0]);
      var s', e := Apply(s, steps[0]), Seen(s, steps[0]);
      RunIsKnown(s', h + e, steps[1..]);
      assert h + e + History(s', steps[1..]) == h + (e + History(s', steps[1..]));
    }
  }

  lemma {:induction false} RunAppend(s: System, a: seq<Step>, b: seq<Step>)
    requires Legal(s, a) && Legal(Final(s, a), b)
    ensures Legal(s, a + b) && Final(s, a + b) == Final(Final(s, a), b)
    ensures History(s, a + b) == History(s, a) + History(Final(s, a), b)
    decreases |a|
  {
    hide Enabled, Apply, Seen;
    if a == [] {
      assert a + b == b;
    } else {
      assert (a + b)[0] == a[0] && (a + b)[1..] == a[1..] + b;
      RunAppend(Apply(s, a[0]), a[1..], b);
    }
  }

  // ----- the lines as bytes

  // Numbered messages that stand for what is on the line to the host.
  predicate OnWire(items: seq<Jtag2Io.Item>, toHost: seq<Answer>) {
    && Jtag2Io.Sendable(items) && |items| == |toHost|
    && forall i :: 0 <= i < |items| ==> items[i].number == toHost[i].Number()
  }

  function Reads(n: nat): (steps: seq<Step>)
    ensures |steps| == n && forall i :: 0 <= i < n ==> steps[i] == Read
  {
    seq(n, _ => Read)
  }

  lemma {:induction false} ReadsPassOver(s: System, k: nat)
    requires s.busy && k <= |s.toHost| && forall i :: 0 <= i < k ==> s.toHost[i].Number() != s.number
    ensures Legal(s, Reads(k)) && Final(s, Reads(k)) == s.(toHost := s.toHost[k..])
    decreases k
  {
    if k > 0 {
      var s1 := Apply(s, Read);
      assert s1 == s.(toHost := s.toHost[1..]) && Reads(k)[1..] == Reads(k - 1);
      ReadsPassOver(s1, k - 1);
      assert s.toHost[1..][k - 1..] == s.toHost[k..];
    }
  }

  // One call of recv on the bytes of the line, whatever is skipped between the frames, is
  // so many Read steps: it passes over the frames with other numbers and takes the first
  // with the awaited one.
  lemma RecvIsReads(s: System, items: seq<Jtag2Io.Item>, tail: seq<byte>, k: nat, stale: seq<byte>)
    requires s.busy && OnWire(items, s.toHost)
    requires k < |items| && items[k].number == s.number && forall i :: 0 <= i < k ==> items[i].number != s.number
    ensures OnWire(items[k + 1..], s.toHost[k + 1..])
    ensures Jtag2Io.Answer(s.number, Jtag2Io.OnLine(items, tail), stale) ==
            (Jtag2Io.Message(items[k].message), Jtag2Io.OnLine(items[k + 1..], tail))
    ensures Legal(s, Reads(k)) && Final(s, Reads(k)) == s.(toHost := s.toHost[k..])
    ensures Accepts(Final(s, Reads(k)), Read)
    ensures Apply(Final(s, Reads(k)), Read).toHost == s.toHost[k + 1..]
    ensures Apply(Final(s, Reads(k)), Read).number == Jtag2Io.NextNumber(s.number)
  {
    hide Jtag2Io.Answer, Jtag2Io.NextNumber, Jtag2Io.OnLine, Legal, Final, Reads;
    Jtag2Io.FirstMatchIsTaken(s.number, items, tail, k, stale);
    ReadsPassOver(s, k);
    assert s.toHost[k..][0] == s.toHost[k] && s.toHost[k..][1..] == s.toHost[k + 1..];
    WireTail(items, s.toHost, k + 1);
  }

  // If there is none it comes to the end of the frames, and answers as it does on what
  // follows them.
  lemma RecvFindsNone(s: System, items: seq<Jtag2Io.Item>, tail: seq<byte>, stale: seq<byte>)
    requires s.busy && OnWire(items, s.toHost) && forall i :: 0 <= i < |items| ==> items[i].number != s.number
    ensures Jtag2Io.Answer(s.number, Jtag2Io.OnLine(items, tail), stale) == Jtag2Io.Answer(s.number, tail, stale)
    ensures tail == [] ==> Jtag2Io.Answer(s.number, tail, stale) == (Jtag2Io.Silence, [])
    ensures Legal(s, Reads(|items|)) && Final(s, Reads(|items|)) == s.(toHost := [])
  {
    hide Jtag2Io.Answer, Jtag2Io.NextNumber, Jtag2Io.OnLine, Legal, Final, Reads;
    Jtag2Io.FirstMatchIsTaken(s.number, items, tail, |items|, stale);
    Jtag2Io.NothingOnLine(s.number, stale);
    ReadsPassOver(s, |items|);
    assert s.toHost[|items|..] == [];
  }

  lemma WireTail(items: seq<Jtag2Io.Item>, toHost: seq<Answer>, k: nat)
    requires OnWire(items, toHost) && k <= |items|
    ensures OnWire(items[k..], toHost[k..])
  {
  }

  // ----- every history happens

  // The frames before frame i are lost and frame i is answered; the host sees nothing.
  lemma {:induction false} AnswerFrame(s: System, i: nat) returns (steps: seq<Step>)
    requires s.toHost == [] && i < |s.toDevice|
    ensures Legal(s, steps) && History(s, steps) == []
    ensures Final(s, steps) == s.(toDevice := s.toDevice[i + 1..], toHost := [Response(s.toDevice[i])])
    decreases i
  {
    hide Legal, Final, History;
    if i == 0 {
      steps := ShowOne(s, Respond);
      assert [] + [Response(s.toDevice[0])] == [Response(s.toDevice[0])];
    } else {
      var lose := ShowOne(s, LoseFrame(0));
      var s1 := s.(toDevice := s.toDevice[1..]);
      assert Apply(s, LoseFrame(0)) == s1 by {
        assert Without(s.toDevice, 0) == s.toDevice[1..];
      }
      hide Apply;
      var later := AnswerFrame(s1, i - 1);
      RunAppend(s, lose, later);
      steps := lose + later;
      assert s.toDevice[1..][i..] == s.toDevice[i + 1..];
    }
  }

  // Nothing has been answered since the host last took a response.
  ghost predicate Settled(s: System, h: seq<HostEvent>) {
    var k := Know(h);
    && s.busy == k.busy && (s.busy ==> s.command == k.command)
    && s.number == s.epoch % 0xffff && s.toHost == [] && |s.toDevice| == |k.tried|
    && forall i :: 0 <= i < |k.tried| ==> s.toDevice[i] == Frame(s.number, s.epoch, k.tried[i])
  }

  lemma {:induction false} BusyHasTried(h: seq<HostEvent>)
    requires Possible(h) && Know(h).busy
    ensures Know(h).tried != []
  {
    if !h[|h| - 1].Begins? {
      BusyHasTried(h[..|h| - 1]);
    }
  }

  // Every history is that of a run that leaves things so.
  lemma {:induction false} Realise(h: seq<HostEvent>) returns (steps: seq<Step>)
    requires Possible(h)
    ensures RunsTo(h, steps) && Settled(Final(START, steps), h)
    decreases |h|
  {
    if h == [] {
      steps := [];
    } else {
      hide Legal, Final, History, Settled;
      var h1, e := h[..|h| - 1], h[|h| - 1];
      var before := Realise(h1);
      var s := Final(START, before);
      if e.Takes? {
        BusyHasTried(h1);
      }
      var more := ShowEvent(s, h1, e);
      RunAppend(START, before, more);
      steps := before + more;
      assert h == h1 + [e];
    }
  }

  lemma ShowEvent(s: System, h: seq<HostEvent>, e: HostEvent) returns (steps: seq<Step>)
    requires Settled(s, h) && (e.Begins? <==> !Know(h).busy) && (e.Takes? ==> Know(h).tried != [])
    ensures Legal(s, steps) && History(s, steps) == [e] && Settled(Final(s, steps), h + [e])
  {
    assert (h + [e])[..|h|] == h && (h + [e])[|h|] == e;
    assert Know(h + [e]) == Learn(Know(h), e);
    hide Legal, Final, History, Know;
    match e
    case Begins(c) => steps := ShowOne(s, Begin(c));
    case Resends => steps := ShowOne(s, Resend);
    case GivesUp => steps := ShowOne(s, GiveUp);
    case Takes => steps := ShowTake(s);
  }

  // The last frame sent is answered, and the response taken.
  lemma ShowTake(s: System) returns (steps: seq<Step>)
    requires s.busy && s.toHost == [] && s.toDevice != [] && s.number == s.epoch % 0xffff
    requires s.toDevice[|s.toDevice| - 1].number == s.number
    ensures Legal(s, steps) && History(s, steps) == [Takes]
    ensures var s' := Final(s, steps);
      && !s'.busy && s'.number == s'.epoch % 0xffff && s'.toHost == [] && s'.toDevice == []
  {
    var n := |s.toDevice| - 1;
    var f := s.toDevice[n];
    var more := AnswerFrame(s, n);
    hide Legal, Final, History;
    assert s.toDevice[n + 1..] == [];
    var last := TakeAnswer(s.(toDevice := [], toHost := [Response(f)]), f);
    RunAppend(s, more, last);
    steps := more + last;
  }

  lemma TakeAnswer(s: System, f: Frame) returns (steps: seq<Step>)
    requires s.busy && s.toHost == [Response(f)] && f.number == s.number == s.epoch % 0xffff && s.toDevice == []
    ensures Legal(s, steps) && History(s, steps) == [Takes]
    ensures var s' := Final(s, steps);
      && !s'.busy && s'.number == s'.epoch % 0xffff && s'.toHost == [] && s'.toDevice == []
  {
    NumberTellsEpoch(s.epoch, s.epoch);
    assert Accepts(s, Read) && s.toHost[1..] == [];
    steps := ShowOne(s, Read);
    hide Legal, Final, History, Jtag2Io.NextNumber;
  }

  lemma ShowOne(s: System, t: Step) returns (steps: seq<Step>)
    requires Enabled(s, t)
    ensures Legal(s, steps) && History(s, steps) == Seen(s, t) && Final(s, steps) == Apply(s, t)
  {
    steps := [t];
    assert steps[1..] == [];
    assert Seen(s, t) + [] == Seen(s, t);
  }

  // The frame of the other command is the one that is answered.
  lemma Mislead(h: seq<HostEvent>, c: seq<byte>) returns (steps: seq<Step>)
    requires Possible(h) && Know(h).busy && c in Know(h).tried && c != Know(h).command
    ensures RunsTo(h, steps) && AcceptsWrong(Final(START, steps))
  {
    var before := Realise(h);
    var s := Final(START, before);
    var i :| 0 <= i < |Know(h).tried| && Know(h).tried[i] == c;
    var more := AnswerFrame(s, i);
    RunAppend(START, before, more);
    steps := before + more;
    assert h + [] == h;
  }

  // A command is sent four times and answered once; nothing is lost.
  lemma SentFourTimes(a: seq<byte>)
    ensures var steps := [Begin(a), Resend, Resend, Resend]; var f := Frame(0, 0, a);
      Legal(START, steps) && Final(START, steps) == System(0, 0, true, a, false, [f, f, f, f], [])
  {
    var steps := [Begin(a), Resend, Resend, Resend];
    var f := Frame(0, 0, a);
    var s1 := System(0, 0, true, a, false, [f], []);
    var s2, s3, s4 := s1.(toDevice := [f, f]), s1.(toDevice := [f, f, f]), s1.(toDevice := [f, f, f, f]);
    assert Apply(START, Begin(a)) == s1 && Apply(s1, Resend) == s2;
    assert Apply(s2, Resend) == s3 && Apply(s3, Resend) == s4;
    LastStep(s4, steps);
    hide Apply, Legal, Final;
    RunFrom(s3, steps, 3, s4);
    RunFrom(s2, steps, 2, s3);
    RunFrom(s1, steps, 1, s2);
    RunFrom(START, steps, 0, s1);
    assert steps[0..] == steps;
  }

  // It is given up, the next command is sent, and the first frame is answered.
  lemma AnsweredLate(a: seq<byte>, b: seq<byte>)
    ensures var steps := [GiveUp, Begin(b), Respond]; var f, g := Frame(0, 0, a), Frame(0, 0, b);
      var s := System(0, 0, true, a, false, [f, f, f, f], []);
      Legal(s, steps) && Final(s, steps) == System(0, 0, true, b, true, [f, f, f, g], [Response(f)])
  {
    var steps := [GiveUp, Begin(b), Respond];
    var f, g := Frame(0, 0, a), Frame(0, 0, b);
    var s := System(0, 0, true, a, false, [f, f, f, f], []);
    var s1 := s.(busy := false, abandoned := true);
    var s2 := System(0, 0, true, b, true, [f, f, f, f, g], []);
    var s3 := System(0, 0, true, b, true, [f, f, f, g], [Response(f)]);
    assert Apply(s, GiveUp) == s1 && Apply(s1, Begin(b)) == s2 && Apply(s2, Respond) == s3;
    LastStep(s3, steps);
    hide Apply, Legal, Final;
    RunFrom(s2, steps, 2, s3);
    RunFrom(s1, steps, 1, s2);
    RunFrom(s, steps, 0, s1);
    assert steps[0..] == steps;
  }

  // A run without any loss: a command is sent four times and given up, and its response
  // is taken for the next command's.
  lemma GivingUpMisleads(a: seq<byte>, b: seq<byte>)
    requires a != b
    ensures var steps := [Begin(a), Resend, Resend, Resend, GiveUp, Begin(b), Respond];
      && Legal(START, steps) && AcceptsWrong(Final(START, steps))
      && Final(START, steps).command == b && Final(START, steps).toHost == [Response(Frame(0, 0, a))]
  {
    var sends, late := [Begin(a), Resend, Resend, Resend], [GiveUp, Begin(b), Respond];
    var f, g := Frame(0, 0, a), Frame(0, 0, b);
    assert AcceptsWrong(System(0, 0, true, b, true, [f, f, f, g], [Response(f)]));
    SentFourTimes(a);
    AnsweredLate(a, b);
    hide Legal, Final, Enabled, Apply, AcceptsWrong;
    RunAppend(START, sends, late);
    assert sends + late == [Begin(a), Resend, Resend, Resend, GiveUp, Begin(b), Respond];
  }

  lemma LastStep(s: System, steps: seq<Step>)
    ensures Legal(s, steps[|steps|..]) && Final(s, steps[|steps|..]) == s
  {
  }

  lemma RunFrom(s: System, steps: seq<Step>, i: nat, s': System)
    requires i < |steps| && Enabled(s, steps[i]) && Apply(s, steps[i]) == s' && Legal(s', steps[i + 1..])
    ensures Legal(s, steps[i..]) && Final(s, steps[i..]) == Final(s', steps[i + 1..])
  {
    assert steps[i..][1..] == steps[i + 1..] && steps[i..][0] == steps[i];
  }
}
