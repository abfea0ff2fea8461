// The host side of the mkII protocol (src/jtag2io.cc): sending and receiving
// frames byte by byte, matching responses by sequence number, and retrying.

module Jtag2Io {
  import opened Common
  import opened Crc16
  import opened Frame

  // The states of the receiver, in the order a frame passes through them.
  datatype State =
    | SStart | SSeqNum1 | SSeqNum2 | SSize1 | SSize2 | SSize3 | SSize4
    | SToken | SData | SCSum1 | SCSum2 | SDone
  {
    function Position(): nat {
      match this
      case SStart => 0
      case SSeqNum1 => 1
      case SSeqNum2 => 2
      case SSize1 => 3
      case SSize2 => 4
      case SSize3 => 5
      case SSize4 => 6
      case SToken => 7
      case SData => 8
      case SCSum1 => 9
      case SCSum2 => 10
      case SDone => 11
    }
  }

  // What the receiver knows up to the token: as many header bytes as its state
  // says, and the number and length they have spelled so far over what earlier
  // headers left; the four size bytes push all of that out of the length.
  ghost predicate HeaderRead(state: State, h: seq<byte>, seqno: nat, msglen: nat, k: Carry) {
    var p := state.Position();
    && |h| == p <= 7
    && (p > 0 ==> h[0] == MESSAGE_START)
    && seqno == PartSeqNo(h, k) && msglen == PartSize(h, k)
    && k.msglen < 0x1_0000_0000
  }

  // Past the token the buffer holds what has been taken of the frame, over what it
  // happened to hold.
  ghost predicate FrameRead(state: State, f: seq<byte>, input: seq<byte>, b: seq<byte>, l: nat,
                            seqno: nat, msglen: nat, k: Carry)
  {
    && |f| >= 8 && HeaderAccepted(f) && seqno == SeqNoOf(f) && msglen == SizeOf(f)
    && |b| == msglen + 10
    && (state == SData ==> b[..8] == f[..8] && input == f[8..] && b[8..msglen + 8] == Held([], msglen, k.stale))
    && (state == SCSum1 ==> l == msglen + 8 && msglen > 0)
    && (state == SCSum2 ==> l == msglen + 9 && msglen > 0)
    && (state == SCSum1 || state == SCSum2 ==>
          && b[8..msglen + 8] == Held(f[8..], msglen, k.stale)
          && ((input == [] && |f| < l) || (|f| >= l && b[..l] == f[..l] && input == f[l..])))
  }

  lemma FourBytesShiftedIn(n: nat, b0: byte, b1: byte, b2: byte, b3: byte)
    requires n < 0x1_0000_0000
    ensures ShiftIn(ShiftIn(ShiftIn(ShiftIn(n, b0), b1), b2), b3) == ToU32(b0, b1, b2, b3)
  {
    hide Value;
  }

  // How a header byte changes the number and the length.
  predicate FieldRead(state: State, c: byte, seqno: nat, msglen: nat, seqno': nat, msglen': nat) {
    && seqno' == (if state == SSeqNum1 then Value(c)
                  else if state == SSeqNum2 then seqno % 0x100 + 0x100 * Value(c) else seqno)
    && msglen' == if 3 <= state.Position() <= 6 then ShiftIn(msglen, c) else msglen
  }

  lemma HeaderStep(state: State, state': State, h: seq<byte>, c: byte, seqno: nat, seqno': nat,
                   msglen: nat, msglen': nat, k: Carry)
    requires HeaderRead(state, h, seqno, msglen, k) && state'.Position() == state.Position() + 1 <= 7
    requires msglen < 0x1_0000_0000
    requires state == SStart ==> c == MESSAGE_START
    requires FieldRead(state, c, seqno, msglen, seqno', msglen')
    ensures HeaderRead(state', h + [c], seqno', msglen', k) && msglen' < 0x1_0000_0000
    ensures state' == SToken ==> msglen' == ToU32((h + [c])[3], (h + [c])[4], (h + [c])[5], (h + [c])[6])
  {
    hide Value;
    if state == SSize4 {
      FourBytesShiftedIn(k.msglen, h[3], h[4], h[5], c);
    }
  }

  lemma StrayByte(c: byte, input: seq<byte>, k: Carry)
    requires c != MESSAGE_START
    ensures Scan([c] + input, k) == Scan(input, k)
  {
    assert ([c] + input)[1..] == input;
  }

  lemma HeaderQuiet(state: State, h: seq<byte>, seqno: nat, msglen: nat, k: Carry)
    requires HeaderRead(state, h, seqno, msglen, k)
    ensures Scan(h, k) == Scanned(Quiet(seqno, msglen, None), [])
  {
  }

  lemma HeaderRejected(h: seq<byte>, c: byte, input: seq<byte>, seqno: nat, msglen: nat, k: Carry)
    requires HeaderRead(SToken, h, seqno, msglen, k) && !(c == TOKEN && msglen <= MAX_MESSAGE)
    ensures Scan(h + [c] + input, k) == Scan(input, k.(seqno := seqno, msglen := msglen))
  {
    hide ToU16, ToU32;
    var f := h + [c] + input;
    assert f[8..] == input;
    assert forall j :: 0 <= j < 7 ==> f[j] == h[j];
  }

  // A complete header that was accepted, and the bytes after it.
  ghost predicate HeaderDone(f: seq<byte>, input: seq<byte>, header: seq<byte>, seqno: nat, msglen: nat) {
    && f == header + input && |header| == 8 && HeaderAccepted(f)
    && seqno == SeqNoOf(f) && msglen == SizeOf(f)
  }

  lemma HeaderTaken(h: seq<byte>, input: seq<byte>, seqno: nat, msglen: nat, k: Carry)
    requires HeaderRead(SToken, h, seqno, msglen, k) && msglen <= MAX_MESSAGE
    ensures HeaderDone(h + [TOKEN] + input, input, h + [TOKEN], seqno, msglen)
  {
    hide ToU16, ToU32;
    assert forall j :: 0 <= j < 7 ==> (h + [TOKEN] + input)[j] == h[j];
  }

  lemma DataQuiet(f: seq<byte>, input: seq<byte>, b: seq<byte>, l: nat, seqno: nat, msglen: nat, k: Carry)
    requires FrameRead(SData, f, input, b, l, seqno, msglen, k) && (msglen == 0 || input == [])
    ensures Scan(f, k) == Scanned(Quiet(seqno, msglen, Some(b[8..msglen + 8])), input)
  {
    hide ToU16, ToU32;
    if msglen == 0 {
      assert b[8..8] == [];
    }
  }

  lemma DataTaken(f: seq<byte>, input: seq<byte>, b: seq<byte>, b': seq<byte>, l: nat, seqno: nat, msglen: nat,
                  k: Carry)
    requires FrameRead(SData, f, input, b, l, seqno, msglen, k) && msglen > 0 && |b'| == |b| && b'[..8] == b[..8]
    requires var actual := Min(msglen, |input|);
      b'[8..8 + actual] == input[..actual] && b'[8 + actual..] == b[8 + actual..]
    ensures FrameRead(SCSum1, f, input[Min(msglen, |input|)..], b', msglen + 8, seqno, msglen, k)
  {
    hide HeaderAccepted, SeqNoOf, SizeOf, ToU16, ToU32;
    TakenIsHeld(input, b, b', msglen, k.stale);
    if msglen <= |input| {
      assert b'[..msglen + 8] == b'[..8] + b'[8..msglen + 8] == f[..msglen + 8];
      assert input[msglen..] == f[msglen + 8..];
    }
  }

  lemma TakenIsHeld(input: seq<byte>, b: seq<byte>, b': seq<byte>, n: nat, stale: seq<byte>)
    requires |b'| == |b| == n + 10 && b[8..n + 8] == Held([], n, stale)
    requires var actual := Min(n, |input|);
      b'[8..8 + actual] == input[..actual] && b'[8 + actual..] == b[8 + actual..]
    ensures b'[8..n + 8] == Held(input, n, stale)
  {
    var actual := Min(n, |input|);
    forall i | 0 <= i < n
      ensures b'[8..n + 8][i] == Held(input, n, stale)[i]
    {
      if i < actual {
        assert b'[8..8 + actual][i] == input[..actual][i];
      } else {
        assert b'[8 + actual..][i - actual] == b[8 + actual..][i - actual] == b[8..n + 8][i];
      }
    }
  }

  lemma CrcQuiet(state: State, f: seq<byte>, b: seq<byte>, l: nat, seqno: nat, msglen: nat, k: Carry)
    requires state == SCSum1 || state == SCSum2
    requires FrameRead(state, f, [], b, l, seqno, msglen, k)
    ensures Scan(f, k) == Scanned(Quiet(seqno, msglen, Some(b[8..msglen + 8])), [])
  {
    hide ToU16, ToU32;
  }

  lemma CrcByte(state: State, f: seq<byte>, input: seq<byte>, b: seq<byte>, l: nat, seqno: nat, msglen: nat, k: Carry)
    requires state == SCSum1 || state == SCSum2
    requires FrameRead(state, f, input, b, l, seqno, msglen, k) && input != []
    ensures l < |b| && |f| >= l + 1 && b[l := input[0]][..l + 1] == f[..l + 1] && input[1..] == f[l + 1..]
    ensures state == SCSum1 ==> FrameRead(SCSum2, f, input[1..], b[l := input[0]], l + 1, seqno, msglen, k)
  {
    hide ToU16, ToU32, Held;
    assert b[l := input[0]][8..msglen + 8] == b[8..msglen + 8];
  }

  lemma FrameEnd(f: seq<byte>, input: seq<byte>, b: seq<byte>, l: nat, seqno: nat, msglen: nat, k: Carry)
    requires FrameRead(SCSum2, f, input, b, l, seqno, msglen, k) && input != []
    ensures l == msglen + 9 && l < |b| && msglen > 0
    ensures var b' := b[l := input[0]];
      && |b'| == msglen + 10
      && Scan(f, k) == Scanned(if Verified(b') then Received(seqno, b'[8..msglen + 8]) else BadCrc, input[1..])
  {
    hide Verified, ToU16, ToU32, Held;
    CrcByte(SCSum2, f, input, b, l, seqno, msglen, k);
    var b' := b[l := input[0]];
    assert b' == f[..msglen + 10];
    assert b'[8..msglen + 8] == f[8..msglen + 8];
  }

  // The receiver between two bytes: the header and the buffer, how far it is in each,
  // and the number and length so far.
  datatype Receiver = Receiver(state: State, header: seq<byte>, headeridx: nat, buf: seq<byte>, l: nat,
                               seqno: nat, msglen: nat)

  // All it knows: f is the input from the first byte of the header being read, k what
  // came before it.
  ghost predicate Reading(v: Receiver, f: seq<byte>, input: seq<byte>, k: Carry) {
    && v.msglen < 0x1_0000_0000
    && |v.header| == 8
    && (v.state.Position() <= 7 ==>
          && v.headeridx == v.state.Position()
          && HeaderRead(v.state, v.header[..v.headeridx], v.seqno, v.msglen, k)
          && f == v.header[..v.headeridx] + input)
    && (v.state.Position() >= 8 ==> |v.buf| == v.msglen + 10)
    && (8 <= v.state.Position() <= 10 ==> FrameRead(v.state, f, input, v.buf, v.l, v.seqno, v.msglen, k))
    && (v.state == SDone ==>
          Verified(v.buf) && Scan(f, k) == Scanned(Received(v.seqno, v.buf[8..v.msglen + 8]), input))
  }

  lemma ReadingStarts(v: Receiver, input: seq<byte>, k: Carry)
    requires v.state == SStart && |v.header| == 8 && v.headeridx == 0
    requires v.seqno == k.seqno && v.msglen == k.msglen < 0x1_0000_0000
    ensures Reading(v, input, input, k)
  {
  }

  // What is handed back when the line goes quiet between two bytes.
  lemma ReadingQuiet(v: Receiver, f: seq<byte>, k: Carry)
    requires Reading(v, f, [], k) && v.state != SDone && v.state != SData
    ensures v.state.Position() >= 8 ==> |v.buf| == v.msglen + 10
    ensures Scan(f, k) ==
            Scanned(Quiet(v.seqno, v.msglen,
                          if v.state.Position() < 8 then None else Some(v.buf[8..v.msglen + 8])), [])
  {
    hide Scan, HeaderRead, FrameRead;
    if v.state.Position() < 8 {
      assert f == v.header[..v.headeridx];
      HeaderQuiet(v.state, f, v.seqno, v.msglen, k);
    } else {
      CrcQuiet(v.state, f, v.buf, v.l, v.seqno, v.msglen, k);
    }
  }

  // What the loop needs of it.
  lemma ReadingBounds(v: Receiver, f: seq<byte>, input: seq<byte>, k: Carry)
    requires Reading(v, f, input, k)
    ensures v.msglen < 0x1_0000_0000
    ensures v.state.Position() <= 7 ==> v.headeridx == v.state.Position()
    ensures v.state.Position() >= 8 ==> |v.buf| == v.msglen + 10
    ensures v.state == SDone ==>
      Verified(v.buf) && Scan(f, k) == Scanned(Received(v.seqno, v.buf[8..v.msglen + 8]), input)
  {
  }

  lemma ReadingDataQuiet(v: Receiver, f: seq<byte>, input: seq<byte>, k: Carry)
    requires Reading(v, f, input, k) && v.state == SData && (v.msglen == 0 || input == [])
    ensures |v.buf| == v.msglen + 10
    ensures Scan(f, k) == Scanned(Quiet(v.seqno, v.msglen, Some(v.buf[8..v.msglen + 8])), input)
  {
    hide FrameRead, Scan;
    DataQuiet(f, input, v.buf, v.l, v.seqno, v.msglen, k);
  }

  lemma ReadingData(v: Receiver, b: seq<byte>, f: seq<byte>, input: seq<byte>, k: Carry)
    requires Reading(v, f, input, k) && v.state == SData && v.msglen > 0
    requires |b| == |v.buf| && b[..8] == v.buf[..8]
    requires var actual := Min(v.msglen, |input|);
      b[8..8 + actual] == input[..actual] && b[8 + actual..] == v.buf[8 + actual..]
    ensures Reading(v.(state := SCSum1, buf := b, l := v.msglen + 8), f, input[Min(v.msglen, |input|)..], k)
  {
    hide FrameRead, Scan;
    DataTaken(f, input, v.buf, b, v.l, v.seqno, v.msglen, k);
  }

  lemma ReadingStray(v: Receiver, f: seq<byte>, c: byte, input: seq<byte>, k: Carry)
    requires Reading(v, f, [c] + input, k) && v.state == SStart && c != MESSAGE_START
    ensures Scan(f, k) == Scan(input, k) && v.seqno == k.seqno && v.msglen == k.msglen
  {
    hide Scan;
    assert f == [c] + input;
    StrayByte(c, input, k);
  }

  // A byte of the header is taken, and the state, number and length move on.
  lemma ReadingHeader(v: Receiver, v': Receiver, f: seq<byte>, c: byte, input: seq<byte>, k: Carry)
    requires Reading(v, f, [c] + input, k) && v'.state.Position() == v.state.Position() + 1 <= 7
    requires v.headeridx < 8 == |v.header|
    requires v' == v.(state := v'.state, header := v.header[v.headeridx := c], headeridx := v.headeridx + 1,
                      seqno := v'.seqno, msglen := v'.msglen)
    requires v.state == SStart ==> c == MESSAGE_START
    requires FieldRead(v.state, c, v.seqno, v.msglen, v'.seqno, v'.msglen)
    ensures Reading(v', f, input, k)
  {
    hide HeaderRead, Scan, Value;
    var h := v.header[..v.headeridx];
    assert v'.header[..v'.headeridx] == h + [c];
    HeaderStep(v.state, v'.state, h, c, v.seqno, v'.seqno, v.msglen, v'.msglen, k);
  }

  lemma ReadingToken(v: Receiver, f: seq<byte>, c: byte, input: seq<byte>, k: Carry)
    requires Reading(v, f, [c] + input, k) && v.state == SToken
    ensures |v.header| == 8 && v.headeridx == 7
    ensures if c == TOKEN && v.msglen <= MAX_MESSAGE
            then HeaderDone(f, input, v.header[7 := c], v.seqno, v.msglen)
            else Scan(f, k) == Scan(input, k.(seqno := v.seqno, msglen := v.msglen))
  {
    hide HeaderRead, FrameRead, HeaderDone, Scan;
    var h := v.header[..7];
    assert f == h + [c] + input && v.header[7 := c] == h + [c];
    if c == TOKEN && v.msglen <= MAX_MESSAGE {
      HeaderTaken(h, input, v.seqno, v.msglen, k);
    } else {
      HeaderRejected(h, c, input, v.seqno, v.msglen, k);
    }
  }

  lemma ReadingBuffer(v: Receiver, f: seq<byte>, input: seq<byte>, k: Carry)
    requires v.state == SData && HeaderDone(f, input, v.header, v.seqno, v.msglen)
    requires |v.buf| == v.msglen + 10 && v.buf[..8] == v.header
    requires v.buf[8..v.msglen + 8] == Held([], v.msglen, k.stale)
    ensures Reading(v, f, input, k)
  {
  }

  lemma ReadingSum(v: Receiver, f: seq<byte>, c: byte, input: seq<byte>, k: Carry)
    requires Reading(v, f, [c] + input, k) && (v.state == SCSum1 || v.state == SCSum2)
    ensures v.l < |v.buf| == v.msglen + 10
    ensures var v' := v.(state := if v.state == SCSum1 then SCSum2 else SDone, buf := v.buf[v.l := c], l := v.l + 1);
      if v.state == SCSum1 || Verified(v'.buf) then Reading(v', f, input, k) else Scan(f, k) == Scanned(BadCrc, input)
  {
    hide FrameRead, Verified, Scan;
    var arrived := [c] + input;
    assert arrived[1..] == input;
    CrcByte(v.state, f, arrived, v.buf, v.l, v.seqno, v.msglen, k);
    if v.state == SCSum2 {
      FrameEnd(f, arrived, v.buf, v.l, v.seqno, v.msglen, k);
    }
  }

  // ----- one command, seen from outside

  const RSP_OK: nat := 0x80
  const RSP_FAILED: nat := 0xa0
  const MAX_JTAG_COMM_ATTEMPTS: nat := 10

  function NextNumber(c: nat): nat { if c + 1 == 0xffff then 0 else c + 1 }

  // What recv hands back: nothing, a negative result, or the message that matched.
  // NoBuffer is a result to go with no buffer at all, which the program then works on;
  // what comes of that is not modelled.
  datatype Reply = Silence | Damaged | Message(message: seq<byte>) | NoBuffer(matched: bool)

  // A frame for someone else is passed over, and so is one that was cut off.
  predicate PassedOver(c: nat, o: Outcome) {
    || (o.Received? && o.seqno != c)
    || (o.Quiet? && 0 < o.msglen < 0x8000_0000 && o.seqno != c && !(o.seqno == 0xffff && o.buffer.None?))
  }

  // The frames of the input are read in turn until one is not passed over.
  function Last(c: nat, s: seq<byte>, stale: seq<byte>): (x: Scanned)
    ensures !PassedOver(c, x.outcome)
    ensures x.outcome.Received? ==> 1 <= |x.outcome.message|
    ensures x.outcome.Quiet? && x.outcome.buffer.Some? ==> |x.outcome.buffer.value| == x.outcome.msglen <= MAX_MESSAGE
    decreases |s|
  {
    var x := Scan(s, Fresh(stale));
    if PassedOver(c, x.outcome) then Last(c, x.rest, stale) else x
  }

  // The length is returned as an int, which is negative from 2^31 on.
  function Handed(o: Outcome): (r: Reply)
  {
    match o
    case Received(_, message) => Message(message)
    case BadCrc => Damaged
    case Quiet(seqno, msglen, buffer) =>
      if msglen == 0 then Silence
      else if msglen >= 0x8000_0000 then Damaged
      else if buffer.None? then NoBuffer(seqno != 0xffff)
      else Message(buffer.value)
  }

  function Answer(c: nat, s: seq<byte>, stale: seq<byte>): (r: (Reply, seq<byte>))
    ensures r.0.Message? ==> |r.0.message| >= 1
  {
    var x := Last(c, s, stale);
    (Handed(x.outcome), x.rest)
  }

  // Only then does the number move on.
  predicate Matched(r: Reply) { r.Message? || r == NoBuffer(true) }

  // What arrives after a frame, and what a new buffer happens to hold then.
  datatype Arrival = Arrival(bytes: seq<byte>, stale: seq<byte>)

  // The observable state: the number in use, the bytes written, the bytes
  // waiting, and what the emulator will put on the line after each frame.
  datatype Host = Host(number: nat, sent: seq<byte>, input: seq<byte>, stale: seq<byte>, replies: seq<Arrival>)

  function Sent(h: Host, command: seq<byte>): Host
    requires h.number < 0xffff && |command| < 0xffff_fff0
  {
    var out := h.(sent := h.sent + Encode(h.number, command));
    if h.replies == [] then out
    else out.(input := h.input + h.replies[0].bytes, stale := h.replies[0].stale, replies := h.replies[1..])
  }

  // Send once, then read until the matching response or silence.
  function Attempt(h: Host, command: seq<byte>): (r: (Host, Reply))
    requires h.number < 0xffff && |command| < 0xffff_fff0
    ensures r.0.number < 0xffff
  {
    var h1 := Sent(h, command);
    var (reply, rest) := Answer(h1.number, h1.input, h1.stale);
    (h1.(input := rest, number := if Matched(reply) then NextNumber(h1.number) else h1.number), reply)
  }

  function After(h: Host, command: seq<byte>, n: nat): (r: Host)
    requires h.number < 0xffff && |command| < 0xffff_fff0
    ensures r.number < 0xffff
    decreases n
  {
    if n == 0 then h else Attempt(After(h, command, n - 1), command).0
  }

  function ReplyTo(h: Host, command: seq<byte>, k: nat): Reply
    requires h.number < 0xffff && |command| < 0xffff_fff0
  {
    Attempt(After(h, command, k), command).1
  }

  predicate Positive(r: Reply) {
    r.Message? && r.message != [] && RSP_OK <= Value(r.message[0]) < RSP_FAILED
  }

  // A refusal other than the plain failure code is not retried.
  predicate Refusal(r: Reply) {
    r.Message? && r.message != [] && Value(r.message[0]) > RSP_FAILED
  }

  datatype CommandResult = Response(message: seq<byte>) | IoError(code: byte) | Timeout | Fault

  predicate Retried(r: Reply) { !Positive(r) && !Refusal(r) && !r.NoBuffer? }

  // The code of the last message among the first n replies, if any came.
  function GivenUp(h: Host, command: seq<byte>, n: nat): CommandResult
    requires h.number < 0xffff && |command| < 0xffff_fff0
    decreases n
  {
    if n == 0 then Timeout
    else
      var r := ReplyTo(h, command, n - 1);
      if r.Message? && r.message != [] then IoError(r.message[0]) else GivenUp(h, command, n - 1)
  }

  // How a command that took n attempts ended.
  ghost predicate Ended(h: Host, command: seq<byte>, n: nat, r: CommandResult)
    requires h.number < 0xffff && |command| < 0xffff_fff0
  {
    && 1 <= n <= 4
    && (forall k :: 0 <= k < n - 1 ==> Retried(ReplyTo(h, command, k)))
    && var last := ReplyTo(h, command, n - 1);
      if Positive(last) then r == Response(last.message)
      else if Refusal(last) then r == IoError(last.message[0])
      else if last.NoBuffer? then r == Fault
      else n == 4 && r == GivenUp(h, command, 4)
  }

  // The first byte of a reply that has one.
  function Code(r: Reply): Option<byte> {
    if r.Message? && r.message != [] then Some(r.message[0]) else None
  }

  lemma ValueOrder(b: byte)
    ensures 0x80 <= Value(b) < 0xa0 <==> 0x80 <= b <= 0x9f
    ensures Value(b) > 0xa0 <==> b > 0xa0
  {
  }

  // What each reply is taken for, by its code.
  lemma ReplyCodes(r: Reply)
    ensures Positive(r) <==> Code(r).Some? && 0x80 <= Code(r).value <= 0x9f
    ensures Refusal(r) <==> Code(r).Some? && Code(r).value > 0xa0
    ensures Retried(r) <==> !r.NoBuffer? && (Code(r).Some? ==> Code(r).value < 0x80 || Code(r).value == 0xa0)
  {
    if r.Message? && r.message != [] {
      ValueOrder(r.message[0]);
    }
    hide Value;
  }

  // The last of the first n replies that had a code, if any had, was reply k.
  predicate LastCode(h: Host, command: seq<byte>, n: nat, k: nat)
    requires h.number < 0xffff && |command| < 0xffff_fff0
  {
    && k < n && Code(ReplyTo(h, command, k)).Some?
    && forall j :: k < j < n ==> Code(ReplyTo(h, command, j)).None?
  }

  lemma {:induction false} GivenUpIsLastCode(h: Host, command: seq<byte>, n: nat)
    requires h.number < 0xffff && |command| < 0xffff_fff0
    ensures GivenUp(h, command, n) == Timeout <==> forall j :: 0 <= j < n ==> Code(ReplyTo(h, command, j)).None?
    ensures forall k: nat :: LastCode(h, command, n, k) ==>
      GivenUp(h, command, n) == IoError(Code(ReplyTo(h, command, k)).value)
    decreases n
  {
    hide ReplyTo;
    if n > 0 && Code(ReplyTo(h, command, n - 1)).None? {
      GivenUpIsLastCode(h, command, n - 1);
      forall k: nat | LastCode(h, command, n, k)
        ensures LastCode(h, command, n - 1, k)
      {
      }
    }
  }

  // How a command that took n attempts ended, by the codes of its replies.  It is sent
  // again after 0xa0, after a code below 0x80 and after a reply without one.
  ghost predicate EndedByCode(h: Host, command: seq<byte>, n: nat, r: CommandResult)
    requires h.number < 0xffff && |command| < 0xffff_fff0
  {
    && 1 <= n <= 4
    && (forall j :: 0 <= j < n - 1 ==>
          var c := Code(ReplyTo(h, command, j));
          !ReplyTo(h, command, j).NoBuffer? && (c.Some? ==> c.value < 0x80 || c.value == 0xa0))
    && var last := ReplyTo(h, command, n - 1);
      if Code(last).Some? && 0x80 <= Code(last).value <= 0x9f then r == Response(last.message)
      else if Code(last).Some? && Code(last).value > 0xa0 then r == IoError(Code(last).value)
      else if last.NoBuffer? then r == Fault
      else
        && n == 4
        && (r == Timeout <==> forall j :: 0 <= j < 4 ==> Code(ReplyTo(h, command, j)).None?)
        && forall k: nat :: LastCode(h, command, 4, k) ==> r == IoError(Code(ReplyTo(h, command, k)).value)
  }

  // So every command ends.
  lemma EndedIsByCode(h: Host, command: seq<byte>, n: nat, r: CommandResult)
    requires h.number < 0xffff && |command| < 0xffff_fff0 && Ended(h, command, n, r)
    ensures EndedByCode(h, command, n, r)
  {
    hide ReplyTo, Positive, Refusal, Retried;
    forall j: nat
      ensures var x := ReplyTo(h, command, j);
        && (Positive(x) <==> Code(x).Some? && 0x80 <= Code(x).value <= 0x9f)
        && (Refusal(x) <==> Code(x).Some? && Code(x).value > 0xa0)
        && (Retried(x) <==> !x.NoBuffer? && (Code(x).Some? ==> Code(x).value < 0x80 || Code(x).value == 0xa0))
    {
      ReplyCodes(ReplyTo(h, command, j));
    }
    GivenUpIsLastCode(h, command, 4);
  }

  // No frame with the number sent has come back.
  predicate Unanswered(r: Reply) { r.Silence? || r.Damaged? || (r.NoBuffer? && !r.matched) }

  function Repeated(f: seq<byte>, n: nat): seq<byte> { if n == 0 then [] else Repeated(f, n - 1) + f }

  lemma SentAfter<T>(a: seq<T>, b: seq<T>, c: seq<T>)
    ensures a + b + c == a + (b + c)
  {
  }

  // As long as a command is not answered the same frame goes out again under the same
  // number; so a command that is given up keeps its number.
  lemma {:induction false} UnansweredIsRepeated(h: Host, command: seq<byte>, n: nat)
    requires h.number < 0xffff && |command| < 0xffff_fff0
    requires forall j :: 0 <= j < n ==> Unanswered(ReplyTo(h, command, j))
    ensures After(h, command, n).number == h.number
    ensures After(h, command, n).sent == h.sent + Repeated(Encode(h.number, command), n)
    decreases n
  {
    hide Encode, Answer;
    if n > 0 {
      UnansweredIsRepeated(h, command, n - 1);
      assert Unanswered(ReplyTo(h, command, n - 1));
      var f := Encode(h.number, command);
      SentAfter(h.sent, Repeated(f, n - 1), f);
    } else {
      assert h.sent + [] == h.sent;
    }
  }

  // The answer moves the number on by one, past the number of events.
  lemma AnswerMovesNumber(h: Host, command: seq<byte>, n: nat)
    requires h.number < 0xffff && |command| < 0xffff_fff0
    requires forall j :: 0 <= j < n ==> Unanswered(ReplyTo(h, command, j))
    requires !Unanswered(ReplyTo(h, command, n))
    ensures After(h, command, n + 1).number == if h.number == 0xfffe then 0 else h.number + 1
    ensures After(h, command, n + 1).sent == h.sent + Repeated(Encode(h.number, command), n + 1)
  {
    hide Encode, Answer;
    UnansweredIsRepeated(h, command, n);
    var f := Encode(h.number, command);
    SentAfter(h.sent, Repeated(f, n), f);
  }

  // Four replies of 0xa0, and the command has failed with that code.
  lemma FourFailures(h: Host, command: seq<byte>, n: nat, r: CommandResult)
    requires h.number < 0xffff && |command| < 0xffff_fff0 && Ended(h, command, n, r)
    requires forall j :: 0 <= j < 4 ==> Code(ReplyTo(h, command, j)) == Some(0xa0)
    ensures n == 4 && r == IoError(0xa0)
  {
    hide ReplyTo, Ended;
    EndedIsByCode(h, command, n, r);
    assert LastCode(h, command, 4, 3);
  }

  class Jtag2 {
    var commandSequence: nat
    var sent: seq<byte>            // every byte written to the emulator
    var input: seq<byte>           // the bytes that arrive before the line goes quiet
    var stale: seq<byte>           // what a new buffer happens to hold
    var replies: seq<Arrival>      // what arrives after each frame still to be sent

    ghost predicate Valid()
      reads this
    {
      commandSequence < 0xffff
    }

    ghost function View(): Host
      reads this
    {
      Host(commandSequence, sent, input, stale, replies)
    }

    constructor (emulator: seq<Arrival>)
      ensures Valid() && View() == Host(0, [], [], [], emulator)
    {
      commandSequence, sent, input, stale, replies := 0, [], [], [], emulator;
    }

    // The eight bytes before the message.
    method PutHeader(buf: array<byte>, n: nat)
      requires Valid() && buf.Length >= 8 && n < 0x1_0000_0000
      modifies buf
      ensures buf[..8] == Header(commandSequence, n) && buf[8..] == old(buf[8..])
    {
      hide Value, ByteOf, U16Bytes, U32Bytes;
      var size, number := U32Bytes(n), U16Bytes(commandSequence);
      buf[0], buf[1], buf[2] := MESSAGE_START, number[0], number[1];
      buf[3], buf[4], buf[5], buf[6] := size[0], size[1], size[2], size[3];
      buf[7] := TOKEN;
    }

    method NewFrame(command: seq<byte>) returns (buf: array<byte>)
      requires Valid() && |command| < 0xffff_fff0
      ensures fresh(buf) && buf[..] == Encode(commandSequence, command)
    {
      hide Value, ByteOf, Crc, CrcBytes, Verified, Header;
      var n := |command|;
      buf := new byte[n + 10];
      forall i | 0 <= i < n {
        buf[8 + i] := command[i];
      }
      assert buf[8..][..n] == command;
      PutHeader(buf, n);
      ghost var body := Header(commandSequence, n) + command;
      assert buf[..n + 8] == buf[..8] + buf[8..][..n] == body;
      CrcAppend(buf, n + 8);
      assert buf[..] == buf[..n + 8] + buf[n + 8..n + 10] == body + CrcBytes(Crc(body, CRC_INIT));
    }

    method SendFrame(command: seq<byte>)
      requires Valid() && |command| < 0xffff_fff0
      modifies this`sent, this`input, this`stale, this`replies
      ensures View() == Sent(old(View()), command)
    {
      hide Encode;
      var buf := NewFrame(command);
      sent := sent + buf[..];
      if replies != [] {
        input, stale, replies := input + replies[0].bytes, replies[0].stale, replies[1..];
      }
    }

    // Reads up to count bytes, fewer when the line goes quiet.
    method TimeoutRead(buf: array<byte>, at: nat, count: nat) returns (actual: nat)
      requires at + count <= buf.Length
      modifies this`input, buf
      ensures actual == Min(count, |old(input)|) && input == old(input)[actual..]
      ensures buf[..at] == old(buf[..at]) && buf[at..at + actual] == old(input)[..actual]
      ensures buf[at + actual..] == old(buf[at + actual..])
    {
      actual := 0;
      while actual < count && input != []
        invariant 0 <= actual <= count && actual <= |old(input)|
        invariant input == old(input)[actual..]
        invariant buf[..at] == old(buf[..at]) && buf[at..at + actual] == old(input)[..actual]
        invariant forall i :: at + actual <= i < buf.Length ==> buf[i] == old(buf[i])
      {
        buf[at + actual] := input[0];
        input := input[1..];
        actual := actual + 1;
      }
    }

    // The fields between the start byte and the token.
    method HeaderField(state: State, c: byte, seqno: nat, msglen: nat)
      returns (state': State, seqno': nat, msglen': nat)
      requires 1 <= state.Position() <= 6
      ensures state'.Position() == state.Position() + 1
      ensures FieldRead(state, c, seqno, msglen, seqno', msglen')
    {
      state', seqno', msglen' := state, seqno, msglen;
      match state {
        case SSeqNum1 =>
          seqno' := Value(c);
          state' := SSeqNum2;
        case SSeqNum2 =>
          seqno' := seqno % 0x100 + 0x100 * Value(c);
          state' := SSize1;
        case SSize1 =>
          state' := SSize2;
          msglen' := ShiftIn(msglen, c);
        case SSize2 =>
          state' := SSize3;
          msglen' := ShiftIn(msglen, c);
        case SSize3 =>
          state' := SSize4;
          msglen' := ShiftIn(msglen, c);
        case SSize4 =>
          state' := SToken;
          msglen' := ShiftIn(msglen, c);
      }
    }

    // The receiver's cases up to the token.  A rejected byte or header starts over.
    method HeaderByte(state: State, c: byte, header: array<byte>, headeridx: nat, seqno: nat, msglen: nat,
                      ghost f: seq<byte>, ghost rest: seq<byte>, ghost b: seq<byte>, ghost l: nat, ghost k: Carry)
      returns (state': State, headeridx': nat, seqno': nat, msglen': nat, ghost f': seq<byte>, ghost k': Carry)
      requires header.Length == 8 && state.Position() <= 7
      requires Reading(Receiver(state, header[..], headeridx, b, l, seqno, msglen), f, [c] + rest, k)
      modifies header
      ensures Scan(f', k') == Scan(f, k) && k'.stale == k.stale
      ensures state'.Position() <= 8 && (state' != SData ==> headeridx' == state'.Position())
      ensures if state' == SData then HeaderDone(f', rest, header[..], seqno', msglen')
              else Reading(Receiver(state', header[..], headeridx', b, l, seqno', msglen'), f', rest, k')
    {
      hide Scan, Reading, HeaderDone, Value;
      ghost var v := Receiver(state, header[..], headeridx, b, l, seqno, msglen);
      ReadingBounds(v, f, [c] + rest, k);
      header[headeridx] := c;
      assert header[..] == v.header[headeridx := c];
      headeridx', seqno', msglen', f', k' := headeridx + 1, seqno, msglen, f, k;
      if state == SStart && c == MESSAGE_START {
        state' := SSeqNum1;
        ReadingHeader(v, Receiver(state', header[..], headeridx', b, l, seqno, msglen), f, c, rest, k);
      } else if state == SStart {
        ReadingStray(v, f, c, rest, k);
        state', headeridx', f' := SStart, 0, rest;
        ReadingStarts(Receiver(state', header[..], 0, b, l, seqno, msglen), rest, k);
      } else if state == SToken {
        ReadingToken(v, f, c, rest, k);
        state' := SData;
        if !(c == TOKEN && msglen <= MAX_MESSAGE) {
          k' := k.(seqno := seqno, msglen := msglen);
          state', headeridx', f' := SStart, 0, rest;
          ReadingStarts(Receiver(state', header[..], 0, b, l, seqno, msglen), rest, k');
        }
      } else {
        state', seqno', msglen' := HeaderField(state, c, seqno, msglen);
        ReadingHeader(v, Receiver(state', header[..], headeridx', b, l, seqno', msglen'), f, c, rest, k);
      }
    }

    // The two CRC bytes; the second one decides.
    method SumByte(state: State, c: byte, buf: array<byte>, l: nat, msglen: nat, ghost f: seq<byte>,
                   ghost rest: seq<byte>, ghost h: seq<byte>, ghost headeridx: nat, ghost seqno: nat, ghost k: Carry)
      returns (good: bool)
      requires state == SCSum1 || state == SCSum2
      requires Reading(Receiver(state, h, headeridx, buf[..], l, seqno, msglen), f, [c] + rest, k)
      modifies buf
      ensures if good
              then Reading(Receiver(if state == SCSum1 then SCSum2 else SDone, h, headeridx, buf[..], l + 1,
                                    seqno, msglen), f, rest, k)
              else Scan(f, k) == Scanned(BadCrc, rest)
    {
      hide Scan, Reading, Verified, Crc, CrcBytes;
      ghost var v := Receiver(state, h, headeridx, buf[..], l, seqno, msglen);
      ReadingSum(v, f, c, rest, k);
      buf[l] := c;
      assert buf[..] == v.buf[l := c];
      good := true;
      if state == SCSum2 {
        good := CrcVerify(buf, msglen + 10);
        assert buf[..msglen + 10] == buf[..];
      }
    }

    // A buffer for a frame, with the header in it.
    method NewBuffer(header: array<byte>, msglen: nat) returns (buf: array<byte>)
      requires header.Length == 8
      ensures fresh(buf) && buf.Length == msglen + 10 && buf[..8] == header[..]
      ensures buf[8..msglen + 8] == Held([], msglen, stale)
    {
      var cells := stale;
      buf := new byte[msglen + 10](i => StaleAt(cells, i));
      forall i | 0 <= i < 8 {
        buf[i] := header[i];
      }
    }

    // A byte up to the token, and the buffer once the header is accepted.
    method HeaderAndBuffer(state: State, c: byte, header: array<byte>, headeridx: nat, seqno: nat, msglen: nat,
                           buf: array<byte>, ghost f: seq<byte>, ghost l: nat, ghost k: Carry)
      returns (state': State, headeridx': nat, seqno': nat, msglen': nat, buf': array<byte>,
               ghost f': seq<byte>, ghost k': Carry)
      requires header.Length == 8 && header != buf && state.Position() <= 7 && k.stale == stale
      requires Reading(Receiver(state, header[..], headeridx, buf[..], l, seqno, msglen), f, [c] + input, k)
      modifies header
      ensures buf' == buf || fresh(buf')
      ensures Scan(f', k') == Scan(f, k) && k'.stale == stale && state'.Position() <= 8
      ensures Reading(Receiver(state', header[..], headeridx', buf'[..], l, seqno', msglen'), f', input, k')
    {
      hide Scan, Reading, HeaderDone, Held;
      buf' := buf;
      state', headeridx', seqno', msglen', f', k' :=
        HeaderByte(state, c, header, headeridx, seqno, msglen, f, input, buf[..], l, k);
      if state' == SData {
        buf' := NewBuffer(header, msglen');
        ReadingBuffer(Receiver(SData, header[..], headeridx', buf'[..], l, seqno', msglen'), f', input, k');
      }
    }

    // The message, as much of it as comes in one go.
    method ReadData(buf: array<byte>, msglen: nat, ghost f: seq<byte>, ghost h: seq<byte>, ghost headeridx: nat,
                    ghost l: nat, ghost seqno: nat, ghost k: Carry) returns (rv: nat)
      requires Reading(Receiver(SData, h, headeridx, buf[..], l, seqno, msglen), f, input, k)
      requires buf.Length == msglen + 10
      modifies this`input, buf
      ensures |input| <= |old(input)|
      ensures if rv == 0 then Scan(f, k) == Scanned(Quiet(seqno, msglen, Some(buf[8..msglen + 8])), input)
              else Reading(Receiver(SCSum1, h, headeridx, buf[..], msglen + 8, seqno, msglen), f, input, k)
    {
      hide Scan, Reading;
      ghost var v, arrived := Receiver(SData, h, headeridx, buf[..], l, seqno, msglen), input;
      rv := TimeoutRead(buf, 8, msglen);
      if rv == 0 {
        assert buf[..] == v.buf;
        ReadingDataQuiet(v, f, arrived, k);
      } else {
        ReadingData(v, buf[..], f, arrived, k);
      }
    }

    // The loop ended before a frame did: what there is so far is handed back.
    method WentQuiet(state: State, buf: array<byte>, seqno: nat, msglen: nat, ghost v: Receiver,
                     ghost f: seq<byte>, ghost k: Carry) returns (r: Outcome)
      requires v == Receiver(state, v.header, v.headeridx, buf[..], v.l, seqno, msglen)
      requires Reading(v, f, [], k) && state != SDone && state != SData
      ensures Scanned(r, []) == Scan(f, k)
    {
      hide Scan, Reading;
      ReadingQuiet(v, f, k);
      r := Quiet(seqno, msglen, if state.Position() < 8 then None else Some(buf[8..msglen + 8]));
      assert state.Position() >= 8 ==> buf[..][8..msglen + 8] == buf[8..msglen + 8];
    }

    // A frame that was read to its end and verified.
    method WasReceived(buf: array<byte>, seqno: nat, msglen: nat, ghost v: Receiver, ghost f: seq<byte>, ghost k: Carry)
      returns (r: Outcome)
      requires v == Receiver(SDone, v.header, v.headeridx, buf[..], v.l, seqno, msglen) && Reading(v, f, input, k)
      ensures Scanned(r, input) == Scan(f, k)
    {
      hide Scan, Reading;
      ReadingBounds(v, f, input, k);
      r := Received(seqno, buf[8..msglen + 8]);
      assert buf[..][8..msglen + 8] == buf[8..msglen + 8];
    }

    method RecvFrame() returns (r: Outcome)
      modifies this`input
      ensures Scanned(r, input) == Scan(old(input), Fresh(stale))
    {
      hide Scan, Reading, Verified, Held;
      var state := SStart;
      var msglen: nat, l: nat := 0, 0;
      var headeridx: nat := 0;
      var seqno: nat := 0;
      var header := new byte[8];
      var buf := new byte[10];
      ghost var f, k := input, Fresh(stale);
      ReadingStarts(Receiver(state, header[..], headeridx, buf[..], l, seqno, msglen), f, k);
      while state != SDone
        invariant fresh(header) && fresh(buf) && header.Length == 8 && header != buf
        invariant Scan(old(input), Fresh(stale)) == Scan(f, k) && k.stale == stale
        invariant Reading(Receiver(state, header[..], headeridx, buf[..], l, seqno, msglen), f, input, k)
        decreases state != SDone, |input|, state == SData
      {
        ghost var v := Receiver(state, header[..], headeridx, buf[..], l, seqno, msglen);
        ReadingBounds(v, f, input, k);
        if state == SData {
          var rv := ReadData(buf, msglen, f, header[..], headeridx, l, seqno, k);
          if rv == 0 {
            return Quiet(seqno, msglen, Some(buf[8..msglen + 8]));
          }
          l, state := msglen + 8, SCSum1;
          continue;
        }
        if input == [] {
          r := WentQuiet(state, buf, seqno, msglen, v, f, k);
          return;
        }
        ghost var arrived := input;
        var c := input[0];
        input := input[1..];
        assert arrived == [c] + input;
        if state.Position() < 8 {
          state, headeridx, seqno, msglen, buf, f, k :=
            HeaderAndBuffer(state, c, header, headeridx, seqno, msglen, buf, f, l, k);
          continue;
        }
        var good := SumByte(state, c, buf, l, msglen, f, input, header[..], headeridx, seqno, k);
        if !good {
          return BadCrc;
        }
        l, state := l + 1, if state == SCSum1 then SCSum2 else SDone;
      }
      r := WasReceived(buf, seqno, msglen, Receiver(state, header[..], headeridx, buf[..], l, seqno, msglen), f, k);
    }

    // Frames are read until one carries the number in use; that advances it.
    method Recv() returns (reply: Reply)
      requires Valid()
      modifies this`input, this`commandSequence
      ensures Valid()
      ensures (reply, input) == Answer(old(commandSequence), old(input), stale)
      ensures commandSequence ==
              if Matched(reply) then NextNumber(old(commandSequence)) else old(commandSequence)
    {
      hide Scan;
      while true
        invariant commandSequence == old(commandSequence)
        invariant Last(commandSequence, input, stale) == Last(old(commandSequence), old(input), stale)
        decreases |input|
      {
        ghost var arrived := input;
        var frame := RecvFrame();
        assert Scan(arrived, Fresh(stale)) == Scanned(frame, input);
        if frame.BadCrc? {
          return Damaged;
        }
        if frame.Quiet? && frame.msglen == 0 {
          return Silence;
        }
        if frame.Quiet? && frame.msglen >= 0x8000_0000 {
          return Damaged;
        }
        if frame.seqno == commandSequence {
          commandSequence := commandSequence + 1;
          if commandSequence == 0xffff {
            commandSequence := 0;
          }
          if frame.Quiet? && frame.buffer.None? {
            return NoBuffer(true);
          }
          return Message(if frame.Quiet? then frame.buffer.value else frame.message);
        }
        if frame.seqno == 0xffff && frame.Quiet? && frame.buffer.None? {
          return NoBuffer(false);
        }
      }
    }

    // tries counts across calls; the tenth is the last that sends.
    method SendJtagCommand(command: seq<byte>, tries: nat)
      returns (sentIt: bool, ok: bool, tries': nat, reply: Reply)
      requires Valid() && |command| < 0xffff_fff0
      modifies this`sent, this`input, this`stale, this`replies, this`commandSequence
      ensures Valid() && tries' == tries + 1
      ensures sentIt == (tries < 10)
      ensures !sentIt ==> View() == old(View())
      ensures sentIt ==> (View(), reply) == Attempt(old(View()), command) && ok == Positive(reply)
      ensures sentIt ==> (ok <==> Code(reply).Some? && 0x80 <= Code(reply).value <= 0x9f)
    {
      sentIt, ok, tries', reply := true, false, tries + 1, Silence;
      if tries >= MAX_JTAG_COMM_ATTEMPTS {
        sentIt := false;
        return;
      }
      SendFrame(command);
      reply := Recv();
      ok := reply.Message? && reply.message != [] && RSP_OK <= Value(reply.message[0]) < RSP_FAILED;
      ReplyCodes(reply);
    }

    // The loop and SendJtagCommand count in the same variable, so a command is
    // sent at most four times, and the endpoint reset is never reached.
    method DoJtagCommand(command: seq<byte>) returns (r: CommandResult, ghost n: nat)
      requires Valid() && |command| < 0xffff_fff0
      modifies this
      ensures Valid()
      ensures View() == After(old(View()), command, n) && Ended(old(View()), command, n, r)
    {
      hide Answer, Sent, Attempt, Value, Scan, Encode;
      var tryCount := 0;
      var seen := Timeout;
      n := 0;
      while tryCount < 8
        invariant Valid() && tryCount == 2 * n <= 8
        invariant View() == After(old(View()), command, n)
        invariant forall k :: 0 <= k < n ==> Retried(ReplyTo(old(View()), command, k))
        invariant seen == GivenUp(old(View()), command, n)
        decreases 8 - tryCount
      {
        var sentIt, ok, tries', reply := SendJtagCommand(command, tryCount);
        tryCount := tries';
        n := n + 1;
        assert reply == ReplyTo(old(View()), command, n - 1);
        if ok {
          return Response(reply.message), n;
        }
        if reply.Message? && reply.message != [] {
          if Value(reply.message[0]) > RSP_FAILED {
            return IoError(reply.message[0]), n;
          }
          seen := IoError(reply.message[0]);
        }
        if reply.NoBuffer? {
          return Fault, n;
        }
        if tryCount == 4 && !reply.Message? {
          assert false;  // the branch that resets the USB endpoints
        }
        tryCount := tryCount + 1;
      }
      r := seen;
    }
  }

  // ----- what a command may rely on

  // What is passed over before a frame: bytes the receiver skips, and frames that carry
  // another number, read to their end.
  predicate Passed(c: nat, s: seq<byte>)
    decreases |s|
  {
    || s == []
    || (s[0] != MESSAGE_START && Passed(c, s[1..]))
    || (|s| >= 8 && s[0] == MESSAGE_START && !HeaderAccepted(s) && Passed(c, s[8..]))
    || (|s| >= 8 && OtherFrame(c, s) && Passed(c, s[SizeOf(s) + 10..]))
  }

  // The first frame is complete and carries another number.
  predicate OtherFrame(c: nat, s: seq<byte>)
    requires |s| >= 8
  {
    && HeaderAccepted(s) && 0 < SizeOf(s) && SizeOf(s) + 10 <= |s|
    && Verified(s[..SizeOf(s) + 10]) && SeqNoOf(s) != c
  }

  // Reading on from the middle of a call.
  function From(c: nat, s: seq<byte>, k: Carry): Scanned {
    var x := Scan(s, k);
    if PassedOver(c, x.outcome) then Last(c, x.rest, k.stale) else x
  }

  lemma LastIsFrom(c: nat, s: seq<byte>, stale: seq<byte>)
    ensures Last(c, s, stale) == From(c, s, Fresh(stale))
  {
  }

  lemma FromSkips(c: nat, s: seq<byte>, k: Carry)
    requires s != []
    ensures s[0] != MESSAGE_START ==> From(c, s, k) == From(c, s[1..], k)
    ensures |s| >= 8 && s[0] == MESSAGE_START && !HeaderAccepted(s) ==>
              From(c, s, k) == From(c, s[8..], Rejected(s, k))
  {
    hide Last, Verified, Held, PartSize, PartSeqNo, ToU16, ToU32;
  }

  lemma FromOther(c: nat, s: seq<byte>, k: Carry)
    requires |s| >= 8 && OtherFrame(c, s)
    ensures From(c, s, k) == From(c, s[SizeOf(s) + 10..], Fresh(k.stale))
  {
    hide Last, Verified, Held, PartSize, PartSeqNo, ToU16, ToU32;
    LastIsFrom(c, s[SizeOf(s) + 10..], k.stale);
  }

  lemma FromHere(c: nat, f: seq<byte>, k: Carry)
    requires |f| >= 8 && HeaderAccepted(f)
    ensures From(c, f, k) == From(c, f, Fresh(k.stale))
  {
    hide Last, Verified, Held, PartSize, PartSeqNo, ToU16, ToU32;
  }

  lemma SameFrame(c: nat, s: seq<byte>, t: seq<byte>)
    requires |s| >= 8 && OtherFrame(c, s)
    ensures OtherFrame(c, s + t) && SizeOf(s + t) == SizeOf(s)
  {
    SameHeader(s, t);
    hide ToU16, ToU32, Verified;
    assert (s + t)[..SizeOf(s) + 10] == s[..SizeOf(s) + 10];
  }

  // The first thing passed over, and its length.
  lemma PassedStep(c: nat, s: seq<byte>) returns (n: nat)
    requires s != [] && Passed(c, s)
    ensures 1 <= n <= |s| && Passed(c, s[n..])
    ensures if s[0] != MESSAGE_START then n == 1
            else |s| >= 8 && if !HeaderAccepted(s) then n == 8 else OtherFrame(c, s) && n == SizeOf(s) + 10
  {
    hide ToU16, ToU32, Verified;
    n := if s[0] != MESSAGE_START then 1 else if !HeaderAccepted(s) then 8 else SizeOf(s) + 10;
  }

  // What they leave behind: a rejected header its number and length, a frame nothing.
  function Left(c: nat, s: seq<byte>, k: Carry): (k': Carry)
    requires Passed(c, s)
    ensures k'.stale == k.stale
    decreases |s|
  {
    if s == [] then k
    else if s[0] != MESSAGE_START then Left(c, s[1..], k)
    else if !HeaderAccepted(s) then Left(c, s[8..], Rejected(s, k))
    else Left(c, s[SizeOf(s) + 10..], Fresh(k.stale))
  }

  lemma LeftStep(c: nat, s: seq<byte>, k: Carry)
    requires Passed(c, s) && s != []
    ensures s[0] != MESSAGE_START ==> Passed(c, s[1..]) && Left(c, s, k) == Left(c, s[1..], k)
    ensures |s| >= 8 && s[0] == MESSAGE_START && !HeaderAccepted(s) ==>
              Passed(c, s[8..]) && Left(c, s, k) == Left(c, s[8..], Rejected(s, k))
    ensures |s| >= 8 && OtherFrame(c, s) ==>
              Passed(c, s[SizeOf(s) + 10..]) && Left(c, s, k) == Left(c, s[SizeOf(s) + 10..], Fresh(k.stale))
  {
    hide ToU16, ToU32, Verified;
  }

  // Reading goes on after them from there.
  lemma {:induction false} PassedIsPassedOver(c: nat, s: seq<byte>, f: seq<byte>, k: Carry)
    requires Passed(c, s)
    ensures From(c, s + f, k) == From(c, f, Left(c, s, k))
    decreases |s|
  {
    hide From, HeaderAccepted, OtherFrame, SeqNoOf, SizeOf, Passed, Left;
    if s == [] {
      NothingLeft(c, k);
      assert s + f == f;
    } else {
      var n := PassedStep(c, s);
      LeftStep(c, s, k);
      assert (s + f)[n..] == s[n..] + f;
      if s[0] != MESSAGE_START {
        FromSkips(c, s + f, k);
        PassedIsPassedOver(c, s[n..], f, k);
      } else if !HeaderAccepted(s) {
        SameHeader(s, f);
        FromSkips(c, s + f, k);
        PassedIsPassedOver(c, s[n..], f, Rejected(s, k));
      } else {
        SameFrame(c, s, f);
        FromOther(c, s + f, k);
        PassedIsPassedOver(c, s[n..], f, Fresh(k.stale));
      }
    }
  }

  lemma NothingLeft(c: nat, k: Carry)
    ensures Passed(c, []) && Left(c, [], k) == k
  {
  }

  lemma LastAfter(c: nat, before: seq<byte>, f: seq<byte>, stale: seq<byte>)
    requires Passed(c, before)
    ensures Last(c, before + f, stale) == From(c, f, Left(c, before, Fresh(stale)))
  {
    LastIsFrom(c, before + f, stale);
    PassedIsPassedOver(c, before, f, Fresh(stale));
  }

  // A frame whose header is accepted is found after them whatever they left.
  lemma FrameAfter(c: nat, before: seq<byte>, f: seq<byte>, stale: seq<byte>)
    requires Passed(c, before) && |f| >= 8 && HeaderAccepted(f)
    ensures Last(c, before + f, stale) == Last(c, f, stale)
  {
    hide HeaderAccepted, From, Last, Left;
    LastAfter(c, before, f, stale);
    FromHere(c, f, Left(c, before, Fresh(stale)));
    LastIsFrom(c, f, stale);
  }

  // An intact frame with the awaited number is taken, whatever was passed over before.
  lemma IntactIsTaken(c: nat, before: seq<byte>, m: seq<byte>, rest: seq<byte>, stale: seq<byte>)
    requires c < 0x1_0000 && Passed(c, before) && 1 <= |m| <= MAX_MESSAGE
    ensures Answer(c, before + (Encode(c, m) + rest), stale) == (Message(m), rest)
  {
    hide Encode, Scan, ToU16, ToU32;
    var f := Encode(c, m) + rest;
    EncodedHeader(c, m, rest);
    FrameAfter(c, before, f, stale);
    DecodeEncode([], c, m, rest, Fresh(stale));
    assert [] + Encode(c, m) + rest == f;
  }

  // And so is one that is cut off after its header: its announced length is handed out,
  // with what came of the message and what the buffer happened to hold.
  lemma CutOffIsTaken(c: nat, before: seq<byte>, f: seq<byte>, stale: seq<byte>)
    requires Passed(c, before) && CutOff(f)
    ensures Last(c, before + f, stale) == Last(c, f, stale)
    ensures SeqNoOf(f) == c ==>
              Answer(c, before + f, stale) == (Message(Held(f[8..], SizeOf(f), stale)), [])
    ensures SeqNoOf(f) != c ==> Answer(c, before + f, stale) == (Silence, [])
  {
    hide Scan, HeaderAccepted, SizeOf, SeqNoOf, Held;
    FrameAfter(c, before, f, stale);
    CutOffIsHandedBack([], f, Fresh(stale));
    assert [] + f == f;
    LastIsFrom(c, f, stale);
    NothingOnLine(c, stale);
  }

  lemma NothingOnLine(c: nat, stale: seq<byte>)
    ensures Last(c, [], stale) == Scanned(Quiet(0, 0, None), []) && Answer(c, [], stale) == (Silence, [])
  {
  }

  // What is left once all that is passed over is taken away: nothing, a header that
  // does not end, or a frame that is not passed over as a whole.
  predicate Stops(c: nat, f: seq<byte>) {
    Unfinished(f) || (|f| >= 8 && HeaderAccepted(f) && !OtherFrame(c, f))
  }

  predicate Unfinished(h: seq<byte>) { |h| < 8 && (h == [] || h[0] == MESSAGE_START) }

  lemma {:induction false} Split(c: nat, s: seq<byte>) returns (before: seq<byte>, f: seq<byte>)
    ensures Passed(c, before) && s == before + f && Stops(c, f)
    decreases |s|
  {
    hide ToU16, ToU32, Verified;
    if Stops(c, s) {
      before, f := [], s;
    } else {
      var n := if s[0] != MESSAGE_START then 1 else if !HeaderAccepted(s) then 8 else SizeOf(s) + 10;
      before, f := Split(c, s[n..]);
      before := Stepped(c, s, n, before, f);
    }
  }

  lemma Stepped(c: nat, s: seq<byte>, n: nat, tail: seq<byte>, f: seq<byte>) returns (before: seq<byte>)
    requires s != [] && n <= |s| && Passed(c, tail) && s[n..] == tail + f
    requires if s[0] != MESSAGE_START then n == 1
             else |s| >= 8 && if !HeaderAccepted(s) then n == 8 else OtherFrame(c, s) && n == SizeOf(s) + 10
    ensures Passed(c, before) && s == before + f
  {
    hide ToU16, ToU32, Verified;
    before := s[..n] + tail;
    assert before[n..] == tail && before[..n] == s[..n];
    SplitAt(s, n);
    Prepended(s[..n], [], tail, f);
    assert [] + tail == tail && s[..n] + [] == s[..n];
    if |s| >= 8 && s[0] == MESSAGE_START {
      SameHeader(s[..8], s[8..]);
      SameHeader(s[..8], before[8..]);
      assert s[..8] + s[8..] == s && s[..8] + before[8..] == before;
    }
  }

  // The input holds the whole frame that carries m, after what is passed over.
  ghost predicate HasFrame(c: nat, s: seq<byte>, m: seq<byte>, rest: seq<byte>) {
    && c < 0x1_0000 && 1 <= |m| <= MAX_MESSAGE
    && exists before :: Passed(c, before) && s == before + (Encode(c, m) + rest)
  }

  // The line goes quiet inside a frame, before its CRC is read.
  ghost predicate EndsCutOff(c: nat, s: seq<byte>) {
    exists before, f :: Passed(c, before) && CutOff(f) && s == before + f
  }

  // What is handed out is the content of a whole frame with the awaited number exactly
  // when the line did not go quiet before that frame's CRC was read.
  lemma HandedOutIsEncoded(c: nat, s: seq<byte>, stale: seq<byte>)
    requires c < 0xffff && Answer(c, s, stale).0.Message?
    ensures HasFrame(c, s, Answer(c, s, stale).0.message, Answer(c, s, stale).1) <==> !EndsCutOff(c, s)
  {
    hide Last, Scan, From, Left, Stops, Encode, HeaderAccepted, SizeOf, SeqNoOf, Held, Passed;
    var x := Last(c, s, stale);
    var (Message(m), rest) := Answer(c, s, stale);
    var before, f := Split(c, s);
    LastAfter(c, before, f, stale);
    StopsWithMessage(c, f, Left(c, before, Fresh(stale)));
    if x.outcome.Received? {
      WholeFrame(c, f, stale);
      assert HasFrame(c, s, m, rest);
      if EndsCutOff(c, s) {
        var b, g :| Passed(c, b) && CutOff(g) && s == b + g;
        CutOffEndsQuiet(c, b, g, stale);
        assert false;
      }
    } else {
      QuietFrame(c, f, stale);
      assert EndsCutOff(c, s);
      if HasFrame(c, s, m, rest) {
        var b :| Passed(c, b) && s == b + (Encode(c, m) + rest);
        IntactIsReceived(c, b, m, rest, stale);
        assert false;
      }
    }
  }

  // Only an accepted header ends in a message.
  lemma StopsWithMessage(c: nat, f: seq<byte>, k: Carry)
    requires Stops(c, f) && Handed(From(c, f, k).outcome).Message?
    ensures |f| >= 8 && HeaderAccepted(f) && From(c, f, k) == Scan(f, Fresh(k.stale))
  {
    hide ToU16, ToU32, Verified, Held, PartSize, PartSeqNo, Last;
    NothingOnLine(c, k.stale);
  }

  lemma WholeFrame(c: nat, f: seq<byte>, stale: seq<byte>)
    requires |f| >= 8 && HeaderAccepted(f) && Scan(f, Fresh(stale)).outcome.Received?
    ensures var Scanned(Received(seqno, m), rest) := Scan(f, Fresh(stale));
      seqno < 0x1_0000 && 1 <= |m| <= MAX_MESSAGE && f == Encode(seqno, m) + rest
  {
    hide Scan, Encode, HeaderAccepted;
    FirstFrame(f, Fresh(stale));
    var x := Scan(f, Fresh(stale));
    assert [] + Encode(x.outcome.seqno, x.outcome.message) == Encode(x.outcome.seqno, x.outcome.message);
  }

  lemma QuietFrame(c: nat, f: seq<byte>, stale: seq<byte>)
    requires |f| >= 8 && HeaderAccepted(f)
    requires Scan(f, Fresh(stale)).outcome.Quiet? && Scan(f, Fresh(stale)).outcome.msglen > 0
    ensures CutOff(f)
  {
    hide ToU16, ToU32;
  }

  lemma CutOffEndsQuiet(c: nat, before: seq<byte>, f: seq<byte>, stale: seq<byte>)
    requires Passed(c, before) && CutOff(f)
    ensures Last(c, before + f, stale).outcome.Quiet?
  {
    hide Scan, HeaderAccepted, SizeOf, SeqNoOf, Held, Passed;
    CutOffIsTaken(c, before, f, stale);
    CutOffIsHandedBack([], f, Fresh(stale));
    assert [] + f == f;
    LastIsFrom(c, f, stale);
    NothingOnLine(c, stale);
  }

  lemma IntactIsReceived(c: nat, before: seq<byte>, m: seq<byte>, rest: seq<byte>, stale: seq<byte>)
    requires c < 0x1_0000 && Passed(c, before) && 1 <= |m| <= MAX_MESSAGE
    ensures Last(c, before + (Encode(c, m) + rest), stale).outcome.Received?
  {
    hide Encode, Scan, ToU16, ToU32;
    var f := Encode(c, m) + rest;
    EncodedHeader(c, m, rest);
    FrameAfter(c, before, f, stale);
    DecodeEncode([], c, m, rest, Fresh(stale));
    assert [] + Encode(c, m) + rest == f;
  }

  // One data byte after a header, then silence: the command succeeds though no CRC came.
  lemma CutOffReplySucceeds(stale: seq<byte>)
    ensures var s := [0x1b, 0, 0, 1, 0, 0, 0, 0x0e, 0x80];
      && Answer(0, s, stale) == (Message([0x80]), []) && Positive(Message([0x80]))
      && EndsCutOff(0, s)
  {
    var s: seq<byte> := [0x1b, 0, 0, 1, 0, 0, 0, 0x0e, 0x80];
    ValueOfByte(0);
    ValueOfByte(1);
    ValueOfByte(0x80);
    assert SeqNoOf(s) == 0 && SizeOf(s) == 1;
    assert CutOff(s) && Passed(0, []) && [] + s == s;
    CutOffIsTaken(0, [], s, stale);
    assert Held(s[8..], 1, stale) == [0x80];
  }

  // What recv answers on input that stops the reading, without reading on.
  function Verdict(c: nat, f: seq<byte>, k: Carry): (Reply, seq<byte>)
    requires Stops(c, f)
  {
    if Unfinished(f) then
      var n, q := PartSize(f, k), PartSeqNo(f, k);
      (if n >= 0x8000_0000 then Damaged else if n == 0 || q !in {c, 0xffff} then Silence else NoBuffer(q != 0xffff), [])
    else
      var n := SizeOf(f);
      if n == 0 then (Silence, f[8..])
      else if |f| < n + 10 then (if SeqNoOf(f) == c then Message(Held(f[8..], n, k.stale)) else Silence, [])
      else (if Verified(f[..n + 10]) then Message(f[8..n + 8]) else Damaged, f[n + 10..])
  }

  // Every input splits into what is passed over and what stops the reading, and the
  // answer is the verdict on the latter.
  lemma AnswerIsVerdict(c: nat, s: seq<byte>, stale: seq<byte>) returns (before: seq<byte>, f: seq<byte>)
    ensures Passed(c, before) && s == before + f && Stops(c, f)
    ensures Answer(c, s, stale) == Verdict(c, f, Left(c, before, Fresh(stale)))
  {
    before, f := Split(c, s);
    VerdictAfter(c, before, f, stale);
  }

  lemma VerdictAfter(c: nat, before: seq<byte>, f: seq<byte>, stale: seq<byte>)
    requires Passed(c, before) && Stops(c, f)
    ensures Answer(c, before + f, stale) == Verdict(c, f, Left(c, before, Fresh(stale)))
  {
    hide Stops, From, Last, Left, Passed, Verdict;
    LastAfter(c, before, f, stale);
    StopsReading(c, f, Left(c, before, Fresh(stale)));
  }

  lemma StopsReading(c: nat, f: seq<byte>, k: Carry)
    requires Stops(c, f)
    ensures (Handed(From(c, f, k).outcome), From(c, f, k).rest) == Verdict(c, f, k)
  {
    hide ToU16, ToU32, Verified, Held, PartSize, PartSeqNo, Last;
    NothingOnLine(c, k.stale);
    if Unfinished(f) {
      UnfinishedIsQuiet(f, k);
    }
  }

  lemma UnfinishedIsQuiet(h: seq<byte>, k: Carry)
    requires Unfinished(h)
    ensures Scan(h, k) == Scanned(Quiet(PartSeqNo(h, k), PartSize(h, k), None), [])
  {
  }

  // The line goes quiet inside a header, or after one that was rejected, with a length
  // that is not zero and not negative, and with the awaited number or that of events.
  ghost predicate EndsInHeader(c: nat, s: seq<byte>, stale: seq<byte>) {
    exists before, h :: InHeader(c, s, stale, before, h)
  }

  predicate InHeader(c: nat, s: seq<byte>, stale: seq<byte>, before: seq<byte>, h: seq<byte>) {
    && Passed(c, before) && s == before + h && Unfinished(h)
    && var k := Left(c, before, Fresh(stale));
      0 < PartSize(h, k) < 0x8000_0000 && PartSeqNo(h, k) in {c, 0xffff}
  }

  // Exactly then a result is handed out without a buffer.
  lemma NoBufferExactlyInHeader(c: nat, s: seq<byte>, stale: seq<byte>)
    ensures Answer(c, s, stale).0.NoBuffer? <==> EndsInHeader(c, s, stale)
  {
    hide Answer, Passed, Left, Stops, PartSize, PartSeqNo, Unfinished, SizeOf, SeqNoOf, Held, Verified;
    if Answer(c, s, stale).0.NoBuffer? {
      var before, h := AnswerIsVerdict(c, s, stale);
      assert InHeader(c, s, stale, before, h);
    }
    if EndsInHeader(c, s, stale) {
      var before, h :| InHeader(c, s, stale, before, h);
      HeaderEndsReading(c, s, stale, before, h);
    }
  }

  // The number advances when it is the awaited one, and else it was taken for an event.
  lemma HeaderEndsReading(c: nat, s: seq<byte>, stale: seq<byte>, before: seq<byte>, h: seq<byte>)
    requires InHeader(c, s, stale, before, h)
    ensures Answer(c, s, stale) == (NoBuffer(PartSeqNo(h, Left(c, before, Fresh(stale))) != 0xffff), [])
  {
    hide Answer, Left, Passed, PartSize, PartSeqNo, Unfinished;
    VerdictAfter(c, before, h, stale);
  }

  // The first four bytes of a header are enough: the number awaited and one size byte.
  lemma FourBytesCount(stale: seq<byte>)
    ensures var s := [0x1b, 0, 0, 1];
      Answer(0, s, stale) == (NoBuffer(true), []) && PartSize(s, Fresh(stale)) == 0x100_0000
  {
    var s: seq<byte> := [0x1b, 0, 0, 1];
    ValueOfByte(0);
    ValueOfByte(1);
    NothingLeft(0, Fresh(stale));
    assert [] + s == s && InHeader(0, s, stale, [], s);
    HeaderEndsReading(0, s, stale, [], s);
  }

  // And so is a complete header that is rejected.
  lemma RejectedThenQuiet(c: nat, h: seq<byte>, stale: seq<byte>)
    requires |h| == 8 && h[0] == MESSAGE_START && !HeaderAccepted(h)
    requires 0 < SizeOf(h) < 0x8000_0000 && SeqNoOf(h) == c
    ensures Answer(c, h, stale) == (NoBuffer(c != 0xffff), [])
  {
    hide HeaderAccepted, SeqNoOf, SizeOf;
    assert h[8..] == [] && h + [] == h;
    NothingLeft(c, Rejected(h, Fresh(stale)));
    LeftStep(c, h, Fresh(stale));
    HeaderEndsReading(c, h, stale, h, []);
  }

  // A numbered message on the line, and what the receiver skips before it.
  datatype Item = Item(noise: seq<byte>, number: nat, message: seq<byte>)

  predicate Sendable(items: seq<Item>) {
    forall i :: 0 <= i < |items| ==>
      Skipped(items[i].noise) && items[i].number < 0x1_0000 && 1 <= |items[i].message| <= MAX_MESSAGE
  }

  // The bytes of a line that carries these, and then others.
  function OnLine(items: seq<Item>, tail: seq<byte>): seq<byte>
    requires Sendable(items)
  {
    if items == [] then tail
    else items[0].noise + (Encode(items[0].number, items[0].message) + OnLine(items[1..], tail))
  }

  // Receiving one intact frame: taken if it matches, skipped if not.
  lemma OneFrame(c: nat, junk: seq<byte>, q: nat, m: seq<byte>, rest: seq<byte>, stale: seq<byte>)
    requires Skipped(junk) && q < 0x1_0000 && 1 <= |m| <= MAX_MESSAGE
    ensures Answer(c, junk + (Encode(q, m) + rest), stale) ==
            if q == c then (Message(m), rest) else Answer(c, rest, stale)
  {
    hide Encode, Scan;
    DecodeEncode(junk, q, m, rest, Fresh(stale));
    assert junk + Encode(q, m) + rest == junk + (Encode(q, m) + rest);
  }

  // Receiving takes the first intact frame with the awaited number and discards those
  // before it: late duplicates and events.  If there is none it goes on with the tail.
  lemma {:induction false} FirstMatchIsTaken(c: nat, items: seq<Item>, tail: seq<byte>, k: nat, stale: seq<byte>)
    requires Sendable(items) && k <= |items| && forall i :: 0 <= i < k ==> items[i].number != c
    requires k < |items| ==> items[k].number == c
    ensures k < |items| ==> Sendable(items[k + 1..])
    ensures Answer(c, OnLine(items, tail), stale) ==
      if k < |items| then (Message(items[k].message), OnLine(items[k + 1..], tail)) else Answer(c, tail, stale)
    decreases k
  {
    hide Encode, Scan, Answer, Skipped;
    if items != [] {
      OneFrame(c, items[0].noise, items[0].number, items[0].message, OnLine(items[1..], tail), stale);
      if k > 0 {
        FirstMatchIsTaken(c, items[1..], tail, k - 1, stale);
        assert k < |items| ==> items[1..][k..] == items[k + 1..];
      }
    }
  }
}
