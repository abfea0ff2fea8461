// The mkII frame (src/jtag.h, src/jtag2io.cc): its encoding, and the receiver
// that finds frames in a byte stream and resynchronises on bad headers.

module Frame {
  import opened Common
  import opened Crc16

  const MESSAGE_START: byte := 0x1b
  const TOKEN: byte := 0x0e
  const MAX_MESSAGE: nat := 100000

  // The number a byte stands for, and the byte for a number.
  function Value(b: byte): (n: nat)
    ensures n < 256
  {
    b as nat
  }

  function ByteOf(n: nat): byte
    requires n < 256
  {
    n as byte
  }

  lemma NextByte(b: byte)
    requires b != 255
    ensures (b + 1) as nat == b as nat + 1
  {
  }

  lemma {:induction false} NumberFitsByte(n: nat)
    requires n < 256
    ensures (n as byte) as nat == n
  {
    if n > 0 {
      NumberFitsByte(n - 1);
      NextByte((n - 1) as byte);
    }
  }

  lemma ValueOfByte(n: nat)
    requires n < 256
    ensures Value(ByteOf(n)) == n
  {
    NumberFitsByte(n);
  }

  lemma ByteOfValue(b: byte)
    ensures ByteOf(Value(b)) == b
  {
  }

  // Numbers are sent least significant byte first.
  function U16Bytes(n: nat): (b: seq<byte>)
    requires n < 0x1_0000
    ensures |b| == 2
  {
    [ByteOf(n % 256), ByteOf(n / 256)]
  }

  function U32Bytes(n: nat): (b: seq<byte>)
    requires n < 0x1_0000_0000
    ensures |b| == 4
  {
    U16Bytes(n % 0x1_0000) + U16Bytes(n / 0x1_0000)
  }

  function ToU16(b0: byte, b1: byte): (n: nat)
    ensures n < 0x1_0000
  {
    Value(b0) + 256 * Value(b1)
  }

  function ToU32(b0: byte, b1: byte, b2: byte, b3: byte): (n: nat)
    ensures n < 0x1_0000_0000
  {
    ToU16(b0, b1) + 0x1_0000 * ToU16(b2, b3)
  }

  lemma U16RoundTrip(n: nat)
    requires n < 0x1_0000
    ensures ToU16(U16Bytes(n)[0], U16Bytes(n)[1]) == n
  {
    hide Value, ByteOf;
    ValueOfByte(n % 256);
    ValueOfByte(n / 256);
  }

  lemma U32RoundTrip(n: nat)
    requires n < 0x1_0000_0000
    ensures var b := U32Bytes(n); ToU32(b[0], b[1], b[2], b[3]) == n
  {
    hide ToU16, U16Bytes;
    U16RoundTrip(n % 0x1_0000);
    U16RoundTrip(n / 0x1_0000);
  }

  lemma Halves(low: nat, high: nat)
    ensures low < 0x100 ==> (low + 0x100 * high) % 0x100 == low && (low + 0x100 * high) / 0x100 == high
    ensures low < 0x1_0000 ==> (low + 0x1_0000 * high) % 0x1_0000 == low && (low + 0x1_0000 * high) / 0x1_0000 == high
  {
  }

  lemma U16BytesOf(b0: byte, b1: byte)
    ensures U16Bytes(ToU16(b0, b1)) == [b0, b1]
  {
    hide Value, ByteOf;
    ByteOfValue(b0);
    ByteOfValue(b1);
    Halves(Value(b0), Value(b1));
  }

  lemma U32BytesOf(b0: byte, b1: byte, b2: byte, b3: byte)
    ensures U32Bytes(ToU32(b0, b1, b2, b3)) == [b0, b1, b2, b3]
  {
    hide ToU16, U16Bytes;
    Halves(ToU16(b0, b1), ToU16(b2, b3));
    U16BytesOf(b0, b1);
    U16BytesOf(b2, b3);
  }

  // The eight bytes before the message.
  function Header(seqno: nat, size: nat): (h: seq<byte>)
    requires seqno < 0x1_0000 && size < 0x1_0000_0000
    ensures |h| == 8
  {
    [MESSAGE_START] + U16Bytes(seqno) + U32Bytes(size) + [TOKEN]
  }

  // The frame that carries a message.
  function Encode(seqno: nat, message: seq<byte>): (f: seq<byte>)
    requires seqno < 0x1_0000 && |message| < 0x1_0000_0000
    ensures |f| == |message| + 10
  {
    var body := Header(seqno, |message|) + message;
    body + CrcBytes(Crc(body, CRC_INIT))
  }

  lemma KnownBody()
    ensures Crc([0x1b, 0, 0] + ([1, 0, 0] + ([0, 0x0e, 0x01] + [])), 0xffff) == 0x97f3
  {
    FeedIs(0xffff, 0x1b, 0xa1d5);
    FeedIs(0xa1d5, 0x00, 0x8181);
    FeedIs(0x8181, 0x00, 0x9500);
    FeedIs(0x9500, 0x01, 0x111c);
    FeedIs(0x111c, 0x00, 0xdafc);
    FeedIs(0xdafc, 0x00, 0x3d39);
    FeedIs(0x3d39, 0x00, 0xac7f);
    FeedIs(0xac7f, 0x0e, 0x62a2);
    FeedIs(0x62a2, 0x01, 0x97f3);
    hide Feed, Folded, Absorb, Crc;
    CrcTakesThree(0x1b, 0, 0, [1, 0, 0] + ([0, 0x0e, 0x01] + []), 0xffff);
    CrcTakesThree(1, 0, 0, [0, 0x0e, 0x01] + [], 0x9500);
    CrcTakesThree(0, 0x0e, 0x01, [], 0x3d39);
    CrcOfNothing(0x97f3);
  }

  lemma NineInThrees<T>(a: T, b: T, c: T, d: T, e: T, f: T, g: T, h: T, i: T)
    ensures [a, b, c] + ([d, e, f] + ([g, h, i] + [])) == [a, b, c, d, e, f, g, h] + [i]
  {
  }

  lemma Eleven<T>(a: T, b: T, c: T, d: T, e: T, f: T, g: T, h: T, i: T, j: T, k: T)
    ensures [a, b, c, d, e, f, g, h] + [i] + [j, k] == [a, b, c, d, e, f, g, h, i, j, k]
  {
  }

  lemma KnownHeader()
    ensures Header(0, 1) == [0x1b, 0, 0, 1, 0, 0, 0, 0x0e]
  {
    ValueOfByte(0);
    ValueOfByte(1);
    assert ByteOf(0) == 0 && ByteOf(1) == 1;
  }

  // The frame of the command byte 1 under number 0, in full.
  lemma KnownFrame()
    ensures Encode(0, [0x01]) == [0x1b, 0, 0, 1, 0, 0, 0, 0x0e, 0x01, 0xf3, 0x97]
  {
    assert CrcBytes(0x97f3) == [0xf3, 0x97];
    KnownBody();
    KnownHeader();
    hide Crc, Header, CrcBytes;
    NineInThrees<byte>(0x1b, 0, 0, 1, 0, 0, 0, 0x0e, 0x01);
    Eleven<byte>(0x1b, 0, 0, 1, 0, 0, 0, 0x0e, 0x01, 0xf3, 0x97);
  }

  function SeqNoOf(f: seq<byte>): (n: nat)
    requires |f| >= 8
    ensures n < 0x1_0000
  {
    ToU16(f[1], f[2])
  }

  function SizeOf(f: seq<byte>): (n: nat)
    requires |f| >= 8
    ensures n < 0x1_0000_0000
  {
    ToU32(f[3], f[4], f[5], f[6])
  }

  // A header the receiver goes on with once it has all eight bytes.
  predicate HeaderAccepted(f: seq<byte>)
    requires |f| >= 8
  {
    f[0] == MESSAGE_START && f[7] == TOKEN && SizeOf(f) <= MAX_MESSAGE
  }

  // A size byte enters a 32-bit number from the top and pushes the others down.
  function ShiftIn(msglen: nat, c: byte): nat { msglen / 0x100 + 0x100_0000 * Value(c) }

  // What reading starts from: the number and the length that earlier headers of the
  // same call left behind, and what a new buffer happens to hold.
  datatype Carry = Carry(seqno: nat, msglen: nat, stale: seq<byte>)

  function Fresh(stale: seq<byte>): Carry { Carry(0, 0, stale) }

  function StaleAt(stale: seq<byte>, i: nat): byte { if i < |stale| then stale[i] else 0 }

  // The number and the length as far as the first bytes of a header spell them.
  function PartSeqNo(h: seq<byte>, k: Carry): nat {
    if |h| < 2 then k.seqno else if |h| == 2 then Value(h[1]) else ToU16(h[1], h[2])
  }

  function PartSize(h: seq<byte>, k: Carry): nat {
    if |h| <= 3 then k.msglen
    else if |h| == 4 then ShiftIn(k.msglen, h[3])
    else if |h| == 5 then ShiftIn(ShiftIn(k.msglen, h[3]), h[4])
    else if |h| == 6 then ShiftIn(ShiftIn(ShiftIn(k.msglen, h[3]), h[4]), h[5])
    else ToU32(h[3], h[4], h[5], h[6])
  }

  // The message part of a buffer for n bytes of which only some arrived.
  function Held(arrived: seq<byte>, n: nat, stale: seq<byte>): (m: seq<byte>)
    ensures |m| == n
    ensures forall i :: 0 <= i < n ==> m[i] == if i < |arrived| then arrived[i] else StaleAt(stale, 8 + i)
  {
    seq(n, i requires 0 <= i < n => if i < |arrived| then arrived[i] else StaleAt(stale, 8 + i))
  }

  // When the line goes quiet the receiver hands back the number and the length it has
  // so far, and the message part of its buffer if it got as far as having one.
  datatype Outcome =
    | Received(seqno: nat, message: seq<byte>)
    | BadCrc
    | Quiet(seqno: nat, msglen: nat, buffer: Option<seq<byte>>)

  datatype Scanned = Scanned(outcome: Outcome, rest: seq<byte>)

  // What receiving makes of the bytes that arrive before the line goes quiet.
  // A message of size zero reads no byte, which the receiver takes for silence.
  function Scan(s: seq<byte>, k: Carry): (r: Scanned)
    ensures |r.rest| <= |s|
    ensures r.outcome.Received? ==> |r.rest| < |s| && r.outcome.seqno < 0x1_0000 && |r.outcome.message| >= 1
    ensures r.outcome.Quiet? && r.rest != [] ==> r.outcome.msglen == 0
    ensures r.outcome.Quiet? && r.outcome.buffer.Some? ==> |r.outcome.buffer.value| == r.outcome.msglen <= MAX_MESSAGE
    ensures r.outcome.Quiet? && s == [] ==> r.outcome.msglen == k.msglen
    decreases |s|
  {
    if s == [] then Scanned(Quiet(k.seqno, k.msglen, None), [])
    else if s[0] != MESSAGE_START then Scan(s[1..], k)
    else if |s| < 8 then Scanned(Quiet(PartSeqNo(s, k), PartSize(s, k), None), [])
    else if !HeaderAccepted(s) then Scan(s[8..], Rejected(s, k))
    else
      var n := SizeOf(s);
      if n == 0 then Scanned(Quiet(SeqNoOf(s), 0, Some([])), s[8..])
      else if |s| < n + 10 then Scanned(Quiet(SeqNoOf(s), n, Some(Held(s[8..], n, k.stale))), [])
      else if Verified(s[..n + 10]) then Scanned(Received(SeqNoOf(s), s[8..n + 8]), s[n + 10..])
      else Scanned(BadCrc, s[n + 10..])
  }

  // What a complete header leaves behind.
  function Rejected(s: seq<byte>, k: Carry): Carry
    requires |s| >= 8
  {
    k.(seqno := SeqNoOf(s), msglen := SizeOf(s))
  }

  // ----- what the scan means

  // Bytes the receiver skips: stray bytes and complete headers it rejects.
  predicate Skipped(s: seq<byte>)
    decreases |s|
  {
    || s == []
    || (s[0] != MESSAGE_START && Skipped(s[1..]))
    || (|s| >= 8 && s[0] == MESSAGE_START && !HeaderAccepted(s) && Skipped(s[8..]))
  }

  // What skipping them leaves behind.
  function Skip(s: seq<byte>, k: Carry): (k': Carry)
    requires Skipped(s)
    ensures k'.stale == k.stale
    decreases |s|
  {
    if s == [] then k
    else if s[0] != MESSAGE_START then Skip(s[1..], k)
    else Skip(s[8..], Rejected(s, k))
  }

  lemma {:induction false} ScanSkips(junk: seq<byte>, s: seq<byte>, k: Carry)
    requires Skipped(junk)
    ensures Scan(junk + s, k) == Scan(s, Skip(junk, k))
    decreases |junk|
  {
    hide HeaderAccepted, Verified, Held, PartSize, PartSeqNo;
    if junk == [] {
      assert junk + s == s;
    } else if junk[0] != MESSAGE_START {
      assert (junk + s)[1..] == junk[1..] + s;
      ScanSkips(junk[1..], s, k);
    } else {
      assert (junk + s)[8..] == junk[8..] + s;
      SameHeader(junk, s);
      ScanSkips(junk[8..], s, Rejected(junk, k));
    }
  }

  lemma SameHeader(f: seq<byte>, rest: seq<byte>)
    requires |f| >= 8
    ensures HeaderAccepted(f + rest) == HeaderAccepted(f)
    ensures SeqNoOf(f + rest) == SeqNoOf(f) && SizeOf(f + rest) == SizeOf(f)
  {
  }

  lemma HeaderFields(seqno: nat, size: nat)
    requires seqno < 0x1_0000 && size < 0x1_0000_0000
    ensures var h := Header(seqno, size);
      && h[0] == MESSAGE_START && h[7] == TOKEN
      && ToU16(h[1], h[2]) == seqno && ToU32(h[3], h[4], h[5], h[6]) == size
  {
    hide ToU16, ToU32, U16Bytes, U32Bytes;
    U16RoundTrip(seqno);
    U32RoundTrip(size);
    var h := Header(seqno, size);
    assert h[1] == U16Bytes(seqno)[0] && h[2] == U16Bytes(seqno)[1];
    assert h[3] == U32Bytes(size)[0] && h[4] == U32Bytes(size)[1];
    assert h[5] == U32Bytes(size)[2] && h[6] == U32Bytes(size)[3];
  }

  lemma EncodedHeader(seqno: nat, message: seq<byte>, rest: seq<byte>)
    requires seqno < 0x1_0000 && |message| < 0x1_0000_0000
    ensures var s := Encode(seqno, message) + rest;
      && s[0] == MESSAGE_START && s[7] == TOKEN
      && SeqNoOf(s) == seqno && SizeOf(s) == |message|
      && s[8..|message| + 8] == message
  {
    hide ToU16, ToU32, U16Bytes, U32Bytes, Header, Crc, CrcBytes;
    var s := Encode(seqno, message) + rest;
    var h := Header(seqno, |message|);
    HeaderFields(seqno, |message|);
    assert forall k :: 0 <= k < 8 ==> s[k] == h[k];
  }

  lemma EncodedIsVerified(seqno: nat, message: seq<byte>)
    requires seqno < 0x1_0000 && |message| < 0x1_0000_0000
    ensures Verified(Encode(seqno, message))
  {
  }

  // Decoding undoes encoding, after any bytes the receiver skips, and takes
  // nothing beyond the CRC.
  lemma DecodeEncode(junk: seq<byte>, seqno: nat, message: seq<byte>, rest: seq<byte>, k: Carry)
    requires seqno < 0x1_0000 && Skipped(junk) && 1 <= |message| <= MAX_MESSAGE
    ensures Scan(junk + Encode(seqno, message) + rest, k) == Scanned(Received(seqno, message), rest)
  {
    hide ToU16, ToU32, Encode, Verified, Held, PartSize, PartSeqNo;
    var f := Encode(seqno, message);
    var s := f + rest;
    EncodedHeader(seqno, message, rest);
    EncodedIsVerified(seqno, message);
    assert s[..|f|] == f && s[|f|..] == rest && s[8..|f| - 2] == message;
    assert Scan(s, Skip(junk, k)) == Scanned(Received(seqno, message), rest);
    assert junk + f + rest == junk + s;
    ScanSkips(junk, s, k);
  }

  // A buffer that passed both tests is the encoding of what is read from it.
  lemma AcceptedIsEncoded(f: seq<byte>)
    requires |f| >= 10 && HeaderAccepted(f) && SizeOf(f) == |f| - 10 && Verified(f)
    ensures f == Encode(SeqNoOf(f), f[8..|f| - 2])
  {
    hide ToU16, ToU32, U16Bytes, U32Bytes;
    var n := |f| - 10;
    U16BytesOf(f[1], f[2]);
    U32BytesOf(f[3], f[4], f[5], f[6]);
    assert Header(SeqNoOf(f), SizeOf(f)) == f[..8];
    assert f[..8] + f[8..n + 8] == f[..n + 8];
    assert f == f[..n + 8] + f[n + 8..];
  }

  lemma FirstFrame(s: seq<byte>, k: Carry)
    requires |s| >= 8 && HeaderAccepted(s) && Scan(s, k).outcome.Received?
    ensures var Scanned(Received(seqno, message), rest) := Scan(s, k); Carries(s, [], seqno, message, rest)
  {
    hide ToU16, ToU32, U16Bytes, U32Bytes, Encode, Verified, Held, PartSize, PartSeqNo;
    var n := SizeOf(s);
    var f := s[..n + 10];
    assert f[8..|f| - 2] == s[8..n + 8];
    AcceptedIsEncoded(f);
    SplitAt(s, n + 10);
    assert [] + f == f;
  }

  // s is skipped bytes, the frame that carries this message, and rest.
  predicate Carries(s: seq<byte>, junk: seq<byte>, seqno: nat, message: seq<byte>, rest: seq<byte>) {
    && seqno < 0x1_0000 && 1 <= |message| <= MAX_MESSAGE
    && Skipped(junk) && s == junk + Encode(seqno, message) + rest
  }

  lemma Prepended<T>(a: seq<T>, b: seq<T>, c: seq<T>, d: seq<T>)
    ensures a + (b + c + d) == a + b + c + d
  {
  }

  lemma SkippedAfter(s: seq<byte>, n: nat, tail: seq<byte>)
    requires n <= |s| && s != [] && Skipped(tail)
    requires if s[0] != MESSAGE_START then n == 1 else n == 8 && !HeaderAccepted(s)
    ensures Skipped(s[..n] + tail)
  {
    hide ToU32;
    var junk := s[..n] + tail;
    assert junk[n..] == tail && junk[..n] == s[..n];
  }

  lemma CarriesLater(s: seq<byte>, n: nat, tail: seq<byte>, seqno: nat, message: seq<byte>, rest: seq<byte>)
    requires n <= |s| && s != [] && Carries(s[n..], tail, seqno, message, rest)
    requires if s[0] != MESSAGE_START then n == 1 else n == 8 && !HeaderAccepted(s)
    ensures Carries(s, s[..n] + tail, seqno, message, rest)
  {
    hide Encode, HeaderAccepted;
    SplitAt(s, n);
    Prepended(s[..n], tail, Encode(seqno, message), rest);
    SkippedAfter(s, n, tail);
  }

  // Every frame that is read to its end is there as its encoding.
  lemma {:induction false} ReceivedWasEncoded(s: seq<byte>, k: Carry) returns (junk: seq<byte>)
    requires Scan(s, k).outcome.Received?
    ensures var Scanned(Received(seqno, message), rest) := Scan(s, k); Carries(s, junk, seqno, message, rest)
    decreases |s|
  {
    hide HeaderAccepted, SeqNoOf, SizeOf, Encode, Verified, Held, PartSize, PartSeqNo, Carries;
    var x := Scan(s, k);
    if |s| >= 8 && s[0] == MESSAGE_START && HeaderAccepted(s) {
      junk := [];
      FirstFrame(s, k);
    } else {
      var n := if s[0] != MESSAGE_START then 1 else 8;
      var k' := if n == 1 then k else Rejected(s, k);
      var tail := ReceivedWasEncoded(s[n..], k');
      junk := s[..n] + tail;
      CarriesLater(s, n, tail, x.outcome.seqno, x.outcome.message, x.rest);
    }
  }

  // So exactly the messages of 1 to 100000 bytes come back.  An empty one is taken
  // for silence, with its CRC left on the line, and of a longer one the header is
  // rejected, and the rest read as if it were new.
  lemma RoundTripExactly(junk: seq<byte>, seqno: nat, message: seq<byte>, rest: seq<byte>, k: Carry)
    requires seqno < 0x1_0000 && Skipped(junk) && |message| < 0x1_0000_0000
    ensures Scan(junk + Encode(seqno, message) + rest, k) == Scanned(Received(seqno, message), rest) <==>
            1 <= |message| <= 100000
    ensures var s := Encode(seqno, message) + rest;
      && (message == [] ==> Scan(junk + s, k) == Scanned(Quiet(seqno, 0, Some([])), s[8..]))
      && (|message| > MAX_MESSAGE ==>
            Scan(junk + s, k) == Scan(s[8..], Carry(seqno, |message|, k.stale)))
  {
    hide ToU16, ToU32, Encode, Verified, Held, PartSize, PartSeqNo, Carries;
    var s := Encode(seqno, message) + rest;
    EncodedHeader(seqno, message, rest);
    ScanSkips(junk, s, k);
    assert junk + Encode(seqno, message) + rest == junk + s;
    if 1 <= |message| <= MAX_MESSAGE {
      DecodeEncode(junk, seqno, message, rest, k);
    } else if |message| > MAX_MESSAGE && Scan(junk + s, k) == Scanned(Received(seqno, message), rest) {
      var j := ReceivedWasEncoded(junk + s, k);
      LongIsNotCarried(junk + s, j, seqno, message, rest);
      assert false;
    }
  }

  lemma LongIsNotCarried(s: seq<byte>, junk: seq<byte>, seqno: nat, message: seq<byte>, rest: seq<byte>)
    requires |message| > MAX_MESSAGE
    ensures !Carries(s, junk, seqno, message, rest)
  {
    hide Encode;
  }

  // The start of a frame whose header is accepted and whose end has not come.
  predicate CutOff(f: seq<byte>) {
    |f| >= 8 && HeaderAccepted(f) && 0 < SizeOf(f) && |f| < SizeOf(f) + 10
  }

  // If the line goes quiet there, the frame is handed back all the same: its announced
  // length, and a message of which only what came is sure.
  lemma CutOffIsHandedBack(junk: seq<byte>, f: seq<byte>, k: Carry)
    requires Skipped(junk) && CutOff(f)
    ensures Scan(junk + f, k) ==
            Scanned(Quiet(SeqNoOf(f), SizeOf(f), Some(Held(f[8..], SizeOf(f), k.stale))), [])
  {
    hide ToU16, ToU32;
    ScanSkips(junk, f, k);
    assert f[0] == MESSAGE_START;
  }

  // Nothing else is handed back in a buffer.
  lemma {:induction false} HandedBackWasCutOff(s: seq<byte>, k: Carry) returns (junk: seq<byte>, f: seq<byte>)
    requires Scan(s, k).outcome.Quiet? && Scan(s, k).outcome.buffer.Some? && Scan(s, k).outcome.msglen > 0
    ensures Skipped(junk) && CutOff(f) && s == junk + f
    decreases |s|
  {
    hide SeqNoOf, Verified, Held, PartSize, PartSeqNo;
    if |s| >= 8 && s[0] == MESSAGE_START && HeaderAccepted(s) {
      junk, f := [], s;
    } else {
      hide HeaderAccepted, SizeOf;
      var n := if s[0] != MESSAGE_START then 1 else 8;
      var tail;
      tail, f := HandedBackWasCutOff(s[n..], if n == 1 then k else Rejected(s, k));
      junk := s[..n] + tail;
      SplitAt(s, n);
      SkippedAfter(s, n, tail);
    }
  }

  // A frame whose size, start and token bytes survive but which is damaged
  // elsewhere is reported as bad and dropped whole, never delivered.
  lemma DamagedFrameIsRejected(seqno: nat, message: seq<byte>, f: seq<byte>, rest: seq<byte>, k: Carry)
    requires seqno < 0x1_0000 && 1 <= |message| <= MAX_MESSAGE && |f| == |message| + 10
    requires f[0] == MESSAGE_START && f[3..8] == Encode(seqno, message)[3..8]
    requires !Verified(f)
    ensures Scan(f + rest, k) == Scanned(BadCrc, rest)
  {
    hide ToU16, ToU32, U16Bytes, U32Bytes;
    var s := f + rest;
    var e := Encode(seqno, message);
    EncodedHeader(seqno, message, []);
    assert e + [] == e;
    assert forall k :: 3 <= k < 8 ==> s[k] == f[3..8][k - 3] == e[3..8][k - 3] == e[k];
    assert s[..|f|] == f && s[|f|..] == rest;
  }

  // Hence one changed pair of adjacent bytes in the sequence number, the
  // message or the CRC never produces a message.
  lemma ChangedFrameIsRejected(seqno: nat, message: seq<byte>, f: seq<byte>, at: nat, rest: seq<byte>, k: Carry)
    requires seqno < 0x1_0000 && 1 <= |message| <= MAX_MESSAGE && |f| == |message| + 10
    requires at == 1 || 8 <= at < |f| - 1
    requires f != Encode(seqno, message)
    requires forall i :: 0 <= i < |f| && i != at && i != at + 1 ==> f[i] == Encode(seqno, message)[i]
    ensures Scan(f + rest, k) == Scanned(BadCrc, rest)
  {
    hide ToU16, ToU32, Encode, Verified;
    EncodedHeader(seqno, message, []);
    assert Encode(seqno, message) + [] == Encode(seqno, message);
    EncodedIsVerified(seqno, message);
    TwoByteChangeIsDetected(Encode(seqno, message), f, at);
    DamagedFrameIsRejected(seqno, message, f, rest, k);
  }
}
