// The 16-bit CRC of the mkII frames (src/crc16.c): the table-driven loop, its
// bit-by-bit meaning, and the errors it is certain to detect.

module Crc16 {
  import opened Common
  import opened Folds

  const CRC_INIT: bv16 := 0xffff

  // One row of eight table entries, selected by the low three index bits.
  function Pick(i: byte, t0: bv16, t1: bv16, t2: bv16, t3: bv16,
                t4: bv16, t5: bv16, t6: bv16, t7: bv16): bv16
  {
    if i & 4 == 0 then
      if i & 2 == 0 then (if i & 1 == 0 then t0 else t1) else (if i & 1 == 0 then t2 else t3)
    else
      if i & 2 == 0 then (if i & 1 == 0 then t4 else t5) else (if i & 1 == 0 then t6 else t7)
  }

  // The table of 256 constants, eight to a row as the program lays them out.
  function CrcTable(i: byte): bv16 {
    if i < 128 then
      match i >> 3
      case 0 => Pick(i, 0x0000, 0x1189, 0x2312, 0x329b, 0x4624, 0x57ad, 0x6536, 0x74bf)
      case 1 => Pick(i, 0x8c48, 0x9dc1, 0xaf5a, 0xbed3, 0xca6c, 0xdbe5, 0xe97e, 0xf8f7)
      case 2 => Pick(i, 0x1081, 0x0108, 0x3393, 0x221a, 0x56a5, 0x472c, 0x75b7, 0x643e)
      case 3 => Pick(i, 0x9cc9, 0x8d40, 0xbfdb, 0xae52, 0xdaed, 0xcb64, 0xf9ff, 0xe876)
      case 4 => Pick(i, 0x2102, 0x308b, 0x0210, 0x1399, 0x6726, 0x76af, 0x4434, 0x55bd)
      case 5 => Pick(i, 0xad4a, 0xbcc3, 0x8e58, 0x9fd1, 0xeb6e, 0xfae7, 0xc87c, 0xd9f5)
      case 6 => Pick(i, 0x3183, 0x200a, 0x1291, 0x0318, 0x77a7, 0x662e, 0x54b5, 0x453c)
      case 7 => Pick(i, 0xbdcb, 0xac42, 0x9ed9, 0x8f50, 0xfbef, 0xea66, 0xd8fd, 0xc974)
      case 8 => Pick(i, 0x4204, 0x538d, 0x6116, 0x709f, 0x0420, 0x15a9, 0x2732, 0x36bb)
      case 9 => Pick(i, 0xce4c, 0xdfc5, 0xed5e, 0xfcd7, 0x8868, 0x99e1, 0xab7a, 0xbaf3)
      case 10 => Pick(i, 0x5285, 0x430c, 0x7197, 0x601e, 0x14a1, 0x0528, 0x37b3, 0x263a)
      case 11 => Pick(i, 0xdecd, 0xcf44, 0xfddf, 0xec56, 0x98e9, 0x8960, 0xbbfb, 0xaa72)
      case 12 => Pick(i, 0x6306, 0x728f, 0x4014, 0x519d, 0x2522, 0x34ab, 0x0630, 0x17b9)
      case 13 => Pick(i, 0xef4e, 0xfec7, 0xcc5c, 0xddd5, 0xa96a, 0xb8e3, 0x8a78, 0x9bf1)
      case 14 => Pick(i, 0x7387, 0x620e, 0x5095, 0x411c, 0x35a3, 0x242a, 0x16b1, 0x0738)
      case _ => Pick(i, 0xffcf, 0xee46, 0xdcdd, 0xcd54, 0xb9eb, 0xa862, 0x9af9, 0x8b70)
    else
      match i >> 3
      case 16 => Pick(i, 0x8408, 0x9581, 0xa71a, 0xb693, 0xc22c, 0xd3a5, 0xe13e, 0xf0b7)
      case 17 => Pick(i, 0x0840, 0x19c9, 0x2b52, 0x3adb, 0x4e64, 0x5fed, 0x6d76, 0x7cff)
      case 18 => Pick(i, 0x9489, 0x8500, 0xb79b, 0xa612, 0xd2ad, 0xc324, 0xf1bf, 0xe036)
      case 19 => Pick(i, 0x18c1, 0x0948, 0x3bd3, 0x2a5a, 0x5ee5, 0x4f6c, 0x7df7, 0x6c7e)
      case 20 => Pick(i, 0xa50a, 0xb483, 0x8618, 0x9791, 0xe32e, 0xf2a7, 0xc03c, 0xd1b5)
      case 21 => Pick(i, 0x2942, 0x38cb, 0x0a50, 0x1bd9, 0x6f66, 0x7eef, 0x4c74, 0x5dfd)
      case 22 => Pick(i, 0xb58b, 0xa402, 0x9699, 0x8710, 0xf3af, 0xe226, 0xd0bd, 0xc134)
      case 23 => Pick(i, 0x39c3, 0x284a, 0x1ad1, 0x0b58, 0x7fe7, 0x6e6e, 0x5cf5, 0x4d7c)
      case 24 => Pick(i, 0xc60c, 0xd785, 0xe51e, 0xf497, 0x8028, 0x91a1, 0xa33a, 0xb2b3)
      case 25 => Pick(i, 0x4a44, 0x5bcd, 0x6956, 0x78df, 0x0c60, 0x1de9, 0x2f72, 0x3efb)
      case 26 => Pick(i, 0xd68d, 0xc704, 0xf59f, 0xe416, 0x90a9, 0x8120, 0xb3bb, 0xa232)
      case 27 => Pick(i, 0x5ac5, 0x4b4c, 0x79d7, 0x685e, 0x1ce1, 0x0d68, 0x3ff3, 0x2e7a)
      case 28 => Pick(i, 0xe70e, 0xf687, 0xc41c, 0xd595, 0xa12a, 0xb0a3, 0x8238, 0x93b1)
      case 29 => Pick(i, 0x6b46, 0x7acf, 0x4854, 0x59dd, 0x2d62, 0x3ceb, 0x0e70, 0x1ff9)
      case 30 => Pick(i, 0xf78f, 0xe606, 0xd49d, 0xc514, 0xb1ab, 0xa022, 0x92b9, 0x8330)
      case _ => Pick(i, 0x7bc7, 0x6a4e, 0x58d5, 0x495c, 0x3de3, 0x2c6a, 0x1ef1, 0x0f78)
  }

  // ----- the specification: a register shifted one bit at a time, LSB first

  function ShiftBit(c: bv16): bv16 {
    if c & 1 == 1 then (c >> 1) ^ 0x8408 else c >> 1
  }

  function ShiftByte(c: bv16): bv16 { Iterate(ShiftBit, c, 8) }

  function Absorb(crc: bv16, b: byte): bv16 { crc ^ (b as bv16) }

  function Feed(crc: bv16, b: byte): bv16 { ShiftByte(Absorb(crc, b)) }

  // The register after the whole message has been shifted in.
  function Crc(m: seq<byte>, crc: bv16): bv16 { Fold(Feed, crc, m) }

  // ----- the program

  // The CRC macro.
  function TableStep(crc: bv16, c: byte): bv16 {
    (crc >> 8) ^ CrcTable(((crc ^ (c as bv16)) & 0xff) as byte)
  }

  function Xor16(a: bv16, b: bv16): bv16 { a ^ b }

  lemma XorAssociates(a: bv16, b: bv16, c: bv16)
    ensures Xor16(Xor16(a, b), c) == Xor16(a, Xor16(b, c))
  {
  }

  // Eight shifts at once, written without branches.
  function Mix(c: bv16): bv16 { (c ^ (c << 4)) & 0xff }

  function Folded(c: bv16): bv16 {
    (c >> 8) ^ (Mix(c) << 8) ^ (Mix(c) << 3) ^ (Mix(c) >> 4)
  }

  // One shift, and four, written without branches.
  function Spread(c: bv16): bv16 { (c >> 1) ^ (c << 15) ^ ((c & 1) << 10) ^ ((c & 1) << 3) }

  function Low(c: bv16): bv16 { c & 0xf }

  function Times(t: bv16): bv16 { (t << 12) ^ (t << 7) ^ t }

  function Nibble(c: bv16): bv16 { Xor16(c >> 4, Times(Low(c))) }

  lemma ShiftBitIsSpread(c: bv16)
    ensures ShiftBit(c) == Spread(c)
  {
    if c & 1 == 1 {
      assert c << 15 == 0x8000;
    } else {
      assert c & 1 == 0 && c << 15 == 0;
    }
  }

  lemma FourSpreadsAreNibble(c: bv16)
    ensures Spread(Spread(Spread(Spread(c)))) == Nibble(c)
  {
  }

  lemma FourShiftsAreNibble(c: bv16)
    ensures ShiftBit(ShiftBit(ShiftBit(ShiftBit(c)))) == Nibble(c)
  {
    hide ShiftBit, Spread, Nibble;
    ShiftBitIsSpread(c);
    ShiftBitIsSpread(ShiftBit(c));
    ShiftBitIsSpread(ShiftBit(ShiftBit(c)));
    ShiftBitIsSpread(ShiftBit(ShiftBit(ShiftBit(c))));
    FourSpreadsAreNibble(c);
  }

  // What the second nibble finds: its own bits over what the first one left there.
  function Second(c: bv16): bv16 { Low(c) ^ Low(c >> 4) }

  function Left(c: bv16): bv16 { (Low(c) << 8) ^ (Low(c) << 3) }

  lemma NibbleParts(c: bv16)
    ensures Low(Nibble(c)) == Second(c)
    ensures Nibble(c) >> 4 == Xor16(c >> 8, Left(c))
  {
  }

  lemma MixParts(c: bv16)
    ensures Mix(c) == Low(c) ^ (Second(c) << 4)
    ensures Low(c) & 0xf == Low(c) && Second(c) & 0xf == Second(c)
  {
  }

  lemma FoldParts(a: bv16, t: bv16, v: bv16)
    requires t & 0xf == t && v & 0xf == v
    ensures var m := t ^ (v << 4);
      a ^ (m << 8) ^ (m << 3) ^ (m >> 4) == Xor16(a, Xor16((t << 8) ^ (t << 3), Times(v)))
  {
  }

  lemma FoldedParts(c: bv16)
    ensures Folded(c) == Xor16(c >> 8, Xor16(Left(c), Times(Second(c))))
  {
    MixParts(c);
    FoldParts(c >> 8, Low(c), Second(c));
    hide Mix, Low, Second, Times, Xor16;
  }

  lemma TwoNibblesAreFolded(c: bv16)
    ensures Nibble(Nibble(c)) == Folded(c)
  {
    NibbleParts(c);
    FoldedParts(c);
    hide Xor16, Times, Left, Second, Low, Folded;
    XorAssociates(c >> 8, Left(c), Times(Second(c)));
  }

  lemma ShiftByteIsFolded(c: bv16)
    ensures ShiftByte(c) == Folded(c)
  {
    hide ShiftBit, Nibble, Folded;
    var half := ShiftBit(ShiftBit(ShiftBit(ShiftBit(c))));
    FourShiftsAreNibble(c);
    FourShiftsAreNibble(half);
    TwoNibblesAreFolded(c);
    assert ShiftByte(c) == ShiftBit(ShiftBit(ShiftBit(ShiftBit(half)))) by {
      EightTimes(ShiftBit, c);
    }
  }

  lemma TableEntryIsFolded(i: byte)
    ensures CrcTable(i) == Folded(i as bv16)
  {
  }

  // The high byte of the register only moves down.
  lemma FoldedSplits(x: bv16)
    ensures Folded(x) == Xor16(x >> 8, Folded(x & 0xff))
  {
    assert Mix(x & 0xff) == Mix(x) && (x & 0xff) >> 8 == 0;
  }

  lemma AbsorbLow(crc: bv16, c: byte)
    ensures Absorb(crc, c) >> 8 == crc >> 8
    ensures Absorb(crc, c) & 0xff == ((crc ^ (c as bv16)) & 0xff) as byte as bv16
  {
  }

  // The table step is eight bit steps.
  lemma TableStepIsFeed(crc: bv16, c: byte)
    ensures TableStep(crc, c) == Feed(crc, c)
  {
    var i := ((crc ^ (c as bv16)) & 0xff) as byte;
    var x := Absorb(crc, c);
    TableEntryIsFolded(i);
    AbsorbLow(crc, c);
    FoldedSplits(x);
    ShiftByteIsFolded(x);
    hide CrcTable, Folded, ShiftByte, Absorb;
  }

  method CrcSum(message: array<byte>, length: nat, init: bv16) returns (crc: bv16)
    requires length <= message.Length
    ensures crc == Crc(message[..length], init)
  {
    crc := init;
    for i := 0 to length
      invariant Crc(message[..length], init) == Crc(message[i..length], crc)
    {
      assert message[i..length][1..] == message[i + 1..length];
      TableStepIsFeed(crc, message[i]);
      crc := TableStep(crc, message[i]);
    }
  }

  function LowByte(crc: bv16): byte { (crc & 0xff) as byte }
  function HighByte(crc: bv16): byte { ((crc >> 8) & 0xff) as byte }
  function CrcBytes(crc: bv16): seq<byte> { [LowByte(crc), HighByte(crc)] }

  // A buffer is good when its last two bytes are the CRC of the others.
  predicate Verified(m: seq<byte>)
    requires |m| >= 2
  {
    m[|m| - 2..] == CrcBytes(Crc(m[..|m| - 2], CRC_INIT))
  }

  method CrcVerify(message: array<byte>, length: nat) returns (ok: bool)
    requires 2 <= length <= message.Length
    ensures ok <==> message[length - 2..length] == CrcBytes(Crc(message[..length - 2], 0xffff))
    ensures ok == Verified(message[..length])
  {
    var expected := CrcSum(message, length - 2, CRC_INIT);
    ok := LowByte(expected) == message[length - 2] && HighByte(expected) == message[length - 1];
    assert message[..length][..length - 2] == message[..length - 2];
    assert message[..length][length - 2..] == [message[length - 2], message[length - 1]];
  }

  method CrcAppend(message: array<byte>, length: nat)
    requires length + 2 <= message.Length
    modifies message
    ensures message[..length] == old(message[..length])
    ensures message[length + 2..] == old(message[length + 2..])
    ensures message[length..length + 2] == CrcBytes(Crc(old(message[..length]), 0xffff))
    ensures Verified(message[..length + 2])
  {
    var crc := CrcSum(message, length, CRC_INIT);
    message[length] := LowByte(crc);
    message[length + 1] := HighByte(crc);
    assert message[..length] == old(message[..length]);
    assert message[..length + 2][..length] == message[..length];
    assert message[..length + 2][length..] == CrcBytes(crc);
  }

  lemma FeedIs(crc: bv16, b: byte, next: bv16)
    requires Folded(Absorb(crc, b)) == next
    ensures Feed(crc, b) == next
  {
    ShiftByteIsFolded(Absorb(crc, b));
    hide Folded, ShiftByte, Absorb;
  }

  lemma CrcTakesThree(b0: byte, b1: byte, b2: byte, rest: seq<byte>, crc: bv16)
    ensures Crc([b0, b1, b2] + rest, crc) == Crc(rest, Feed(Feed(Feed(crc, b0), b1), b2))
  {
    hide Feed, Crc;
    CrcTakesOne(b0, [b1, b2] + rest, crc);
    CrcTakesOne(b1, [b2] + rest, Feed(crc, b0));
    CrcTakesOne(b2, rest, Feed(Feed(crc, b0), b1));
    assert [b0] + ([b1, b2] + rest) == [b0, b1, b2] + rest && [b1] + ([b2] + rest) == [b1, b2] + rest;
  }

  lemma CrcTakesOne(b: byte, rest: seq<byte>, crc: bv16)
    ensures Crc([b] + rest, crc) == Crc(rest, Feed(crc, b))
  {
    hide Feed;
    assert ([b] + rest)[1..] == rest;
  }

  lemma CrcOfNothing(crc: bv16)
    ensures Crc([], crc) == crc
  {
  }

  // The published check value of this CRC: the sum of the digits 1 to 9.
  lemma CheckValue()
    ensures Crc([0x31, 0x32, 0x33, 0x34, 0x35, 0x36, 0x37, 0x38, 0x39], 0xffff) == 0x6f91
  {
    FeedIs(0xffff, 0x31, 0x2f8d);
    FeedIs(0x2f8d, 0x32, 0x4d53);
    FeedIs(0x4d53, 0x33, 0x634b);
    FeedIs(0x634b, 0x34, 0x8b13);
    FeedIs(0x8b13, 0x35, 0x44bf);
    FeedIs(0x44bf, 0x36, 0x198d);
    FeedIs(0x198d, 0x37, 0x1ac8);
    FeedIs(0x1ac8, 0x38, 0xf795);
    FeedIs(0xf795, 0x39, 0x6f91);
    hide Feed, Folded, Absorb, Crc;
    var tail: seq<byte> := [0x37, 0x38, 0x39];
    CrcTakesThree(0x31, 0x32, 0x33, [0x34, 0x35, 0x36] + tail, 0xffff);
    CrcTakesThree(0x34, 0x35, 0x36, tail, 0x634b);
    CrcOfNothing(0x6f91);
    CrcTakesThree(0x37, 0x38, 0x39, [], 0x198d);
    assert tail + [] == tail;
  }

  // ----- properties of the sum

  lemma CrcConcat(a: seq<byte>, b: seq<byte>, crc: bv16)
    ensures Crc(a + b, crc) == Crc(b, Crc(a, crc))
  {
    FoldConcat(Feed, crc, a, b);
  }

  function Xor8(a: byte, b: byte): byte { a ^ b }

  function Xor(a: seq<byte>, b: seq<byte>): seq<byte>
    requires |a| == |b|
  {
    ZipWith(Xor8, a, b)
  }

  lemma HalfXor(a: bv16, b: bv16)
    ensures (a ^ b) >> 1 == (a >> 1) ^ (b >> 1)
    ensures (a ^ b) >> 1 == ((a >> 1) ^ 0x8408) ^ ((b >> 1) ^ 0x8408)
    ensures ((a ^ b) >> 1) ^ 0x8408 == ((a >> 1) ^ 0x8408) ^ (b >> 1)
    ensures ((a ^ b) >> 1) ^ 0x8408 == (a >> 1) ^ ((b >> 1) ^ 0x8408)
  {
  }

  lemma LowBitXor(a: bv16, b: bv16)
    ensures (a ^ b) & 1 == 1 <==> (a & 1 == 1) != (b & 1 == 1)
  {
  }

  lemma ShiftBitXor(a: bv16, b: bv16)
    ensures ShiftBit(a ^ b) == ShiftBit(a) ^ ShiftBit(b)
  {
    LowBitXor(a, b);
    HalfXor(a, b);
    var odd := (a & 1 == 1, b & 1 == 1);
    match odd
    case (true, true) =>
    case (true, false) =>
    case (false, true) =>
    case (false, false) =>
  }

  lemma AbsorbXor(c: bv16, d: bv16, x: byte, y: byte)
    ensures Absorb(Xor16(c, d), Xor8(x, y)) == Xor16(Absorb(c, x), Absorb(d, y))
  {
  }

  lemma ShiftByteXor(a: bv16, b: bv16)
    ensures ShiftByte(Xor16(a, b)) == Xor16(ShiftByte(a), ShiftByte(b))
  {
    forall a, b ensures ShiftBit(Xor16(a, b)) == Xor16(ShiftBit(a), ShiftBit(b)) { ShiftBitXor(a, b); }
    IterateIsAdditive(ShiftBit, Xor16, a, b, 8);
  }

  lemma StagesAreAdditive<S(!new), X(!new)>(g: S -> S, inj: (S, X) -> S, addS: (S, S) -> S, addX: (X, X) -> X)
    requires forall s, t :: g(addS(s, t)) == addS(g(s), g(t))
    requires forall s, t, x, y :: inj(addS(s, t), addX(x, y)) == addS(inj(s, x), inj(t, y))
    ensures forall s, t, x, y :: g(inj(addS(s, t), addX(x, y))) == addS(g(inj(s, x)), g(inj(t, y)))
  {
  }

  lemma FeedXor()
    ensures forall s, t, x, y :: Feed(Xor16(s, t), Xor8(x, y)) == Xor16(Feed(s, x), Feed(t, y))
  {
    forall s, t ensures ShiftByte(Xor16(s, t)) == Xor16(ShiftByte(s), ShiftByte(t)) { ShiftByteXor(s, t); }
    forall s, t, x, y ensures Absorb(Xor16(s, t), Xor8(x, y)) == Xor16(Absorb(s, x), Absorb(t, y)) {
      AbsorbXor(s, t, x, y);
    }
    StagesAreAdditive(ShiftByte, Absorb, Xor16, Xor8);
  }

  // The sum is linear over exclusive or: equal-length messages and registers.
  lemma CrcIsLinear(a: seq<byte>, b: seq<byte>, c: bv16, d: bv16)
    requires |a| == |b|
    ensures Crc(Xor(a, b), c ^ d) == Crc(a, c) ^ Crc(b, d)
  {
    FeedXor();
    FoldIsAdditive(Feed, Xor16, Xor8, c, d, a, b);
  }

  lemma FoldedIsInjective(c: bv16, d: bv16)
    requires Folded(c) == Folded(d)
    ensures c == d
  {
  }

  lemma AbsorbIsInjective(c: bv16, d: bv16, x: byte)
    requires Absorb(c, x) == Absorb(d, x)
    ensures c == d
  {
  }

  // Feeding a byte loses nothing of the register.
  lemma FeedIsInjective()
    ensures forall c, d, x :: Feed(c, x) == Feed(d, x) ==> c == d
  {
    forall c, d, x | Feed(c, x) == Feed(d, x)
      ensures c == d
    {
      ShiftByteIsFolded(Absorb(c, x));
      ShiftByteIsFolded(Absorb(d, x));
      FoldedIsInjective(Absorb(c, x), Absorb(d, x));
      AbsorbIsInjective(c, d, x);
    }
  }

  lemma FoldedZero(c: bv16)
    ensures Folded(c) == 0 <==> c == 0
  {
  }

  lemma FoldedLow(c: bv16, hi: byte)
    ensures Absorb(Folded(c), hi) == 0 <==> c & 0xff == 0 && hi == HighByte(c)
  {
  }

  lemma FeedCrcBytes(e: bv16, lo: byte, hi: byte)
    ensures Feed(Feed(e, lo), hi) == 0 <==> lo == LowByte(e) && hi == HighByte(e)
  {
    ShiftByteIsFolded(Absorb(e, lo));
    ShiftByteIsFolded(Absorb(Feed(e, lo), hi));
    FoldedZero(Absorb(Feed(e, lo), hi));
    FoldedLow(Absorb(e, lo), hi);
    assert Absorb(e, lo) & 0xff == 0 <==> lo == LowByte(e);
    assert HighByte(Absorb(e, lo)) == HighByte(e);
  }

  lemma CrcOfTwo(x: byte, y: byte, e: bv16)
    ensures Crc([x, y], e) == Feed(Feed(e, x), y)
  {
    assert [x, y][1..] == [y] && [y][1..] == [];
    assert Crc([x, y], e) == Fold(Feed, Feed(e, x), [y]);
  }

  // Comparing the two stored bytes is the same test as a zero residue of the whole buffer.
  lemma VerifiedIsZeroResidue(m: seq<byte>)
    requires |m| >= 2
    ensures Verified(m) <==> Crc(m, CRC_INIT) == 0
  {
    var body, tail := m[..|m| - 2], m[|m| - 2..];
    var e := Crc(body, CRC_INIT);
    assert m == body + tail && tail == [tail[0], tail[1]];
    CrcConcat(body, tail, CRC_INIT);
    CrcOfTwo(tail[0], tail[1], e);
    FeedCrcBytes(e, tail[0], tail[1]);
  }

  // ----- errors

  // Damaging a good buffer leaves it good exactly when the damage itself has no residue.
  lemma DamageSeenByResidue(m: seq<byte>, d: seq<byte>)
    requires |m| == |d| >= 2 && Verified(m)
    ensures Verified(Xor(m, d)) <==> Crc(d, 0) == 0
  {
    VerifiedIsZeroResidue(m);
    VerifiedIsZeroResidue(Xor(m, d));
    assert CRC_INIT ^ 0 == CRC_INIT;
    CrcIsLinear(m, d, CRC_INIT, 0);
  }

  predicate AllZero(d: seq<byte>) { forall i :: 0 <= i < |d| ==> d[i] == 0 }

  lemma {:induction false} CrcOfZeros(d: seq<byte>)
    requires AllZero(d)
    ensures Crc(d, 0) == 0
    decreases |d|
  {
    if d != [] {
      ShiftByteIsFolded(0);
      assert Feed(0, d[0]) == 0;
      CrcOfZeros(d[1..]);
    }
  }

  // Trailing zeros cannot hide a nonzero register.
  lemma ZerosKeepResidue(d: seq<byte>, z: seq<byte>)
    requires AllZero(z) && Crc(d, 0) != 0
    ensures Crc(d + z, 0) != 0
  {
    CrcConcat(d, z, 0);
    if Crc(d + z, 0) == 0 {
      CrcOfZeros(z);
      FeedIsInjective();
      FoldIsInjective(Feed, Crc(d, 0), 0, z);
    }
  }

  // Three bytes hold a burst when all their set bits lie within sixteen
  // consecutive positions, counted LSB first as the bits are shifted in.
  predicate Burst(x: byte, y: byte, z: byte) {
    || z == 0
    || (x & 0x01 == 0 && z & 0xfe == 0)
    || (x & 0x03 == 0 && z & 0xfc == 0)
    || (x & 0x07 == 0 && z & 0xf8 == 0)
    || (x & 0x0f == 0 && z & 0xf0 == 0)
    || (x & 0x1f == 0 && z & 0xe0 == 0)
    || (x & 0x3f == 0 && z & 0xc0 == 0)
    || (x & 0x7f == 0 && z & 0x80 == 0)
    || x == 0
  }

  lemma BurstLeavesResidue(x: byte, y: byte, z: byte)
    requires Burst(x, y, z) && (x != 0 || y != 0 || z != 0)
    ensures Folded(Absorb(Folded(Absorb(Folded(x as bv16), y)), z)) != 0
  {
  }

  lemma CrcOfThree(x: byte, y: byte, z: byte)
    ensures Crc([x, y, z], 0) == Folded(Absorb(Folded(Absorb(Folded(x as bv16), y)), z))
  {
    assert [x, y, z] == [x, y] + [z] && [z][1..] == [];
    CrcConcat([x, y], [z], 0);
    CrcOfTwo(x, y, 0);
    assert Crc([z], Crc([x, y], 0)) == Fold(Feed, Feed(Crc([x, y], 0), z), []);
    assert Absorb(0, x) == x as bv16;
    ShiftByteIsFolded(x as bv16);
    ShiftByteIsFolded(Absorb(Folded(x as bv16), y));
    ShiftByteIsFolded(Absorb(Folded(Absorb(Folded(x as bv16), y)), z));
  }

  // Any nonzero change within sixteen consecutive bits of a good buffer, its
  // CRC included, is caught.
  lemma BurstIsDetected(m: seq<byte>, before: nat, x: byte, y: byte, z: byte, after: nat)
    requires |m| == before + 3 + after && Verified(m)
    requires Burst(x, y, z) && (x != 0 || y != 0 || z != 0)
    ensures !Verified(Xor(m, seq(before, _ => 0) + [x, y, z] + seq(after, _ => 0)))
  {
    var head, tail := seq(before, _ => 0 as byte), seq(after, _ => 0 as byte);
    CrcConcat(head, [x, y, z], 0);
    CrcOfZeros(head);
    CrcOfThree(x, y, z);
    BurstLeavesResidue(x, y, z);
    ZerosKeepResidue(head + [x, y, z], tail);
    DamageSeenByResidue(m, head + [x, y, z] + tail);
  }

  // In particular any change confined to two adjacent bytes.
  lemma TwoByteChangeIsDetected(m: seq<byte>, m': seq<byte>, at: nat)
    requires |m| == |m'| >= 3 && at + 1 < |m|
    requires Verified(m) && m != m'
    requires forall i :: 0 <= i < |m| && i != at && i != at + 1 ==> m[i] == m'[i]
    ensures !Verified(m')
  {
    var j := if at + 2 < |m| then at else at - 1;
    var d := Xor(m, m');
    SelfInverse(m, m');
    var head, tail := seq(j, _ => 0 as byte), seq(|m| - j - 3, _ => 0 as byte);
    assert d == head + [d[j], d[j + 1], d[j + 2]] + tail;
    BurstIsDetected(m, j, d[j], d[j + 1], d[j + 2], |m| - j - 3);
  }

  lemma SelfInverse(m: seq<byte>, m': seq<byte>)
    requires |m| == |m'|
    ensures Xor(m, Xor(m, m')) == m'
    ensures forall i :: 0 <= i < |m| ==> (Xor(m, m')[i] == 0 <==> m[i] == m'[i])
  {
  }

  // ----- parity

  function Fold8(c: bv16): bv16 { (c ^ (c >> 8)) & 0xff }
  function Fold4(c: bv16): bv16 { (c ^ (c >> 4)) & 0xf }
  function Fold2(c: bv16): bv16 { (c ^ (c >> 2)) & 3 }
  function Fold1(c: bv16): bv16 { (c ^ (c >> 1)) & 1 }

  // The exclusive or of all the bits of a word: 0 or 1.
  function Parity(c: bv16): bv16 { Fold1(Fold2(Fold4(Fold8(c)))) }

  // The exclusive or of all the bits of a sequence.
  function SeqParity(d: seq<byte>): bv16 {
    if d == [] then 0 else Xor16(Parity(d[0] as bv16), SeqParity(d[1..]))
  }

  lemma Fold8Xor(a: bv16, b: bv16)
    ensures Fold8(a ^ b) == Fold8(a) ^ Fold8(b)
  {
  }

  lemma Fold4Xor(a: bv16, b: bv16)
    ensures Fold4(Xor16(a, b)) == Xor16(Fold4(a), Fold4(b))
  {
  }

  lemma Fold2Xor(a: bv16, b: bv16)
    ensures Fold2(Xor16(a, b)) == Xor16(Fold2(a), Fold2(b))
  {
  }

  lemma Fold1Xor(a: bv16, b: bv16)
    ensures Fold1(Xor16(a, b)) == Xor16(Fold1(a), Fold1(b))
  {
  }

  lemma ParityXor(a: bv16, b: bv16)
    ensures Parity(Xor16(a, b)) == Xor16(Parity(a), Parity(b))
  {
    hide Fold8, Fold4, Fold2, Fold1;
    assert Fold8(Xor16(a, b)) == Xor16(Fold8(a), Fold8(b)) by {
      Fold8Xor(a, b);
    }
    hide Xor16;
    var a8, b8 := Fold8(a), Fold8(b);
    var a4, b4 := Fold4(a8), Fold4(b8);
    var a2, b2 := Fold2(a4), Fold2(b4);
    Fold4Xor(a8, b8);
    Fold2Xor(a4, b4);
    Fold1Xor(a2, b2);
  }

  lemma ParityOfEven(c: bv16)
    requires c & 1 == 0
    ensures Parity(c >> 1) == Parity(c)
  {
  }

  // The generator has an odd number of bits besides the one shifted out.
  lemma ParityOfOdd(c: bv16)
    requires c & 1 == 1
    ensures Parity((c >> 1) ^ 0x8408) == Parity(c)
  {
  }

  lemma ShiftBitKeepsParity(c: bv16)
    ensures Parity(ShiftBit(c)) == Parity(c)
  {
    if c & 1 == 1 {
      ParityOfOdd(c);
      assert ShiftBit(c) == (c >> 1) ^ 0x8408;
    } else {
      ParityOfEven(c);
    }
  }

  lemma FeedParity(c: bv16, b: byte)
    ensures Parity(Feed(c, b)) == Xor16(Parity(c), Parity(b as bv16))
  {
    hide Parity, ShiftBit;
    assert Absorb(c, b) == Xor16(c, b as bv16);
    ParityXor(c, b as bv16);
    forall c ensures Parity(ShiftBit(c)) == Parity(c) {
      ShiftBitKeepsParity(c);
    }
    IterateKeeps(ShiftBit, Parity, Absorb(c, b), 8);
  }

  lemma {:induction false} CrcParity(d: seq<byte>, c: bv16)
    ensures Parity(Crc(d, c)) == Xor16(Parity(c), SeqParity(d))
    decreases |d|
  {
    hide Parity;
    if d != [] {
      hide Xor16, Feed;
      FeedParity(c, d[0]);
      CrcParity(d[1..], Feed(c, d[0]));
      XorAssociates(Parity(c), Parity(d[0] as bv16), SeqParity(d[1..]));
    }
  }

  // Flipping any odd number of bits anywhere in a good buffer is caught.
  lemma OddChangeIsDetected(m: seq<byte>, d: seq<byte>)
    requires |m| == |d| >= 2 && Verified(m) && SeqParity(d) == 1
    ensures !Verified(Xor(m, d))
  {
    CrcParity(d, 0);
    DamageSeenByResidue(m, d);
  }
}
