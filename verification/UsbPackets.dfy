// Cutting a message into USB packets and putting it together again
// (src/jtag2usb.cc; short packets end a transfer, section 5.8.3 of USB 2.0).

module UsbPackets {
  import opened Common

  type Packet = seq<byte>

  const MAX_MESSAGE: nat := 512  // of this file; the wire protocol has its own

  lemma Assoc<T>(a: seq<T>, b: seq<T>, c: seq<T>)
    ensures a + (b + c) == a + b + c
  {
  }

  lemma Parts<T>(a: seq<T>, b: seq<T>)
    ensures (a + b)[..|a|] == a && (a + b)[|a|..] == b
  {
  }

  // The packets of a message: full ones and then one that is short, or empty.
  function Packets(m: seq<byte>, maxXfer: nat): (ps: seq<Packet>)
    requires maxXfer > 0
    ensures ps != []
  {
    if |m| < maxXfer then [m] else [m[..maxXfer]] + Packets(m[maxXfer..], maxXfer)
  }

  function Concat(ps: seq<Packet>): seq<byte> {
    if ps == [] then [] else ps[0] + Concat(ps[1..])
  }

  // The packets are the message, all full but the last, and that one short.
  lemma {:induction false} PacketsAreTheMessage(m: seq<byte>, maxXfer: nat)
    requires maxXfer > 0
    ensures var ps := Packets(m, maxXfer);
      Concat(ps) == m && |ps[|ps| - 1]| < maxXfer && forall i | 0 <= i < |ps| - 1 :: |ps[i]| == maxXfer
  {
    var ps := Packets(m, maxXfer);
    if |m| < maxXfer {
      assert Concat(ps[1..]) == [];
    } else {
      var rest := Packets(m[maxXfer..], maxXfer);
      assert ps == [m[..maxXfer]] + rest;
      hide Packets;
      PacketsAreTheMessage(m[maxXfer..], maxXfer);
      assert ps[1..] == rest;
      SplitAt(m, maxXfer);
    }
  }

  // They are the only packets with these properties.
  lemma {:induction false} PacketsAreUnique(ps: seq<Packet>, maxXfer: nat)
    requires maxXfer > 0 && ps != [] && |ps[|ps| - 1]| < maxXfer
    requires forall i | 0 <= i < |ps| - 1 :: |ps[i]| == maxXfer
    ensures ps == Packets(Concat(ps), maxXfer)
  {
    if |ps| == 1 {
      assert Concat(ps[1..]) == [];
      assert Concat(ps) == ps[0];
    } else {
      var rest := ps[1..];
      assert forall i | 0 <= i < |rest| - 1 :: |rest[i]| == |ps[i + 1]| == maxXfer;
      PacketsAreUnique(rest, maxXfer);
      Parts(ps[0], Concat(rest));
    }
  }

  // The loop of the writer thread for one message of rv bytes.
  method WriteMessage(buf: array<byte>, rv: nat, maxXfer: nat) returns (packets: seq<Packet>)
    requires 0 < rv <= buf.Length && maxXfer > 0
    ensures packets == Packets(buf[..rv], maxXfer)
  {
    hide Packets, Written;
    packets := [];
    ghost var m := buf[..rv];
    NoneWritten(m, maxXfer);
    var left: nat, offset: nat := rv, 0;
    while left != 0
      invariant offset + left == rv
      invariant Written(packets, m, offset, maxXfer)
    {
      var amount := if left > maxXfer then maxXfer else left;
      WriteOne(packets, m, offset, maxXfer);
      var packet := Chunk(buf, offset, amount, rv);
      packets := packets + [packet];
      if left == maxXfer {
        packets := packets + [[]];
      }
      left := left - amount;
      offset := offset + amount;
    }
    AllWritten(packets, m, maxXfer);
  }

  method Chunk(buf: array<byte>, offset: nat, amount: nat, ghost rv: nat) returns (packet: Packet)
    requires offset + amount <= rv <= buf.Length
    ensures packet == buf[..rv][offset..offset + amount]
  {
    packet := buf[offset..offset + amount];
  }

  // The packets so far and those of the rest are the packets of the message.
  ghost predicate Written(packets: seq<Packet>, m: seq<byte>, offset: nat, maxXfer: nat)
    requires maxXfer > 0
  {
    offset <= |m| && packets + (if offset < |m| then Packets(m[offset..], maxXfer) else []) == Packets(m, maxXfer)
  }

  lemma NoneWritten(m: seq<byte>, maxXfer: nat)
    requires maxXfer > 0 && m != []
    ensures Written([], m, 0, maxXfer)
  {
    assert m[0..] == m && [] + Packets(m, maxXfer) == Packets(m, maxXfer);
  }

  lemma AllWritten(packets: seq<Packet>, m: seq<byte>, maxXfer: nat)
    requires maxXfer > 0 && Written(packets, m, |m|, maxXfer)
    ensures packets == Packets(m, maxXfer)
  {
    assert packets + [] == packets;
  }

  lemma WriteOne(packets: seq<Packet>, m: seq<byte>, offset: nat, maxXfer: nat)
    requires maxXfer > 0 && offset < |m| && Written(packets, m, offset, maxXfer)
    ensures var k := if |m| - offset > maxXfer then maxXfer else |m| - offset;
      var more := packets + [m[offset..offset + k]];
      Written(if |m| - offset == maxXfer then more + [[]] else more, m, offset + k, maxXfer)
  {
    hide Packets;
    var k := Min(|m| - offset, maxXfer);
    OnePacket(packets, m[offset..], maxXfer);
    assert m[offset..][..k] == m[offset..offset + k] && m[offset..][k..] == m[offset + k..];
  }

  // One round of the writer.
  lemma OnePacket(before: seq<Packet>, m: seq<byte>, maxXfer: nat)
    requires maxXfer > 0 && m != []
    ensures before + Packets(m, maxXfer) ==
      if |m| > maxXfer then before + [m[..maxXfer]] + Packets(m[maxXfer..], maxXfer)
      else before + [m[..|m|]] + if |m| == maxXfer then [[]] else []
  {
    if |m| >= maxXfer {
      Assoc(before, [m[..maxXfer]], Packets(m[maxXfer..], maxXfer));
      assert |m| == maxXfer ==> m[maxXfer..] == [];
    } else {
      assert m[..|m|] == m;
      Assoc(before, [m], []);
    }
  }

  // ----- the reader

  // A message and the packets after it; or no end of a message yet; or a packet that
  // does not fit what is left of the buffer.
  datatype ReadResult = Message(text: seq<byte>, rest: seq<Packet>) | Waiting | Overflow

  // What is left of a message once got has arrived, all of it in full packets.
  function More(got: seq<byte>, ps: seq<Packet>, maxXfer: nat): (r: ReadResult)
    requires |got| <= MAX_MESSAGE
    ensures r.Message? ==> |r.rest| < |ps|
    decreases ps
  {
    if ps == [] then Waiting
    else if |ps[0]| > Min(MAX_MESSAGE - |got|, maxXfer) then Overflow
    else if ps[0] == [] || |ps[0]| < maxXfer || |got + ps[0]| == MAX_MESSAGE then Message(got + ps[0], ps[1..])
    else More(got + ps[0], ps[1..], maxXfer)
  }

  // One round of the reader: empty packets before a message are dropped.
  function Reading(ps: seq<Packet>, maxXfer: nat): (r: ReadResult)
    ensures r.Message? ==> |r.rest| < |ps|
  {
    if ps == [] then Waiting
    else if ps[0] == [] then Reading(ps[1..], maxXfer)
    else if |ps[0]| > Min(MAX_MESSAGE, maxXfer) then Overflow
    else if |ps[0]| < maxXfer then Message(ps[0], ps[1..])
    else More(ps[0], ps[1..], maxXfer)
  }

  lemma ConcatTakes(ps: seq<Packet>, n: nat)
    requires ps != [] && n < |ps|
    ensures Concat(ps[..n + 1]) == ps[0] + Concat(ps[1..][..n])
  {
    assert ps[..n + 1][1..] == ps[1..][..n];
  }

  // The first n packets are full and leave room; the next one, if it has come, ends the
  // message by being short or filling the buffer of 512 bytes, or does not fit.
  ghost predicate Continues(got: seq<byte>, ps: seq<Packet>, maxXfer: nat, n: nat, r: ReadResult) {
    && n <= |ps|
    && (forall i: nat | i < n :: |ps[i]| == maxXfer && |got| + |Concat(ps[..i + 1])| < 512)
    && if n == |ps| then r == Waiting
       else if |ps[n]| > maxXfer || |got| + |Concat(ps[..n])| + |ps[n]| > 512 then r == Overflow
       else
         && r == Message(got + Concat(ps[..n + 1]), ps[n + 1..])
         && (|ps[n]| < maxXfer || |got| + |Concat(ps[..n + 1])| == 512)
  }

  lemma {:induction false} MoreContinues(got: seq<byte>, ps: seq<Packet>, maxXfer: nat) returns (n: nat)
    requires |got| <= 512 && maxXfer > 0
    ensures Continues(got, ps, maxXfer, n, More(got, ps, maxXfer))
    decreases |ps|
  {
    n := 0;
    assert ps[..0] == [];
    if ps != [] {
      ConcatTakes(ps, 0);
      assert Concat(ps[1..][..0]) == [] && ps[0] + [] == ps[0];
      if |ps[0]| == maxXfer && |got| + maxXfer < 512 {
        var rest := ps[1..];
        var m := MoreContinues(got + ps[0], rest, maxXfer);
        n := m + 1;
        hide More;
        ContinuesLater(got, ps, maxXfer, m, More(got + ps[0], rest, maxXfer));
      }
    }
  }

  lemma ContinuesLater(got: seq<byte>, ps: seq<Packet>, maxXfer: nat, m: nat, r: ReadResult)
    requires ps != [] && |ps[0]| == maxXfer && |got| + maxXfer < 512
    requires Continues(got + ps[0], ps[1..], maxXfer, m, r)
    ensures Continues(got, ps, maxXfer, m + 1, r)
  {
    var rest := ps[1..];
    assert Concat(ps[..1]) == ps[0] by {
      ConcatTakes(ps, 0);
      assert rest[..0] == [] && ps[0] + [] == ps[0];
    }
    forall i: nat | i < |ps|
      ensures |Concat(ps[..i + 1])| == |ps[0]| + |Concat(rest[..i])|
    {
      ConcatTakes(ps, i);
    }
    forall i: nat | i < m + 1
      ensures |ps[i]| == maxXfer && |got| + |Concat(ps[..i + 1])| < 512
    {
      assert i > 0 ==> ps[i] == rest[i - 1] && rest[..i] == rest[..i - 1 + 1];
    }
    if m < |rest| {
      ConcatTakes(ps, m + 1);
      Assoc(got, ps[0], Concat(rest[..m + 1]));
      assert ps[m + 1] == rest[m] && ps[m + 2..] == rest[m + 1..];
    }
  }

  // What the reader makes of any packets: those that are empty are dropped, and from the
  // first other one on they are put together until one ends the message.
  lemma {:induction false} ReadingIs(ps: seq<Packet>, maxXfer: nat) returns (e: nat, n: nat)
    requires maxXfer > 0
    ensures e <= |ps| && (forall i: nat | i < e :: ps[i] == []) && (e < |ps| ==> ps[e] != [])
    ensures if e == |ps| then Reading(ps, maxXfer) == Waiting
            else if |ps[e]| == maxXfer <= 512 then Continues(ps[e], ps[e + 1..], maxXfer, n, Reading(ps, maxXfer))
            else if |ps[e]| > maxXfer || |ps[e]| > 512 then Reading(ps, maxXfer) == Overflow
            else Reading(ps, maxXfer) == Message(ps[e], ps[e + 1..])
    decreases |ps|
  {
    hide More, Continues;
    e, n := 0, 0;
    if ps != [] {
      if ps[0] == [] {
        e, n := ReadingIs(ps[1..], maxXfer);
        assert forall i: nat | 0 < i < e + 1 :: ps[i] == ps[1..][i - 1];
        assert e < |ps[1..]| ==> ps[1..][e + 1..] == ps[e + 2..];
        e := e + 1;
      } else if |ps[0]| == maxXfer <= 512 {
        n := MoreContinues(ps[0], ps[1..], maxXfer);
      }
    }
  }

  // The reader thread up to the message it passes on.
  method ReadMessage(packets: seq<Packet>, maxXfer: nat, buf: array<byte>)
      returns (result: ReadResult)
    requires maxXfer > 0 && buf.Length == MAX_MESSAGE
    modifies buf
    ensures result == Reading(packets, maxXfer)
    ensures result.Message? ==> |result.text| <= MAX_MESSAGE && buf[..|result.text|] == result.text
  {
    var queue := packets;
    while true
      invariant Reading(queue, maxXfer) == Reading(packets, maxXfer)
      decreases |queue|
    {
      if queue == [] {
        return Waiting;
      }
      var p := queue[0];
      queue := queue[1..];
      if p != [] {
        if |p| > Min(MAX_MESSAGE, maxXfer) {
          return Overflow;
        }
        Put(buf, 0, p);
        assert buf[..|p|] == p;
        result := ReadOn(queue, maxXfer, buf, |p|);
        return;
      }
    }
  }

  method Put(buf: array<byte>, at: nat, p: Packet)
    requires at + |p| <= buf.Length
    modifies buf
    ensures buf[..at + |p|] == old(buf[..at]) + p
  {
    forall i | 0 <= i < |p| {
      buf[at + i] := p[i];
    }
  }

  // The rest of a message whose first packet is in the buffer.
  method ReadOn(packets: seq<Packet>, maxXfer: nat, buf: array<byte>, first: nat) returns (result: ReadResult)
    requires 0 < first <= Min(MAX_MESSAGE, maxXfer) && buf.Length == MAX_MESSAGE
    modifies buf
    ensures result == if first < maxXfer then Message(old(buf[..first]), packets)
                      else More(old(buf[..first]), packets, maxXfer)
    ensures result.Message? ==> |result.text| <= MAX_MESSAGE && buf[..|result.text|] == result.text
  {
    var queue, pktLen, needMore := packets, first, first == maxXfer;
    while needMore
      invariant first <= pktLen <= MAX_MESSAGE
      invariant needMore ==>
        first == maxXfer && More(buf[..pktLen], queue, maxXfer) == More(old(buf[..first]), packets, maxXfer)
      invariant !needMore ==> if first < maxXfer then buf[..pktLen] == old(buf[..first]) && queue == packets
                              else Message(buf[..pktLen], queue) == More(old(buf[..first]), packets, maxXfer)
      decreases needMore, |queue|
    {
      var maxLen := Min(MAX_MESSAGE - pktLen, maxXfer);
      if queue == [] {
        return Waiting;
      }
      var p := queue[0];
      if |p| > maxLen {
        return Overflow;
      }
      queue := queue[1..];
      Put(buf, pktLen, p);
      if p == [] {
        break;
      }
      needMore := |p| == maxXfer;
      pktLen := pktLen + |p|;
      if pktLen == MAX_MESSAGE {
        break;
      }
    }
    result := Message(buf[..pktLen], queue);
  }

  // ----- both together

  // The reader has the message back from the writer's packets.  Only a message that
  // fills the buffer in full packets leaves its empty packet behind.
  lemma {:induction false} ReadingPackets(m: seq<byte>, maxXfer: nat, next: seq<Packet>)
    requires 0 < |m| <= 512 && maxXfer > 0
    ensures Reading(Packets(m, maxXfer) + next, maxXfer) ==
            Message(m, if |m| == MAX_MESSAGE && Packets(m, maxXfer)[|Packets(m, maxXfer)| - 1] == [] && |m| != maxXfer
                       then [[]] + next else next)
  {
    var ps := Packets(m, maxXfer);
    if |m| < maxXfer {
      assert (ps + next)[1..] == next;
    } else {
      assert (ps + next)[1..] == Packets(m[maxXfer..], maxXfer) + next;
      MorePackets(m[..maxXfer], m[maxXfer..], maxXfer, next);
      assert m == m[..maxXfer] + m[maxXfer..];
    }
  }

  lemma {:induction false} MorePackets(got: seq<byte>, m: seq<byte>, maxXfer: nat, next: seq<Packet>)
    requires 0 < maxXfer <= |got| && |got| + |m| <= MAX_MESSAGE
    ensures More(got, Packets(m, maxXfer) + next, maxXfer) ==
            Message(got + m, if |got| + |m| == MAX_MESSAGE && m != [] &&
                                Packets(m, maxXfer)[|Packets(m, maxXfer)| - 1] == []
                             then [[]] + next else next)
    decreases |m|
  {
    var ps := Packets(m, maxXfer);
    var rest := (ps + next)[1..];
    if |m| < maxXfer {
      assert rest == next;
    } else {
      assert rest == Packets(m[maxXfer..], maxXfer) + next;
      assert got + m == (got + m[..maxXfer]) + m[maxXfer..];
      if |got| + maxXfer < MAX_MESSAGE {
        MorePackets(got + m[..maxXfer], m[maxXfer..], maxXfer, next);
      } else {
        assert m[maxXfer..] == [];
      }
    }
  }

  function AllPackets(ms: seq<seq<byte>>, maxXfer: nat): seq<Packet>
    requires maxXfer > 0
  {
    if ms == [] then [] else Packets(ms[0], maxXfer) + AllPackets(ms[1..], maxXfer)
  }

  // Everything the reader makes of a stream of packets.
  function AllRead(ps: seq<Packet>, maxXfer: nat): seq<seq<byte>>
    decreases |ps|
  {
    var r := Reading(ps, maxXfer);
    if r.Message? then [r.text] + AllRead(r.rest, maxXfer) else []
  }

  lemma EmptyPacketIsDropped(ps: seq<Packet>, maxXfer: nat)
    ensures AllRead([[]] + ps, maxXfer) == AllRead(ps, maxXfer)
  {
  }

  // A stream of messages, none empty and none too long, arrives as it was sent.
  lemma {:induction false} StreamRoundTrip(ms: seq<seq<byte>>, maxXfer: nat)
    requires maxXfer > 0 && forall m | m in ms :: 0 < |m| <= 512
    ensures AllRead(AllPackets(ms, maxXfer), maxXfer) == ms
  {
    hide Reading, Packets;
    if ms != [] {
      var next := AllPackets(ms[1..], maxXfer);
      ReadingPackets(ms[0], maxXfer, next);
      StreamRoundTrip(ms[1..], maxXfer);
      EmptyPacketIsDropped(next, maxXfer);
      assert ms == [ms[0]] + ms[1..];
    }
  }
}
