/** The packet format in numbers: at which byte each field stands, which number each kind
    of message has, and what any bytes are read as. */
module Layouts {
  import opened Common
  import opened Messages
  import opened Wire
  import WireProofs
  import T = TimeCodes

  /** Two bytes in network order. */
  function Short(b: Bytes, i: nat): (r: int)
    requires i + 2 <= |b|
    ensures 0 <= r < 0x1_0000
  {
    (b[i] as int) * 256 + b[i + 1] as int
  }

  /** Four bytes in network order. */
  function Long(b: Bytes, i: nat): (r: int)
    requires i + 4 <= |b|
    ensures 0 <= r < 0x1_0000_0000
  {
    (b[i] as int) * 16777216 + (b[i + 1] as int) * 65536 + (b[i + 2] as int) * 256 + b[i + 3] as int
  }

  /** n addresses from byte i on, `step` bytes apart. */
  ghost predicate AddressesAt(b: Bytes, i: nat, step: nat, ips: seq<IP>) {
    forall k :: 0 <= k < |ips| ==> i + step * k + 4 <= |b| && ips[k] == V4(Long(b, i + step * k))
  }

  // ---- Small pieces ----

  lemma ShortIs(b: Bytes, i: nat)
    requires i + 2 <= |b|
    ensures AsU16(b[i], b[i + 1]) == Short(b, i)
  {}

  lemma LongIs(b: Bytes, i: nat)
    requires i + 4 <= |b|
    ensures ReadIP(b[i..i + 4]) == V4(Long(b, i))
  {}

  lemma {:induction false} ReadIPsAt(b: Bytes, i: nat, n: nat)
    requires i + 4 * n <= |b|
    ensures |ReadIPs(b[i..i + 4 * n])| == n && AddressesAt(b, i, 4, ReadIPs(b[i..i + 4 * n]))
  {
    hide ReadIP, Long;
    var slice := b[i..i + 4 * n];
    if n > 0 {
      var at := i + 4 * (n - 1);
      ReadIPsAt(b, i, n - 1);
      assert slice[..|slice| - 4] == b[i..at] && slice[|slice| - 4..] == b[at..at + 4];
      LongIs(b, at);
    }
  }

  lemma AssociationAt(b: Bytes, at: nat)
    requires at + 8 <= |b|
    ensures ReadAssociation(b[at..at + 8]) == Association(V4(Long(b, at)), V4(Long(b, at)), V4(Long(b, at + 4)))
  {
    var record := b[at..at + 8];
    assert record[..4] == b[at..at + 4] && record[4..] == b[at + 4..at + 4 + 4];
    LongIs(b, at);
    LongIs(b, at + 4);
  }

  lemma {:induction false} ReadAssociationsAt(b: Bytes, i: nat, n: nat)
    requires i + 8 * n <= |b|
    ensures var l := ReadAssociations(b[i..i + 8 * n]);
            |l| == n && forall k :: 0 <= k < n ==>
              l[k] == Association(V4(Long(b, i + 8 * k)), V4(Long(b, i + 8 * k)), V4(Long(b, i + 8 * k + 4)))
  {
    hide ReadAssociation, Long;
    var slice := b[i..i + 8 * n];
    if n > 0 {
      ReadAssociationsAt(b, i, n - 1);
      var at := i + 8 * (n - 1);
      assert slice[..|slice| - 8] == b[i..at] && slice[|slice| - 8..] == b[at..at + 8];
      AssociationAt(b, at);
    }
  }

  // ---- Reading ----

  /** The header of a message that starts at byte 0. */
  lemma HeaderAt(b: Bytes)
    requires |b| >= 12
    ensures var h := ReadHeader(b);
            && h.msgType == b[0]
            && h.originator == V4(Long(b, 4)) && h.ttl == b[8] && h.hopCount == b[9] && h.seqNum == Short(b, 10)
            && h.vtime == 3750000 * (16 + b[1] / 16) * Ten(b[1] % 16)
  {
    LongIs(b, 4);
    TimeInNumbers(b[1]);
  }

  function Ten(n: nat): nat {
    if n == 0 then 1 else 10 * Ten(n - 1)
  }

  lemma {:induction false} ScaledIsTen(x: nat, n: nat)
    ensures T.Scaled(x, n) == x * Ten(n)
  {
    if n > 0 {
      ScaledIsTen(x, n - 1);
      assert 10 * (x * Ten(n - 1)) == x * (10 * Ten(n - 1));
    }
  }

  /** A time code's mantissa is in the high four bits, its power of ten in the low four. */
  lemma TimeInNumbers(c: uint8)
    ensures T.Decode(c) == 3750000 * (16 + c / 16) * Ten(c % 16)
  {
    ScaledIsTen(3750000 * (16 + c / 16), c % 16);
  }

  /** Number 1 is a HELLO: a reserved short, the code of its interval, the willingness, and
      link messages from byte 4 of the body on. */
  lemma Reads1(b: Bytes)
    requires |b| >= 12 && b[0] == 1
    ensures ReadMessage(b).Ok? ==>
              && |b| >= 16 && ReadMessage(b).value.body.Hello?
              && var h := ReadMessage(b).value.body.hello;
                 h.willingness == b[15] && h.htime == T.Decode(b[14]) && ReadLinks(b[12..], 4) == Ok(h.links)
    ensures |b| < 16 ==> ReadMessage(b).Err?
  {
    hide ReadLinks, T.Decode;
  }

  /** One link message: its code, an unused byte, its whole size, and addresses. */
  lemma LinkAt(b: Bytes, n: nat)
    requires |b| == 4 + 4 * n
    ensures ReadLink(b).Ok? && ReadLink(b).value.linkCode == b[0]
    ensures |ReadLink(b).value.addresses| == n && AddressesAt(b, 4, 4, ReadLink(b).value.addresses)
  {
    ReadIPsAt(b, 4, n);
    assert b[4..4 + 4 * n] == b[4..];
  }

  /** Number 2 is a topology message: a sequence number, an unused short, addresses. */
  lemma Reads2(b: Bytes)
    requires |b| >= 12 && b[0] == 2
    ensures ReadMessage(b).Ok? <==> |b| >= 16 && (|b| - 16) % 4 == 0
    ensures !ReadMessage(b).Ok? ==> ReadMessage(b).Err?
    ensures ReadMessage(b).Ok? ==>
              && ReadMessage(b).value.body.Topology?
              && var t := ReadMessage(b).value.body;
                 t.ansn == Short(b, 12) && |t.neighbors| == (|b| - 16) / 4 && AddressesAt(b, 16, 4, t.neighbors)
  {
    if |b| >= 16 && (|b| - 16) % 4 == 0 {
      var n := (|b| - 16) / 4;
      ReadIPsAt(b, 16, n);
      assert b[12..][4..] == b[16..16 + 4 * n];
    }
  }

  /** Number 3 declares interfaces: addresses only. */
  lemma Reads3(b: Bytes)
    requires |b| >= 12 && b[0] == 3
    ensures ReadMessage(b).Ok? <==> |b| % 4 == 0
    ensures !ReadMessage(b).Ok? ==> ReadMessage(b).Err?
    ensures ReadMessage(b).Ok? ==>
              && ReadMessage(b).value.body.Interfaces?
              && var ips := ReadMessage(b).value.body.addresses;
                 |ips| == (|b| - 12) / 4 && AddressesAt(b, 12, 4, ips)
  {
    if |b| % 4 == 0 {
      var n := (|b| - 12) / 4;
      ReadIPsAt(b, 12, n);
      assert b[12..] == b[12..12 + 4 * n];
    }
  }

  /** Number 4 announces networks: pairs of address and mask. */
  lemma Reads4(b: Bytes)
    requires |b| >= 12 && b[0] == 4
    ensures ReadMessage(b).Ok? <==> (|b| - 12) % 8 == 0
    ensures !ReadMessage(b).Ok? ==> ReadMessage(b).Err?
    ensures ReadMessage(b).Ok? ==>
              && ReadMessage(b).value.body.Networks?
              && var l := ReadMessage(b).value.body.associations;
                 |l| == (|b| - 12) / 8 && forall k :: 0 <= k < |l| ==>
                   l[k].address == V4(Long(b, 12 + 8 * k)) && l[k].mask == V4(Long(b, 12 + 8 * k + 4))
  {
    if (|b| - 12) % 8 == 0 {
      var n := (|b| - 12) / 8;
      ReadAssociationsAt(b, 12, n);
      assert b[12..] == b[12..12 + 8 * n];
    }
  }

  /** Number 108 is a source claim, 109 a confirmation of a parent; what follows their
      addresses is ignored. */
  lemma Reads108And109(b: Bytes)
    requires |b| >= 12
    ensures b[0] == 108 ==> (ReadMessage(b).Ok? <==> |b| >= 20) && (|b| < 20 ==> ReadMessage(b).Err?)
    ensures b[0] == 108 && |b| >= 20 ==> ReadMessage(b).value.body == SourceClaim(V4(Long(b, 12)), V4(Long(b, 16)))
    ensures b[0] == 109 ==> (ReadMessage(b).Ok? <==> |b| >= 24) && (|b| < 24 ==> ReadMessage(b).Err?)
    ensures b[0] == 109 && |b| >= 24 ==>
              ReadMessage(b).value.body == ConfirmParent(V4(Long(b, 12)), V4(Long(b, 16)), V4(Long(b, 20)))
  {
    var body := b[12..];
    if |b| >= 20 {
      assert body[..4] == b[12..12 + 4] && body[4..8] == b[16..16 + 4];
      LongIs(b, 12);
      LongIs(b, 16);
    }
    if |b| >= 24 {
      assert body[8..12] == b[20..20 + 4];
      LongIs(b, 20);
    }
  }

  /** Any other number is read as its bytes, and is never an error. */
  lemma ReadsOthers(b: Bytes)
    requires |b| >= 12 && b[0] !in {1, 2, 3, 4, 108, 109}
    ensures ReadMessage(b) == Ok(Message(ReadHeader(b), Raw(b[12..])))
  {}

  /** So a message of unknown type leaves the rest of its packet as readable as it is. */
  lemma UnknownIsSkipped(data: Bytes, pktLen: nat, off: nat)
    requires off + 12 <= pktLen <= |data| && data[off] !in {1, 2, 3, 4, 108, 109}
    requires 12 <= Short(data, off + 2) && off + Short(data, off + 2) <= pktLen
    ensures var end := off + Short(data, off + 2);
            && (ReadMessages(data, pktLen, off).Ok? <==> ReadMessages(data, pktLen, end).Ok?)
            && (ReadMessages(data, pktLen, off).Panic? <==> ReadMessages(data, pktLen, end).Panic?)
            && (ReadMessages(data, pktLen, end).Ok? ==>
                  ReadMessages(data, pktLen, off).value[1..] == ReadMessages(data, pktLen, end).value)
  {
    var size := Short(data, off + 2);
    var b := data[off..off + size];
    ReadsOthers(b);
    hide ReadMessage, ReadMessages;
    WireProofs.ReadMessagesStep(data, pktLen, off, size, Message(ReadHeader(b), Raw(b[12..])));
  }

  /** A packet: its whole length, its number, then messages from byte 4 up to that length;
      each takes as many bytes as its own second short says. */
  lemma PacketAt(data: Bytes)
    ensures |data| < 4 ==> ReadPacket(data).Err?
    ensures |data| >= 4 && (Short(data, 0) < 4 || Short(data, 0) > |data|) ==> ReadPacket(data).Err?
    ensures ReadPacket(data).Ok? ==>
              && ReadPacket(data).value.header == PacketHeader(Short(data, 0), Short(data, 2))
              && ReadMessages(data, Short(data, 0), 4) == Ok(ReadPacket(data).value.messages)
  {
    hide ReadMessages;
  }

  lemma MessageAt(data: Bytes, pktLen: nat, off: nat)
    requires off + 12 <= pktLen <= |data| && 12 <= Short(data, off + 2) && off + Short(data, off + 2) <= pktLen
    requires ReadMessages(data, pktLen, off).Ok?
    ensures var size := Short(data, off + 2); var ms := ReadMessages(data, pktLen, off).value;
            ms != [] && ReadMessage(data[off..off + size]) == Ok(ms[0])
  {
    hide ReadMessage;
  }

  /** Twenty-four bytes that are a packet of one topology message. */
  lemma TopologyPacket(data: Bytes)
    requires |data| == 24 && Short(data, 0) == 24 && data[4] == 2 && Short(data, 6) == 20
    ensures ReadPacket(data).Ok?
    ensures var p := ReadPacket(data).value;
            && |p.messages| == 1 && p.messages[0].header.msgType == 2
            && p.messages[0].header.originator == V4(Long(data, 8)) && p.messages[0].header.ttl == data[12]
            && p.messages[0].header.hopCount == data[13] && p.messages[0].header.seqNum == Short(data, 14)
            && p.messages[0].body == Topology(Short(data, 16), [V4(Long(data, 20))])
  {
    var b := data[4..24];
    HeaderAt(b);
    Reads2(b);
    SubLong(data, 4, 24, 4);
    SubLong(data, 4, 24, 16);
    assert b[8] == data[12] && b[9] == data[13] && b[10] == data[14] && b[11] == data[15] && b[12] == data[16] && b[13] == data[17];
    hide ReadMessage, ReadMessages, Long;
    var m := ReadMessage(b).value;
    assert m.body.neighbors[0] == V4(Long(b, 16 + 4 * 0));
    assert m.body.neighbors == [V4(Long(data, 20))];
    OneMessage(data, 24, 4, 20, m);
  }

  lemma SubLong(data: Bytes, from: nat, to: nat, i: nat)
    requires from + i + 4 <= to <= |data|
    ensures Long(data[from..to], i) == Long(data, from + i)
  {}

  lemma OneMessage(data: Bytes, pktLen: nat, off: nat, size: nat, m: Message)
    requires off + size == pktLen <= |data| && size >= 12 && DeclaredSize(data, off) == size
    requires ReadMessage(data[off..off + size]) == Ok(m)
    ensures ReadMessages(data, pktLen, off) == Ok([m])
  {
    hide ReadMessage;
    assert ReadMessages(data, pktLen, pktLen) == Ok([]);
    WireProofs.ReadMessagesStep(data, pktLen, off, size, m);
    assert [m] + [] == [m];
  }

  // ---- Writing ----

  /** A message that can be written stands as its number, time code, whole length, originator
      and counts; its body follows. */
  lemma MessageLayout(m: Message)
    requires MessageOk(m)
    ensures var b := MessageBytes(m);
            && 12 <= |b| <= 65535
            && b[0] == m.header.msgType && b[1] == T.Encode(m.header.vtime) && Short(b, 2) == |b|
            && V4(Long(b, 4)) == m.header.originator && b[8] == m.header.ttl && b[9] == m.header.hopCount
            && Short(b, 10) == m.header.seqNum && b[12..] == BodyBytes(m.body)
  {
    hide T.Encode, BodyBytes, BodyOk;
    var b := MessageBytes(m);
    LongIs(b, 4);
    assert b[4..8] == IPBytes(m.header.originator);
    assert b[2..4] == U16(|b|) && b[10..12] == U16(m.header.seqNum);
    assert b[2..4][0] == b[2] && b[2..4][1] == b[3] && b[10..12][0] == b[10] && b[10..12][1] == b[11];
  }

  /** A well-typed message of each kind starts with that kind's number. */
  lemma WrittenNumber(m: Message)
    requires MessageOk(m) && WireProofs.WellTyped(m)
    ensures MessageBytes(m)[0] ==
              match m.body
              case Hello(_) => 1
              case Topology(_, _) => 2
              case Interfaces(_) => 3
              case Networks(_) => 4
              case SourceClaim(_, _) => 108
              case ConfirmParent(_, _, _) => 109
              case Raw(_) => 0
  {
    hide T.Encode, BodyBytes, BodyOk;
  }

  /** A packet that can be written: its length, its number, its messages one after the other. */
  lemma PacketLayout(p: Packet)
    requires PacketOk(p)
    ensures var b := PacketBytes(p);
            4 <= |b| <= 65535 && Short(b, 0) == |b| && Short(b, 2) == p.header.seqNum && b[4..] == MessagesBytes(p.messages)
    ensures forall q: Packet :: PacketOk(q) <==> MessagesOk(q.messages) && 4 + |MessagesBytes(q.messages)| <= 65535
  {
    hide MessagesOk, MessagesBytes;
    var b := PacketBytes(p);
    assert b[0..2] == U16(|b|) && b[2..4] == U16(p.header.seqNum);
    assert b[0..2][0] == b[0] && b[0..2][1] == b[1] && b[2..4][0] == b[2] && b[2..4][1] == b[3];
  }

  lemma LongSame(a: Bytes, i: nat, b: Bytes, j: nat)
    requires i + 4 <= |a| && j + 4 <= |b| && a[i..i + 4] == b[j..j + 4]
    ensures Long(a, i) == Long(b, j)
  {
    var x, y := a[i..i + 4], b[j..j + 4];
    assert x[0] == a[i] && x[1] == a[i + 1] && x[2] == a[i + 2] && x[3] == a[i + 3];
    assert y[0] == b[j] && y[1] == b[j + 1] && y[2] == b[j + 2] && y[3] == b[j + 3];
  }

  lemma WrittenAt(b: Bytes, i: nat, ip: IP)
    requires ip.V4? && i + 4 <= |b| && b[i..i + 4] == IPBytes(ip)
    ensures V4(Long(b, i)) == ip
  {
    LongIs(b, i);
  }

  lemma {:induction false} IPsLayout(ips: seq<IP>, front: Bytes)
    requires AllV4(ips)
    ensures AddressesAt(front + IPsBytes(ips), |front|, 4, ips)
  {
    forall k | 0 <= k < |ips|
      ensures |front| + 4 * k + 4 <= |front + IPsBytes(ips)| && ips[k] == V4(Long(front + IPsBytes(ips), |front| + 4 * k))
    {
      IPLayout(ips, front, k);
    }
  }

  lemma {:induction false} IPLayout(ips: seq<IP>, front: Bytes, k: nat)
    requires AllV4(ips) && k < |ips|
    ensures V4(Long(front + IPsBytes(ips), |front| + 4 * k)) == ips[k]
    decreases |ips|
  {
    hide Long, IPBytes;
    var n, at := |ips| - 1, |front| + 4 * k;
    var b, c := front + IPsBytes(ips[..n]), front + IPsBytes(ips);
    assert c == b + IPBytes(ips[n]);
    if k < n {
      IPLayout(ips[..n], front, k);
      assert c[at..at + 4] == b[at..at + 4];
      LongSame(c, at, b, at);
    } else {
      assert c[at..at + 4] == IPBytes(ips[n]);
      WrittenAt(c, at, ips[n]);
    }
  }

  /** The bodies that are written. */
  lemma BodyLayout(body: Body)
    requires BodyOk(body)
    ensures var b := BodyBytes(body);
            match body
            case Hello(h) => |b| >= 4 && b[0] == 0 && b[1] == 0 && b[2] == T.Encode(h.htime) && b[3] == h.willingness
                             && b[4..] == LinksBytes(h.links)
            case Topology(ansn, ips) => |b| == 4 + 4 * |ips| && Short(b, 0) == ansn && b[2] == 0 && b[3] == 0 && AddressesAt(b, 4, 4, ips)
            case Interfaces(ips) => |b| == 4 * |ips| && AddressesAt(b, 0, 4, ips)
            case Networks(l) => |b| == 8 * |l|
            case SourceClaim(s, g) => |b| == 8 && V4(Long(b, 0)) == s && V4(Long(b, 4)) == g
            case ConfirmParent(s, g, p) => |b| == 12 && V4(Long(b, 0)) == s && V4(Long(b, 4)) == g && V4(Long(b, 8)) == p
            case Raw(_) => true
  {
    hide T.Encode, LinksBytes;
    var b := BodyBytes(body);
    match body {
      case Topology(ansn, ips) =>
        IPsLayout(ips, U16(ansn) + [0, 0]);
        assert b[0..2] == U16(ansn) && b[0..2][0] == b[0] && b[0..2][1] == b[1];
      case Interfaces(ips) =>
        IPsLayout(ips, []);
        assert [] + IPsBytes(ips) == b;
      case SourceClaim(s, g) =>
        assert b[0..4] == IPBytes(s) && b[4..8] == IPBytes(g);
        LongIs(b, 0);
        LongIs(b, 4);
      case ConfirmParent(s, g, p) =>
        assert b[0..4] == IPBytes(s) && b[4..8] == IPBytes(g) && b[8..12] == IPBytes(p);
        LongIs(b, 0);
        LongIs(b, 4);
        LongIs(b, 8);
      case _ =>
    }
  }

  /** One link message that is written. */
  lemma LinkLayout(l: LinkMessage)
    requires LinkOk(l)
    ensures var b := LinkBytes(l);
            |b| == 4 + 4 * |l.addresses| && b[0] == l.linkCode && b[1] == 0 && Short(b, 2) == |b| && AddressesAt(b, 4, 4, l.addresses)
  {
    var b := LinkBytes(l);
    var front := [l.linkCode, 0] + U16(|b|);
    IPsLayout(l.addresses, front);
    assert b == front + IPsBytes(l.addresses);
    assert b[2..4] == U16(|b|) && b[2..4][0] == b[2] && b[2..4][1] == b[3];
  }

  lemma {:induction false} AssociationsLayout(l: seq<Association>, k: nat)
    requires AssociationsOk(l) && k < |l|
    ensures var b := AssociationsBytes(l); V4(Long(b, 8 * k)) == l[k].address && V4(Long(b, 8 * k + 4)) == l[k].mask
    decreases |l|
  {
    hide Long, IPBytes;
    var n := |l| - 1;
    var b, c := AssociationsBytes(l[..n]), AssociationsBytes(l);
    assert c == b + (IPBytes(l[n].address) + IPBytes(l[n].mask));
    if k < n {
      AssociationsLayout(l[..n], k);
      assert c[8 * k..8 * k + 4] == b[8 * k..8 * k + 4] && c[8 * k + 4..8 * k + 4 + 4] == b[8 * k + 4..8 * k + 4 + 4];
      LongSame(c, 8 * k, b, 8 * k);
      LongSame(c, 8 * k + 4, b, 8 * k + 4);
    } else {
      assert c[8 * k..8 * k + 4] == IPBytes(l[n].address) && c[8 * k + 4..8 * k + 4 + 4] == IPBytes(l[n].mask);
      WrittenAt(c, 8 * k, l[n].address);
      WrittenAt(c, 8 * k + 4, l[n].mask);
    }
  }

  /** What can be written: every address is IPv4, the kind is known, and no link message, no
      message and no packet is longer than 65535 bytes. */
  lemma WritableExactly(m: Message)
    ensures MessageOk(m) <==>
              && m.header.originator.V4?
              && (match m.body
                  case Hello(h) => forall i :: 0 <= i < |h.links| ==>
                    4 + 4 * |h.links[i].addresses| <= 65535 && forall k :: 0 <= k < |h.links[i].addresses| ==> h.links[i].addresses[k].V4?
                  case Topology(_, ips) => forall k :: 0 <= k < |ips| ==> ips[k].V4?
                  case Interfaces(ips) => forall k :: 0 <= k < |ips| ==> ips[k].V4?
                  case Networks(l) => forall k :: 0 <= k < |l| ==> l[k].address.V4? && l[k].mask.V4?
                  case SourceClaim(s, g) => s.V4? && g.V4?
                  case ConfirmParent(s, g, p) => s.V4? && g.V4? && p.V4?
                  case Raw(_) => false)
              && BodyOk(m.body) && 12 + |BodyBytes(m.body)| <= 65535
  {
    hide BodyBytes;
  }
}
