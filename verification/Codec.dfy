/** The serializer and the parser: buffers that grow, sizes patched in afterwards, and
    offsets that advance by declared sizes. */
module Codec {
  import opened Common
  import opened Messages
  import opened Wire
  import T = TimeCodes

  // ---- Writing ----

  /** Fails exactly on packets that cannot be written; otherwise gives their bytes. */
  method SerializePacket(p: Packet) returns (r: Option<Bytes>)
    ensures r == if PacketOk(p) then Some(PacketBytes(p)) else None
  {
    hide MessagesOk, MessagesBytes, U16;
    var body := SerializeMessages(p.messages);
    if body == None {
      return None;
    }
    var buf: Bytes := U16(0) + U16(p.header.seqNum) + body.value;
    if |buf| > MAX_SIZE {
      return None;
    }
    var size := U16(|buf|);
    ghost var back := U16(p.header.seqNum) + body.value;
    Patch([], U16(0), size, back);
    assert buf == [] + U16(0) + back;
    assert [] + size + back == PacketBytes(p);
    r := Some(buf[0 := size[0]][1 := size[1]]);
  }

  /** The message loop of the serializer. */
  method SerializeMessages(ms: seq<Message>) returns (r: Option<Bytes>)
    ensures r == if MessagesOk(ms) then Some(MessagesBytes(ms)) else None
  {
    hide MessageOk, MessageBytes;
    var buf: Bytes := [];
    for i := 0 to |ms|
      invariant MessagesOk(ms[..i]) && buf == MessagesBytes(ms[..i])
    {
      var msg := SerializeMessage(ms[i]);
      if msg == None {
        return None;
      }
      MessagesBytesSnoc(ms, i);
      buf := buf + msg.value;
    }
    assert ms[..|ms|] == ms;
    r := Some(buf);
  }

  /** Overwriting a two-byte field. */
  lemma Patch(front: Bytes, x: Bytes, y: Bytes, back: Bytes)
    requires |x| == 2 && |y| == 2
    ensures (front + x + back)[|front| := y[0]][|front| + 1 := y[1]] == front + y + back
  {}

  lemma MessagesBytesSnoc(ms: seq<Message>, i: nat)
    requires i < |ms| && MessagesOk(ms[..i]) && MessageOk(ms[i])
    ensures MessagesOk(ms[..i + 1]) && MessagesBytes(ms[..i + 1]) == MessagesBytes(ms[..i]) + MessageBytes(ms[i])
  {
    assert ms[..i + 1] == ms[..i] + [ms[i]];
    assert ms[..i + 1][..i] == ms[..i];
  }

  method SerializeMessage(m: Message) returns (r: Option<Bytes>)
    ensures r == if MessageOk(m) then Some(MessageBytes(m)) else None
  {
    hide BodyOk, BodyBytes, U16, IPBytes, T.Encode;
    var vtime := T.EncodeTimeVal(m.header.vtime);
    var head: Bytes := [m.header.msgType, vtime];
    if !m.header.originator.V4? {
      return None;
    }
    var buf: Bytes := head + U16(0) + (IPBytes(m.header.originator) + [m.header.ttl, m.header.hopCount] + U16(m.header.seqNum));
    assert buf == head + U16(0) + AfterSize(m.header);
    var body := SerializeBody(m.body);
    if body == None {
      return None;
    }
    buf := buf + body.value;
    if |buf| > MAX_SIZE {
      return None;
    }
    var size := U16(|buf|);
    Patch(head, U16(0), size, AfterSize(m.header) + body.value);
    assert buf == head + U16(0) + (AfterSize(m.header) + body.value);
    assert head + size + (AfterSize(m.header) + body.value) == MessageBytes(m);
    r := Some(buf[2 := size[0]][3 := size[1]]);
  }

  method SerializeBody(body: Body) returns (r: Option<Bytes>)
    ensures r == if BodyOk(body) then Some(BodyBytes(body)) else None
  {
    match body {
      case Hello(h) =>
        r := SerializeHello(h);
      case Topology(ansn, ips) =>
        var ok, buf := AppendIPs(U16(ansn) + [0, 0], ips);
        r := if ok then Some(buf) else None;
      case Interfaces(ips) =>
        var ok, buf := AppendIPs([], ips);
        assert ok ==> [] + IPsBytes(ips) == IPsBytes(ips);
        r := if ok then Some(buf) else None;
      case Networks(l) =>
        r := SerializeHNA(l);
      case SourceClaim(s, g) =>
        r := if s.V4? && g.V4? then Some(IPBytes(s) + IPBytes(g)) else None;
      case ConfirmParent(s, g, p) =>
        r := if s.V4? && g.V4? && p.V4? then Some(IPBytes(s) + IPBytes(g) + IPBytes(p)) else None;
      case Raw(_) =>
        r := None;
    }
  }

  method AppendIPs(prefix: Bytes, ips: seq<IP>) returns (ok: bool, buf: Bytes)
    ensures ok <==> AllV4(ips)
    ensures ok ==> buf == prefix + IPsBytes(ips)
  {
    hide IPsBytes, IPBytes;
    buf := prefix;
    for i := 0 to |ips|
      invariant AllV4(ips[..i]) && buf == prefix + IPsBytes(ips[..i])
    {
      if !ips[i].V4? {
        return false, buf;
      }
      IPsStep(ips, i);
      buf := buf + IPBytes(ips[i]);
    }
    assert ips[..|ips|] == ips;
    ok := true;
  }

  lemma IPsStep(ips: seq<IP>, i: nat)
    requires i < |ips| && AllV4(ips[..i]) && ips[i].V4?
    ensures AllV4(ips[..i + 1]) && IPsBytes(ips[..i + 1]) == IPsBytes(ips[..i]) + IPBytes(ips[i])
  {
    assert ips[..i + 1][..i] == ips[..i] && ips[..i + 1][i] == ips[i];
  }

  method SerializeHNA(l: seq<Association>) returns (r: Option<Bytes>)
    ensures r == if AssociationsOk(l) then Some(AssociationsBytes(l)) else None
  {
    var buf: Bytes := [];
    for i := 0 to |l|
      invariant AssociationsOk(l[..i]) && buf == AssociationsBytes(l[..i])
    {
      if !l[i].address.V4? || !l[i].mask.V4? {
        return None;
      }
      assert l[..i + 1][..i] == l[..i] && l[..i + 1][i] == l[i];
      buf := buf + IPBytes(l[i].address);
      buf := buf + IPBytes(l[i].mask);
    }
    assert l[..|l|] == l;
    r := Some(buf);
  }

  method SerializeHello(h: HelloMessage) returns (r: Option<Bytes>)
    ensures r == if BodyOk(Hello(h)) then Some(BodyBytes(Hello(h))) else None
  {
    hide LinkOk, LinkBytes, T.Encode;
    var htime := T.EncodeTimeVal(h.htime);
    var head: Bytes := [0, 0, htime, h.willingness];
    var buf: Bytes := head;
    for i := 0 to |h.links|
      invariant LinksOk(h.links[..i]) && buf == head + LinksBytes(h.links[..i])
    {
      var link := SerializeLink(h.links[i]);
      if link == None {
        assert !LinksOk(h.links);
        return None;
      }
      assert h.links[..i + 1][..i] == h.links[..i] && h.links[..i + 1][i] == h.links[i];
      buf := buf + link.value;
    }
    assert h.links[..|h.links|] == h.links;
    r := Some(buf);
  }

  method SerializeLink(l: LinkMessage) returns (r: Option<Bytes>)
    ensures r == if LinkOk(l) then Some(LinkBytes(l)) else None
  {
    hide U16, AllV4, IPsBytes;
    var ok, buf := AppendIPs([l.linkCode, 0] + U16(0), l.addresses);
    if !ok || |buf| > MAX_SIZE {
      return None;
    }
    var size := U16(|buf|);
    Patch([l.linkCode, 0], U16(0), size, IPsBytes(l.addresses));
    r := Some(buf[2 := size[0]][3 := size[1]]);
  }

  // ---- Reading ----

  /** Puts what was read so far in front of what the rest is read as. */
  function Prepend<A>(xs: seq<A>, rest: Parsed<seq<A>>): Parsed<seq<A>> {
    match rest
    case Ok(ys) => Ok(xs + ys)
    case Err => Err
    case Panic => Panic
  }

  lemma PrependCons<A>(xs: seq<A>, x: A, rest: Parsed<seq<A>>)
    ensures Prepend(xs, Cons(x, rest)) == Prepend(xs + [x], rest)
  {
    if rest.Ok? {
      assert xs + ([x] + rest.value) == xs + [x] + rest.value;
    }
  }

  method DeserializePacket(data: Bytes) returns (r: Parsed<Packet>)
    ensures r == ReadPacket(data)
  {
    if |data| < 4 {
      return Err;
    }
    var pktLen := AsU16(data[0], data[1]);
    if pktLen < 4 || |data| < pktLen {
      return Err;
    }
    var messages := DeserializeMessages(data, pktLen);
    match messages {
      case Ok(ms) => r := Ok(Packet(PacketHeader(pktLen, AsU16(data[2], data[3])), ms));
      case Err => r := Err;
      case Panic => r := Panic;
    }
  }

  /** The message loop of the parser. */
  method DeserializeMessages(data: Bytes, pktLen: nat) returns (r: Parsed<seq<Message>>)
    requires 4 <= pktLen <= |data|
    ensures r == ReadMessages(data, pktLen, 4)
  {
    hide ReadMessage, ReadMessages, DeclaredSize;
    var offset := 4;
    var messages: seq<Message> := [];
    PrependNone(ReadMessages(data, pktLen, 4));
    while offset < pktLen
      invariant 4 <= offset <= pktLen
      invariant ReadMessages(data, pktLen, 4) == Prepend(messages, ReadMessages(data, pktLen, offset))
      decreases pktLen - offset
    {
      var rest, m, size := NextMessage(data, pktLen, offset);
      if rest != Ok([]) {
        return rest;
      }
      PrependCons(messages, m, ReadMessages(data, pktLen, offset + size));
      messages := messages + [m];
      offset := offset + size;
    }
    MessagesEnd(data, pktLen, offset);
    assert messages + [] == messages;
    r := Ok(messages);
  }

  lemma PrependNone<A>(rest: Parsed<seq<A>>)
    ensures Prepend([], rest) == rest
  {
    if rest.Ok? {
      assert [] + rest.value == rest.value;
    }
  }

  lemma MessagesEnd(data: Bytes, pktLen: nat, offset: nat)
    requires pktLen <= |data| && pktLen <= offset
    ensures ReadMessages(data, pktLen, offset) == Ok([])
  {}

  /** One turn of the message loop: the outcome that ends it, or the message and size
      with which it goes on. */
  method NextMessage(data: Bytes, pktLen: nat, offset: nat) returns (stop: Parsed<seq<Message>>, m: Message, size: nat)
    requires offset < pktLen <= |data|
    ensures stop != Ok([]) ==> !stop.Ok? && ReadMessages(data, pktLen, offset) == stop
    ensures stop == Ok([]) ==> 12 <= size && offset + size <= pktLen
                               && ReadMessages(data, pktLen, offset) == Cons(m, ReadMessages(data, pktLen, offset + size))
  {
    hide ReadBody, ReadIP, T.Decode;
    m, size := Message(MessageHeader(0, 0, V4(0), 0, 0, 0), Raw([])), 0;
    if |data| - offset < 12 {
      return Err, m, size;
    }
    size := AsU16(data[offset + 2], data[offset + 3]);
    if offset + size > pktLen {
      return Err, m, size;
    }
    if size < 12 {
      return Panic, m, size;
    }
    var b := data[offset..offset + size];
    var parsed := DeserializeBody(b[0], b[12..]);
    match parsed {
      case Ok(body) =>
        var vtime := T.DecodeTimeVal(b[1]);
        m := Message(MessageHeader(b[0], vtime, ReadIP(b[4..8]), b[8], b[9], AsU16(b[10], b[11])), body);
        assert ReadMessage(b) == Ok(m);
        stop := Ok([]);
      case Err => stop := Err;
      case Panic => stop := Panic;
    }
  }

  method DeserializeBody(msgType: uint8, b: Bytes) returns (r: Parsed<Body>)
    ensures r == ReadBody(msgType, b)
  {
    if msgType == HELLO {
      r := DeserializeHello(b);
    } else if msgType == TC {
      if |b| < 4 || (|b| - 4) % 4 != 0 {
        return Err;
      }
      var addrs := DeserializeIPs(b[4..]);
      r := Ok(Topology(AsU16(b[0], b[1]), addrs));
    } else if msgType == MID {
      if |b| % 4 != 0 {
        return Err;
      }
      var addrs := DeserializeIPs(b);
      r := Ok(Interfaces(addrs));
    } else if msgType == HNA {
      if |b| % 8 != 0 {
        return Err;
      }
      var assocs := DeserializeAssociations(b);
      r := Ok(Networks(assocs));
    } else if msgType == SOURCE_CLAIM {
      r := if |b| < 8 then Err else Ok(SourceClaim(ReadIP(b[0..4]), ReadIP(b[4..8])));
    } else if msgType == CONFIRM_PARENT {
      r := if |b| < 12 then Err else Ok(ConfirmParent(ReadIP(b[0..4]), ReadIP(b[4..8]), ReadIP(b[8..12])));
    } else {
      r := Ok(Raw(b));
    }
  }

  method DeserializeIPs(b: Bytes) returns (addrs: seq<IP>)
    requires |b| % 4 == 0
    ensures addrs == ReadIPs(b)
  {
    addrs := [];
    for i := 0 to |b| / 4
      invariant addrs == ReadIPs(b[..4 * i])
    {
      var next := b[..4 * (i + 1)];
      assert next[..|next| - 4] == b[..4 * i] && next[|next| - 4..] == b[4 * i..4 * (i + 1)];
      addrs := addrs + [ReadIP(b[4 * i..4 * (i + 1)])];
    }
    assert b[..4 * (|b| / 4)] == b;
  }

  method DeserializeAssociations(b: Bytes) returns (assocs: seq<Association>)
    requires |b| % 8 == 0
    ensures assocs == ReadAssociations(b)
  {
    assocs := [];
    for i := 0 to |b| / 8
      invariant assocs == ReadAssociations(b[..8 * i])
    {
      var next := b[..8 * (i + 1)];
      var record := b[8 * i..8 * (i + 1)];
      assert next[..|next| - 8] == b[..8 * i] && next[|next| - 8..] == record;
      var addr, mask := ReadIP(record[..4]), ReadIP(record[4..]);
      assocs := assocs + [Association(addr, addr, mask)];
    }
    assert b[..8 * (|b| / 8)] == b;
  }

  method DeserializeHello(b: Bytes) returns (r: Parsed<Body>)
    ensures r == ReadHello(b)
  {
    hide ReadLinks, ReadLink;
    if |b| < 4 {
      return Err;
    }
    var htime := T.DecodeTimeVal(b[2]);
    var links: seq<LinkMessage> := [];
    var offset := 4;
    PrependNone(ReadLinks(b, 4));
    while offset < |b|
      invariant 4 <= offset <= |b|
      invariant ReadLinks(b, 4) == Prepend(links, ReadLinks(b, offset))
      decreases |b| - offset
    {
      NextLink(b, offset);
      if |b| - offset < 4 {
        return Err;
      }
      var size := AsU16(b[offset + 2], b[offset + 3]);
      if offset + size > |b| {
        return Err;
      }
      if size < 4 {
        return Panic;
      }
      var addrData := b[offset + 4..offset + size];
      if |addrData| % 4 != 0 {
        return Err;
      }
      var addrs := DeserializeIPs(addrData);
      var l := LinkMessage(b[offset], addrs);
      PrependCons(links, l, ReadLinks(b, offset + size));
      links := links + [l];
      offset := offset + size;
    }
    NoMoreLinks(b);
    assert links + [] == links;
    r := Ok(Hello(HelloMessage(htime, b[3], links)));
  }

  lemma NoMoreLinks(b: Bytes)
    ensures ReadLinks(b, |b|) == Ok([])
  {}

  /** What is read at an offset inside the body. */
  lemma NextLink(b: Bytes, off: nat)
    requires off < |b|
    ensures |b| - off < 4 ==> ReadLinks(b, off) == Err
    ensures |b| - off >= 4 ==>
              var size := DeclaredLinkSize(b, off);
              && (off + size > |b| ==> ReadLinks(b, off) == Err)
              && (off + size <= |b| && size < 4 ==> ReadLinks(b, off) == Panic)
              && (off + size <= |b| && size >= 4 ==>
                    ReadLinks(b, off) == if (size - 4) % 4 != 0 then Err
                                         else Cons(LinkMessage(b[off], ReadIPs(b[off + 4..off + size])), ReadLinks(b, off + size)))
  {
    if |b| - off >= 4 {
      var size := DeclaredLinkSize(b, off);
      if off + size <= |b| && size >= 4 {
        assert b[off..off + size][4..] == b[off + 4..off + size];
      }
    }
  }
}
