/** Round trips, tiling, panics and relaying for the packet format. */
module WireProofs {
  import opened Common
  import opened Messages
  import opened Wire
  import T = TimeCodes

  // ---- Sequences ----

  lemma Split<A>(a: seq<A>, b: seq<A>)
    ensures (a + b)[..|a|] == a && (a + b)[|a|..] == b
  {}

  /** What follows `off` starts with a and goes on with b. */
  lemma SliceOf<A>(s: seq<A>, off: nat, a: seq<A>, b: seq<A>)
    requires off <= |s| && s[off..] == a + b
    ensures off + |a| <= |s| && s[off..off + |a|] == a && s[off + |a|..] == b
  {
    assert s[off..][..|a|] == s[off..off + |a|];
    assert s[off..][|a|..] == s[off + |a|..];
  }

  lemma SliceIndex<A>(s: seq<A>, off: nat, b: seq<A>, i: nat)
    requires off + |b| <= |s| && s[off..off + |b|] == b && i < |b|
    ensures s[off + i] == b[i]
  {
    assert s[off..off + |b|][i] == s[off + i];
  }

  lemma Associate<A>(a: seq<A>, b: seq<A>, c: seq<A>)
    ensures (a + b) + c == a + (b + c)
  {}

  lemma FrontOfTail<A>(s: seq<A>, n: nat)
    requires |s| == n + 1 && n > 0
    ensures s[..n][0] == s[0] && s[..n][1..] == s[1..][..n - 1] && s[1..][n - 1] == s[n]
  {}

  // ---- Lists of fixed-size records ----

  lemma {:induction false} IPsRoundTrip(ips: seq<IP>)
    requires AllV4(ips)
    ensures ReadIPs(IPsBytes(ips)) == ips
  {
    if ips != [] {
      var n := |ips| - 1;
      var a, b := IPsBytes(ips[..n]), IPBytes(ips[n]);
      IPsRoundTrip(ips[..n]);
      Split(a, b);
      assert IPsBytes(ips) == a + b && |a + b| - 4 == |a|;
      assert ips[..n] + [ips[n]] == ips;
    }
  }

  /** What an association is read back as: its mask record carries its own address. */
  function NormalAssociation(a: Association): Association {
    a.(maskIP := a.address)
  }

  function NormalAssociations(l: seq<Association>): seq<Association> {
    if l == [] then [] else NormalAssociations(l[..|l| - 1]) + [NormalAssociation(l[|l| - 1])]
  }

  lemma {:induction false} AssociationsRoundTrip(l: seq<Association>)
    requires AssociationsOk(l)
    ensures ReadAssociations(AssociationsBytes(l)) == NormalAssociations(l)
  {
    if l != [] {
      var n := |l| - 1;
      var b := AssociationsBytes(l);
      AssociationsRoundTrip(l[..n]);
      var r := IPBytes(l[n].address) + IPBytes(l[n].mask);
      assert b[..|b| - 8] == AssociationsBytes(l[..n]) && b[|b| - 8..] == r;
      assert r[..4] == IPBytes(l[n].address) && r[4..] == IPBytes(l[n].mask);
    }
  }

  // ---- HELLO link messages ----

  lemma LinkRoundTrip(l: LinkMessage)
    requires LinkOk(l)
    ensures ReadLink(LinkBytes(l)) == Ok(l)
    ensures AsU16(LinkBytes(l)[2], LinkBytes(l)[3]) == |LinkBytes(l)|
  {
    hide IPsBytes, ReadIPs;
    IPsRoundTrip(l.addresses);
    var b := LinkBytes(l);
    assert b[4..] == IPsBytes(l.addresses);
    assert b[2..4] == U16(4 + 4 * |l.addresses|) && b[2] == b[2..4][0] && b[3] == b[2..4][1];
  }

  lemma {:induction false} LinksBytesFront(ls: seq<LinkMessage>)
    requires LinksOk(ls) && ls != []
    ensures LinksBytes(ls) == LinkBytes(ls[0]) + LinksBytes(ls[1..])
  {
    var n := |ls| - 1;
    if n > 0 {
      LinksBytesFront(ls[..n]);
      FrontOfTail(ls, n);
      Associate(LinkBytes(ls[0]), LinksBytes(ls[1..][..n - 1]), LinkBytes(ls[n]));
    }
  }

  /** Where a link message of the declared size lies, reading reads it and goes on. */
  lemma ReadLinksStep(body: Bytes, off: nat, size: nat, l: LinkMessage)
    requires off + size <= |body| && size >= 4 && DeclaredLinkSize(body, off) == size
    requires ReadLink(body[off..off + size]) == Ok(l)
    ensures ReadLinks(body, off) == Cons(l, ReadLinks(body, off + size))
  {
    hide ReadLink;
  }

  lemma ReadLinksFirst(body: Bytes, off: nat, l: LinkMessage, rest: Bytes)
    requires LinkOk(l) && off <= |body| && body[off..] == LinkBytes(l) + rest
    ensures var end := off + |LinkBytes(l)|;
            end <= |body| && body[end..] == rest && ReadLinks(body, off) == Cons(l, ReadLinks(body, end))
  {
    hide LinkOk, LinkBytes, ReadLink, ReadLinks;
    var b := LinkBytes(l);
    SliceOf(body, off, b, rest);
    LinkRoundTrip(l);
    SliceIndex(body, off, b, 2);
    SliceIndex(body, off, b, 3);
    ReadLinksStep(body, off, |b|, l);
  }

  lemma LinksTail(ls: seq<LinkMessage>)
    requires LinksOk(ls) && ls != []
    ensures LinkOk(ls[0]) && LinksOk(ls[1..]) && ls == [ls[0]] + ls[1..]
  {}

  lemma NoLinks(body: Bytes, off: nat)
    requires off <= |body| && body[off..] == LinksBytes([])
    ensures ReadLinks(body, off) == Ok([])
  {}

  lemma {:induction false} ReadLinksAll(body: Bytes, off: nat, ls: seq<LinkMessage>)
    requires LinksOk(ls) && off <= |body| && body[off..] == LinksBytes(ls)
    ensures ReadLinks(body, off) == Ok(ls)
    decreases |ls|
  {
    hide ReadLinks, LinksOk, LinksBytes, LinkOk, LinkBytes;
    if ls == [] {
      NoLinks(body, off);
    } else {
      LinksTail(ls);
      LinksBytesFront(ls);
      ReadLinksFirst(body, off, ls[0], LinksBytes(ls[1..]));
      ReadLinksAll(body, off + |LinkBytes(ls[0])|, ls[1..]);
    }
  }

  // ---- Bodies ----

  /** The message type that the parser associates with a kind of body. */
  function TypeOf(body: Body): uint8
    requires !body.Raw?
  {
    match body
    case Hello(_) => HELLO
    case Topology(_, _) => TC
    case Interfaces(_) => MID
    case Networks(_) => HNA
    case SourceClaim(_, _) => SOURCE_CLAIM
    case ConfirmParent(_, _, _) => CONFIRM_PARENT
  }

  predicate WellTyped(m: Message) {
    !m.body.Raw? && m.header.msgType == TypeOf(m.body)
  }

  /** A time as it comes back: rounded to the grid of codes. */
  function OnGrid(d: Nanos): Nanos {
    T.Decode(T.Encode(d))
  }

  function NormalBody(body: Body): Body {
    match body
    case Hello(h) => Hello(h.(htime := OnGrid(h.htime)))
    case Networks(l) => Networks(NormalAssociations(l))
    case _ => body
  }

  lemma HelloRoundTrip(h: HelloMessage)
    requires LinksOk(h.links)
    ensures ReadHello(BodyBytes(Hello(h))) == Ok(NormalBody(Hello(h)))
  {
    var head := [0, 0, T.Encode(h.htime), h.willingness];
    Split(head, LinksBytes(h.links));
    ReadLinksAll(head + LinksBytes(h.links), 4, h.links);
  }

  lemma TopologyRoundTrip(ansn: uint16, ips: seq<IP>)
    requires AllV4(ips)
    ensures ReadTopology(BodyBytes(Topology(ansn, ips))) == Ok(Topology(ansn, ips))
  {
    hide IPsBytes, ReadIPs;
    Split(U16(ansn) + [0, 0], IPsBytes(ips));
    IPsRoundTrip(ips);
  }

  lemma ThreeSlices(a: IP, b: IP, c: IP)
    requires a.V4? && b.V4? && c.V4?
    ensures (IPBytes(a) + IPBytes(b))[..4] == IPBytes(a) && (IPBytes(a) + IPBytes(b))[4..8] == IPBytes(b)
    ensures var x := IPBytes(a) + IPBytes(b) + IPBytes(c);
            x[..4] == IPBytes(a) && x[4..8] == IPBytes(b) && x[8..12] == IPBytes(c)
  {}

  lemma BodyRoundTrip(body: Body)
    requires BodyOk(body)
    ensures ReadBody(TypeOf(body), BodyBytes(body)) == Ok(NormalBody(body))
  {
    hide ReadHello, ReadTopology, ReadIPs, ReadAssociations, IPsBytes, AssociationsBytes, LinksBytes, IPBytes, U16, T.Encode;
    match body {
      case Hello(h) => HelloRoundTrip(h);
      case Topology(ansn, ips) => TopologyRoundTrip(ansn, ips);
      case Interfaces(ips) => IPsRoundTrip(ips);
      case Networks(l) => AssociationsRoundTrip(l);
      case SourceClaim(s, g) => ThreeSlices(s, g, s);
      case ConfirmParent(s, g, p) => ThreeSlices(s, g, p);
    }
  }

  // ---- Messages ----

  function NormalMessage(m: Message): Message {
    Message(m.header.(vtime := OnGrid(m.header.vtime)), NormalBody(m.body))
  }

  lemma HeaderRoundTrip(h: MessageHeader, size: uint16, rest: Bytes)
    requires h.originator.V4?
    ensures ReadHeader(HeaderBytes(h, size) + rest) == h.(vtime := OnGrid(h.vtime))
    ensures var b := HeaderBytes(h, size) + rest; AsU16(b[2], b[3]) == size && b[0] == h.msgType && b[12..] == rest
  {
    var b := HeaderBytes(h, size) + rest;
    assert b[4..8] == IPBytes(h.originator);
  }

  lemma MessageRoundTrip(m: Message)
    requires MessageOk(m) && WellTyped(m)
    ensures ReadMessage(MessageBytes(m)) == Ok(NormalMessage(m))
    ensures AsU16(MessageBytes(m)[2], MessageBytes(m)[3]) == |MessageBytes(m)|
  {
    HeaderRoundTrip(m.header, 12 + |BodyBytes(m.body)|, BodyBytes(m.body));
    BodyRoundTrip(m.body);
  }

  lemma {:induction false} MessagesBytesFront(ms: seq<Message>)
    requires MessagesOk(ms) && ms != []
    ensures MessagesBytes(ms) == MessageBytes(ms[0]) + MessagesBytes(ms[1..])
  {
    var n := |ms| - 1;
    if n > 0 {
      MessagesBytesFront(ms[..n]);
      FrontOfTail(ms, n);
      Associate(MessageBytes(ms[0]), MessagesBytes(ms[1..][..n - 1]), MessageBytes(ms[n]));
    }
  }

  function NormalMessages(ms: seq<Message>): seq<Message> {
    if ms == [] then [] else [NormalMessage(ms[0])] + NormalMessages(ms[1..])
  }

  /** Where a message of the declared size lies, reading reads it and goes on behind. */
  lemma ReadMessagesStep(data: Bytes, pktLen: nat, off: nat, size: nat, m: Message)
    requires off + size <= pktLen <= |data| && size >= 12 && DeclaredSize(data, off) == size
    requires ReadMessage(data[off..off + size]) == Ok(m)
    ensures ReadMessages(data, pktLen, off) == Cons(m, ReadMessages(data, pktLen, off + size))
  {}

  lemma ReadMessageAt(data: Bytes, off: nat, m: Message)
    requires MessageOk(m) && WellTyped(m) && off + |MessageBytes(m)| <= |data|
    requires data[off..off + |MessageBytes(m)|] == MessageBytes(m)
    ensures DeclaredSize(data, off) == |MessageBytes(m)|
    ensures ReadMessage(data[off..off + |MessageBytes(m)|]) == Ok(NormalMessage(m))
  {
    MessageRoundTrip(m);
    var b := MessageBytes(m);
    SliceIndex(data, off, b, 2);
    SliceIndex(data, off, b, 3);
  }

  lemma ReadMessagesFirst(data: Bytes, off: nat, m: Message, rest: Bytes)
    requires MessageOk(m) && WellTyped(m) && off <= |data| && data[off..] == MessageBytes(m) + rest
    ensures var end := off + |MessageBytes(m)|;
            end <= |data| && data[end..] == rest
            && ReadMessages(data, |data|, off) == Cons(NormalMessage(m), ReadMessages(data, |data|, end))
  {
    hide *;
    var b := MessageBytes(m);
    SliceOf(data, off, b, rest);
    ReadMessageAt(data, off, m);
    ReadMessagesStep(data, |data|, off, |b|, NormalMessage(m));
  }

  predicate AllWellTyped(ms: seq<Message>) {
    forall i :: 0 <= i < |ms| ==> WellTyped(ms[i])
  }

  lemma MessagesTail(ms: seq<Message>)
    requires MessagesOk(ms) && AllWellTyped(ms) && ms != []
    ensures MessageOk(ms[0]) && WellTyped(ms[0]) && MessagesOk(ms[1..]) && AllWellTyped(ms[1..])
    ensures NormalMessages(ms) == [NormalMessage(ms[0])] + NormalMessages(ms[1..])
  {}

  lemma NoMessages(data: Bytes, off: nat)
    requires off <= |data| && data[off..] == MessagesBytes([])
    ensures ReadMessages(data, |data|, off) == Ok(NormalMessages([]))
  {}

  lemma {:induction false} ReadMessagesAll(data: Bytes, off: nat, ms: seq<Message>)
    requires MessagesOk(ms) && AllWellTyped(ms) && off <= |data| && data[off..] == MessagesBytes(ms)
    ensures ReadMessages(data, |data|, off) == Ok(NormalMessages(ms))
    decreases |ms|
  {
    hide ReadMessages, MessagesOk, AllWellTyped, MessageBytes, MessageOk, WellTyped, NormalMessages, MessagesBytes;
    if ms == [] {
      NoMessages(data, off);
    } else {
      MessagesTail(ms);
      MessagesBytesFront(ms);
      ReadMessagesFirst(data, off, ms[0], MessagesBytes(ms[1..]));
      ReadMessagesAll(data, off + |MessageBytes(ms[0])|, ms[1..]);
    }
  }

  // ---- Packets ----

  /** What a packet is read back as: its own length, times on the grid, and each
      association's address in its mask record. */
  function NormalPacket(p: Packet): Packet
    requires PacketOk(p)
  {
    Packet(PacketHeader(|PacketBytes(p)|, p.header.seqNum), NormalMessages(p.messages))
  }

  /** Whatever can be serialized with bodies that match their types is read back. */
  lemma PacketRoundTrip(p: Packet)
    requires PacketOk(p) && AllWellTyped(p.messages)
    ensures ReadPacket(PacketBytes(p)) == Ok(NormalPacket(p))
  {
    var b := PacketBytes(p);
    assert b[4..] == MessagesBytes(p.messages);
    assert b[0] == U16(|b|)[0] && b[1] == U16(|b|)[1];
    assert b[2] == U16(p.header.seqNum)[0] && b[3] == U16(p.header.seqNum)[1];
    ReadMessagesAll(b, 4, p.messages);
  }

  /** Reading back changes nothing more the second time. */
  lemma NormalIsStable(m: Message)
    ensures NormalMessage(NormalMessage(m)) == NormalMessage(m)
  {
    T.EncodeDecode(T.Encode(m.header.vtime));
    match m.body {
      case Hello(h) => T.EncodeDecode(T.Encode(h.htime));
      case Networks(l) => NormalAssociationsStable(l);
      case _ =>
    }
  }

  lemma {:induction false} NormalAssociationsStable(l: seq<Association>)
    ensures |NormalAssociations(l)| == |l|
    ensures NormalAssociations(NormalAssociations(l)) == NormalAssociations(l)
    ensures AssociationsOk(l) ==> AssociationsOk(NormalAssociations(l))
                                  && AssociationsBytes(NormalAssociations(l)) == AssociationsBytes(l)
  {
    if l != [] {
      var n := |l| - 1;
      NormalAssociationsStable(l[..n]);
      assert NormalAssociations(l)[..n] == NormalAssociations(l[..n]);
    }
  }

  // ---- Tiling ----

  /** `offs` cuts the bytes from `from` to `to` into the messages `ms`, each as long as
      it declares and at least as long as its header. */
  ghost predicate Tiles(data: Bytes, from: nat, to: nat, offs: seq<nat>, ms: seq<Message>) {
    && |offs| == |ms| + 1 && offs[0] == from && offs[|ms|] == to
    && forall i {:trigger ms[i]} :: 0 <= i < |ms| ==> Tile(data, offs[i], offs[i + 1], to, ms[i])
  }

  /** The bytes from `a` to `b` are exactly the message m. */
  ghost predicate Tile(data: Bytes, a: nat, b: nat, limit: nat, m: Message) {
    && a + 12 <= b <= limit <= |data|
    && DeclaredSize(data, a) == b - a
    && ReadMessage(data[a..b]) == Ok(m)
  }

  lemma {:induction false} ReadMessagesTiles(data: Bytes, pktLen: nat, off: nat, ms: seq<Message>) returns (offs: seq<nat>)
    requires off <= pktLen <= |data| && ReadMessages(data, pktLen, off) == Ok(ms)
    ensures Tiles(data, off, pktLen, offs, ms)
    decreases pktLen - off
  {
    if off >= pktLen {
      offs := [off];
    } else {
      var size := DeclaredSize(data, off);
      var rest := ReadMessagesTiles(data, pktLen, off + size, ms[1..]);
      offs := [off] + rest;
      TilesFront(data, off, off + size, pktLen, rest, ms[0], ms[1..]);
      assert [ms[0]] + ms[1..] == ms;
    }
  }

  lemma TilesFront(data: Bytes, a: nat, b: nat, to: nat, offs: seq<nat>, m: Message, ms: seq<Message>)
    requires Tile(data, a, b, to, m) && Tiles(data, b, to, offs, ms)
    ensures Tiles(data, a, to, [a] + offs, [m] + ms)
  {
    var offs', ms' := [a] + offs, [m] + ms;
    forall i | 0 <= i < |ms'|
      ensures Tile(data, offs'[i], offs'[i + 1], to, ms'[i])
    {
      if i > 0 {
        assert ms'[i] == ms[i - 1];
      }
    }
  }

  lemma TilesTail(data: Bytes, a: nat, to: nat, offs: seq<nat>, ms: seq<Message>)
    requires Tiles(data, a, to, offs, ms) && ms != []
    ensures |offs| == |ms| + 1 && Tile(data, a, offs[1], to, ms[0]) && Tiles(data, offs[1], to, offs[1..], ms[1..])
  {
    forall i | 0 <= i < |ms| - 1
      ensures Tile(data, offs[1..][i], offs[1..][i + 1], to, ms[1..][i])
    {
      assert ms[1..][i] == ms[i + 1];
    }
  }

  lemma {:induction false} TilesReadMessages(data: Bytes, pktLen: nat, off: nat, offs: seq<nat>, ms: seq<Message>)
    requires Tiles(data, off, pktLen, offs, ms) && pktLen <= |data|
    ensures ReadMessages(data, pktLen, off) == Ok(ms)
    decreases |ms|
  {
    if ms != [] {
      TilesTail(data, off, pktLen, offs, ms);
      ReadMessagesStep(data, pktLen, off, offs[1] - off, ms[0]);
      TilesReadMessages(data, pktLen, offs[1], offs[1..], ms[1..]);
      assert [ms[0]] + ms[1..] == ms;
    }
  }

  /** A packet parses exactly if messages tile the bytes from its header to the length
      it declares, and then it has those messages. */
  lemma ParsesIffTiled(data: Bytes, ms: seq<Message>)
    requires |data| >= 4
    ensures var pktLen := AsU16(data[0], data[1]);
            ReadPacket(data) == Ok(Packet(PacketHeader(pktLen, AsU16(data[2], data[3])), ms))
            <==> 4 <= pktLen <= |data| && exists offs :: Tiles(data, 4, pktLen, offs, ms)
  {
    var pktLen := AsU16(data[0], data[1]);
    if pktLen >= 4 && |data| >= pktLen && ReadMessages(data, pktLen, 4) == Ok(ms) {
      var offs := ReadMessagesTiles(data, pktLen, 4, ms);
    }
    if 4 <= pktLen <= |data| && exists offs :: Tiles(data, 4, pktLen, offs, ms) {
      var offs :| Tiles(data, 4, pktLen, offs, ms);
      TilesReadMessages(data, pktLen, 4, offs, ms);
    }
  }

  /** The parser panics at this offset, if it gets there. */
  ghost predicate PanicsAt(data: Bytes, pktLen: nat, off: nat) {
    && off < pktLen <= |data| && off + 12 <= |data|
    && var size := DeclaredSize(data, off);
       off + size <= pktLen && (size < 12 || ReadMessage(data[off..off + size]).Panic?)
  }

  lemma {:induction false} PanicIsStuck(data: Bytes, pktLen: nat, off: nat) returns (offs: seq<nat>, ms: seq<Message>)
    requires off <= pktLen <= |data| && ReadMessages(data, pktLen, off).Panic?
    ensures |offs| > 0 && off <= offs[|offs| - 1]
    ensures PanicsAt(data, pktLen, offs[|offs| - 1]) && Tiles(data, off, offs[|offs| - 1], offs, ms)
    decreases pktLen - off
  {
    if PanicsAt(data, pktLen, off) {
      offs, ms := [off], [];
    } else {
      var size := DeclaredSize(data, off);
      var m := ReadMessage(data[off..off + size]).value;
      var rest, rms := PanicIsStuck(data, pktLen, off + size);
      TilesFront(data, off, off + size, rest[|rest| - 1], rest, m, rms);
      offs, ms := [off] + rest, [m] + rms;
    }
  }

  lemma PanicsHere(data: Bytes, pktLen: nat, off: nat)
    requires PanicsAt(data, pktLen, off)
    ensures ReadMessages(data, pktLen, off).Panic?
  {
    hide ReadMessage;
  }

  lemma NoTiles(data: Bytes, from: nat, to: nat, offs: seq<nat>)
    ensures Tiles(data, from, to, offs, []) <==> offs == [from] && from == to
  {}

  lemma {:induction false} StuckIsPanic(data: Bytes, pktLen: nat, off: nat, at: nat, offs: seq<nat>, ms: seq<Message>)
    requires Tiles(data, off, at, offs, ms) && PanicsAt(data, pktLen, at)
    ensures off <= at && ReadMessages(data, pktLen, off).Panic?
    decreases |ms|
  {
    hide Tiles, ReadMessages, ReadMessage;
    if ms == [] {
      NoTiles(data, off, at, offs);
      PanicsHere(data, pktLen, off);
    } else {
      TilesTail(data, off, at, offs, ms);
      StuckIsPanic(data, pktLen, offs[1], at, offs[1..], ms[1..]);
      ReadMessagesStep(data, pktLen, off, offs[1] - off, ms[0]);
    }
  }

  // ---- Tiling of a HELLO body ----

  ghost predicate LinkTile(body: Bytes, a: nat, b: nat, l: LinkMessage) {
    && a + 4 <= b <= |body|
    && DeclaredLinkSize(body, a) == b - a
    && ReadLink(body[a..b]) == Ok(l)
  }

  ghost predicate LinkTiles(body: Bytes, from: nat, to: nat, offs: seq<nat>, ls: seq<LinkMessage>) {
    && |offs| == |ls| + 1 && offs[0] == from && offs[|ls|] == to
    && forall i {:trigger ls[i]} :: 0 <= i < |ls| ==> LinkTile(body, offs[i], offs[i + 1], ls[i])
  }

  lemma LinkTilesFront(body: Bytes, a: nat, b: nat, to: nat, offs: seq<nat>, l: LinkMessage, ls: seq<LinkMessage>)
    requires LinkTile(body, a, b, l) && LinkTiles(body, b, to, offs, ls)
    ensures LinkTiles(body, a, to, [a] + offs, [l] + ls)
  {
    var offs', ls' := [a] + offs, [l] + ls;
    forall i | 0 <= i < |ls'|
      ensures LinkTile(body, offs'[i], offs'[i + 1], ls'[i])
    {
      if i > 0 {
        assert ls'[i] == ls[i - 1];
      }
    }
  }

  lemma LinkTilesTail(body: Bytes, a: nat, to: nat, offs: seq<nat>, ls: seq<LinkMessage>)
    requires LinkTiles(body, a, to, offs, ls) && ls != []
    ensures |offs| == |ls| + 1 && LinkTile(body, a, offs[1], ls[0]) && LinkTiles(body, offs[1], to, offs[1..], ls[1..])
  {
    forall i | 0 <= i < |ls| - 1
      ensures LinkTile(body, offs[1..][i], offs[1..][i + 1], ls[1..][i])
    {
      assert ls[1..][i] == ls[i + 1];
    }
  }

  ghost predicate LinkStuckAt(body: Bytes, off: nat) {
    off + 4 <= |body| && DeclaredLinkSize(body, off) < 4 && off + DeclaredLinkSize(body, off) <= |body|
  }

  /** Where reading goes on, the next link message is a tile. */
  lemma LinkHere(body: Bytes, off: nat) returns (size: nat, l: LinkMessage)
    requires off < |body| && !ReadLinks(body, off).Err? && !LinkStuckAt(body, off)
    ensures off + size <= |body| && size >= 4 && LinkTile(body, off, off + size, l)
    ensures ReadLinks(body, off) == Cons(l, ReadLinks(body, off + size))
  {
    size := DeclaredLinkSize(body, off);
    var b := body[off..off + size];
    l := ReadLink(b).value;
    hide ReadLink;
  }

  lemma LinksStop(body: Bytes, off: nat)
    requires off <= |body| && (off == |body| || LinkStuckAt(body, off))
    ensures ReadLinks(body, off) == if off == |body| then Ok([]) else Panic
    ensures LinkTiles(body, off, off, [off], [])
  {}

  lemma {:induction false} ReadLinksTiles(body: Bytes, off: nat) returns (offs: seq<nat>, ls: seq<LinkMessage>)
    requires off <= |body| && !ReadLinks(body, off).Err?
    ensures ReadLinks(body, off).Ok? ==> LinkTiles(body, off, |body|, offs, ls) && ReadLinks(body, off).value == ls
    ensures ReadLinks(body, off).Panic? ==>
              |offs| > 0 && LinkTiles(body, off, offs[|offs| - 1], offs, ls) && LinkStuckAt(body, offs[|offs| - 1])
    decreases |body| - off
  {
    hide ReadLinks, LinkTiles, LinkTile, LinkStuckAt;
    if off == |body| || LinkStuckAt(body, off) {
      LinksStop(body, off);
      offs, ls := [off], [];
    } else {
      var size, l := LinkHere(body, off);
      var rest, rls := ReadLinksTiles(body, off + size);
      var to := if ReadLinks(body, off + size).Ok? then |body| else rest[|rest| - 1];
      LinkTilesFront(body, off, off + size, to, rest, l, rls);
      offs, ls := [off] + rest, [l] + rls;
    }
  }

  lemma NoLinkTiles(body: Bytes, from: nat, to: nat, offs: seq<nat>)
    ensures LinkTiles(body, from, to, offs, []) ==> from == to
  {}

  lemma {:induction false} LinkTilesRead(body: Bytes, off: nat, to: nat, offs: seq<nat>, ls: seq<LinkMessage>)
    requires LinkTiles(body, off, to, offs, ls) && to <= |body|
    ensures to == |body| ==> ReadLinks(body, off) == Ok(ls)
    ensures LinkStuckAt(body, to) ==> ReadLinks(body, off).Panic?
    decreases |ls|
  {
    hide ReadLinks, LinkTiles, LinkStuckAt, ReadLink;
    if ls == [] {
      NoLinkTiles(body, off, to, offs);
      if to == |body| || LinkStuckAt(body, to) {
        LinksStop(body, to);
        StuckInside(body, to);
      }
    } else {
      LinkTilesTail(body, off, to, offs, ls);
      LinkTilesRead(body, offs[1], to, offs[1..], ls[1..]);
      ReadLinksStep(body, off, offs[1] - off, ls[0]);
      assert [ls[0]] + ls[1..] == ls;
    }
  }

  lemma StuckInside(body: Bytes, off: nat)
    ensures LinkStuckAt(body, off) ==> off < |body|
  {}

  /** The link messages of a HELLO body are read exactly if they tile it, and reading
      them panics exactly if they tile it up to one smaller than its own header. */
  lemma LinksReadIffTiled(body: Bytes, off: nat, ls: seq<LinkMessage>)
    requires off <= |body|
    ensures ReadLinks(body, off) == Ok(ls) <==> exists offs :: LinkTiles(body, off, |body|, offs, ls)
    ensures ReadLinks(body, off).Panic? <==>
              exists to, offs, some :: LinkTiles(body, off, to, offs, some) && LinkStuckAt(body, to)
  {
    if !ReadLinks(body, off).Err? {
      var offs, some := ReadLinksTiles(body, off);
    }
    forall offs | LinkTiles(body, off, |body|, offs, ls)
      ensures ReadLinks(body, off) == Ok(ls)
    {
      LinkTilesRead(body, off, |body|, offs, ls);
    }
    forall to, offs, some | LinkTiles(body, off, to, offs, some) && LinkStuckAt(body, to)
      ensures ReadLinks(body, off).Panic?
    {
      LinkTilesRead(body, off, to, offs, some);
    }
  }

  // ---- Panics ----

  /** The bytes of a HELLO in which link messages tile the body up to one that declares a
      size smaller than its own header. */
  ghost predicate HelloStuck(b: Bytes)
    requires |b| >= 12
  {
    && b[0] == HELLO && |b| >= 16
    && exists to, offs, ls :: LinkTiles(b[12..], 4, to, offs, ls) && LinkStuckAt(b[12..], to)
  }

  /** Of all bodies only that of a HELLO can make the parser panic, and it does so exactly
      if it is stuck. */
  lemma MessagePanicsIff(b: Bytes)
    requires |b| >= 12
    ensures ReadMessage(b).Panic? <==> HelloStuck(b)
  {
    hide ReadLinks, LinkTiles, LinkStuckAt;
    if b[0] == HELLO && |b| >= 16 {
      LinksReadIffTiled(b[12..], 4, []);
    }
  }

  /** A message declares a size that fits the packet but not its own header, or it is a
      HELLO with such a link message. */
  ghost predicate StuckAt(data: Bytes, pktLen: nat, off: nat) {
    && off < pktLen <= |data| && off + 12 <= |data|
    && var size := DeclaredSize(data, off);
       off + size <= pktLen && (size < 12 || HelloStuck(data[off..off + size]))
  }

  lemma StuckIff(data: Bytes, pktLen: nat, off: nat)
    ensures PanicsAt(data, pktLen, off) <==> StuckAt(data, pktLen, off)
  {
    hide ReadMessage, HelloStuck;
    if off < pktLen <= |data| && off + 12 <= |data| {
      var size := DeclaredSize(data, off);
      if 12 <= size && off + size <= pktLen {
        MessagePanicsIff(data[off..off + size]);
      }
    }
  }

  /** Parsing panics exactly if messages tile the packet up to where it is stuck. */
  lemma PanicsIffStuck(data: Bytes)
    requires |data| >= 4
    ensures var pktLen := AsU16(data[0], data[1]);
            ReadPacket(data).Panic? <==>
              4 <= pktLen <= |data| && exists at, offs, ms :: Tiles(data, 4, at, offs, ms) && StuckAt(data, pktLen, at)
  {
    hide Tiles, StuckAt, PanicsAt, ReadMessages;
    var pktLen := AsU16(data[0], data[1]);
    if ReadPacket(data).Panic? {
      var offs, ms := PanicIsStuck(data, pktLen, 4);
      StuckIff(data, pktLen, offs[|offs| - 1]);
    } else if 4 <= pktLen <= |data| {
      forall at, offs, ms | Tiles(data, 4, at, offs, ms) && StuckAt(data, pktLen, at)
        ensures false
      {
        StuckIff(data, pktLen, at);
        StuckIsPanic(data, pktLen, 4, at, offs, ms);
      }
    }
  }

  lemma FirstStuck(data: Bytes, pktLen: nat, at: nat)
    requires 4 <= |data| && pktLen == AsU16(data[0], data[1]) && at == 4 && StuckAt(data, pktLen, at)
    ensures ReadPacket(data).Panic?
  {
    hide Tiles, StuckAt;
    NoTiles(data, at, at, [at]);
    assert Tiles(data, at, at, [at], []);
    assert at < pktLen <= |data| by {
      StuckFits(data, pktLen, at);
    }
    PanicsIffStuck(data);
  }

  lemma StuckFits(data: Bytes, pktLen: nat, at: nat)
    requires StuckAt(data, pktLen, at)
    ensures at < pktLen <= |data|
  {}

  /** Any sixteen bytes do so that are a packet whose only message declares size zero. */
  lemma SizeZeroPanics(data: Bytes)
    requires |data| == 16 && data[0] == 0 && data[1] == 16 && data[6] == 0 && data[7] == 0
    ensures ReadPacket(data).Panic?
  {
    hide ReadPacket, HelloStuck;
    FirstStuck(data, 16, 4);
  }

  /** And any twenty-four that are a HELLO whose only link message declares size zero. */
  lemma LinkSizeZeroPanics(data: Bytes)
    requires |data| == 24 && data[0] == 0 && data[1] == 24 && data[4] == HELLO && data[6] == 0 && data[7] == 20
    requires data[22] == 0 && data[23] == 0
    ensures ReadPacket(data).Panic?
  {
    hide ReadPacket;
    var b := data[4..24];
    assert b[0] == HELLO && b[12..][6] == 0 && b[12..][7] == 0;
    assert LinkTiles(b[12..], 4, 4, [4], []) && LinkStuckAt(b[12..], 4);
    assert DeclaredSize(data, 4) == 20;
    assert HelloStuck(b);
    FirstStuck(data, 24, 4);
  }

  // ---- Relaying ----

  /** Serializing what was read gives the same bytes: the time codes do not drift. */
  lemma NormalSameBytes(m: Message)
    requires MessageOk(m)
    ensures MessageOk(NormalMessage(m)) && MessageBytes(NormalMessage(m)) == MessageBytes(m)
    ensures WellTyped(m) ==> WellTyped(NormalMessage(m))
  {
    hide U16, IPBytes, BodyOk, BodyBytes, T.Encode, T.Decode;
    T.EncodeDecode(T.Encode(m.header.vtime));
    NormalBodySameBytes(m.body);
  }

  lemma NormalBodySameBytes(body: Body)
    requires BodyOk(body)
    ensures BodyOk(NormalBody(body)) && BodyBytes(NormalBody(body)) == BodyBytes(body)
  {
    match body {
      case Hello(h) => T.EncodeDecode(T.Encode(h.htime));
      case Networks(l) => NormalAssociationsStable(l);
      case _ =>
    }
  }

  /** The bytes of a message with other hop counts. */
  function Patched(b: Bytes, ttl: uint8, hopCount: uint8): (r: Bytes)
    requires |b| >= 12
    ensures |r| == |b|
  {
    b[8 := ttl][9 := hopCount]
  }

  lemma PatchedTwice(b: Bytes, t1: uint8, h1: uint8, t2: uint8, h2: uint8)
    requires |b| >= 12
    ensures Patched(Patched(b, t1, h1), t2, h2) == Patched(b, t2, h2)
  {}

  lemma RelayedBytes(m: Message)
    requires MessageOk(m) && m.header.ttl > 0
    ensures MessageOk(Relayed(m))
    ensures MessageBytes(Relayed(m)) == Patched(MessageBytes(m), m.header.ttl - 1, (m.header.hopCount + 1) % 256)
  {
    HeaderBytesAt(m.header, Relayed(m).header, 12 + |BodyBytes(m.body)|);
  }

  lemma HeaderBytesAt(h: MessageHeader, k: MessageHeader, size: uint16)
    requires h.originator.V4? && k == h.(ttl := k.ttl, hopCount := k.hopCount)
    ensures HeaderBytes(k, size) == Patched(HeaderBytes(h, size), k.ttl, k.hopCount)
  {}

  /** The times of a message that was read, as 64-bit durations; what becomes of a time
      that does not fit depends on the hardware. */
  function Narrowed(m: Message, overflowed: Nanos): Message {
    Message(m.header.(vtime := Narrow(m.header.vtime, overflowed)),
            match m.body
            case Hello(h) => Hello(h.(htime := Narrow(h.htime, overflowed)))
            case _ => m.body)
  }

  function Narrow(d: Nanos, overflowed: Nanos): Nanos {
    if d <= T.MAX_DURATION then d else overflowed
  }

  /** n routers in a row each read the bytes, relay, and write again. */
  function RelayBytes(b: Bytes, n: nat, overflowed: Nanos): Option<Bytes> {
    if n == 0 then Some(b)
    else match RelayBytes(b, n - 1, overflowed)
      case None => None
      case Some(c) => RelayOnce(c, overflowed)
  }

  function RelayOnce(b: Bytes, overflowed: Nanos): Option<Bytes> {
    if |b| < 12 then None
    else match ReadMessage(b)
      case Ok(read) =>
        var m := Narrowed(read, overflowed);
        if m.header.ttl > 0 && MessageOk(m) then Some(MessageBytes(Relayed(m))) else None
      case _ => None
  }

  /** What reading makes of a message that was written. */
  function Recoded(m: Message, overflowed: Nanos): Message {
    Narrowed(NormalMessage(m), overflowed)
  }

  predicate Survives(c: uint8, overflowed: Nanos) {
    T.Encode(T.Converted(c, overflowed)) == c
  }

  /** Each time code in the message survives being read and written. */
  predicate Kept(m: Message, overflowed: Nanos) {
    Survives(T.Encode(m.header.vtime), overflowed) && (m.body.Hello? ==> Survives(T.Encode(m.body.hello.htime), overflowed))
  }

  lemma NarrowIsConverted(d: Nanos, overflowed: Nanos)
    ensures Narrow(OnGrid(d), overflowed) == T.Converted(T.Encode(d), overflowed)
  {
    T.FitsIff(T.Encode(d));
  }

  /** Where the time codes stand. */
  lemma CodesAt(m: Message)
    requires MessageOk(m)
    ensures MessageBytes(m)[1] == T.Encode(m.header.vtime)
    ensures m.body.Hello? ==> |MessageBytes(m)| >= 16 && MessageBytes(m)[14] == T.Encode(m.body.hello.htime)
  {
    hide T.Encode, U16, IPBytes, LinksBytes;
  }

  lemma RecodedOk(m: Message, overflowed: Nanos)
    requires MessageOk(m)
    ensures MessageOk(Recoded(m, overflowed)) && (WellTyped(m) ==> WellTyped(Recoded(m, overflowed)))
    ensures Recoded(m, overflowed).header == m.header.(vtime := T.Converted(T.Encode(m.header.vtime), overflowed))
    ensures m.body.Hello? ==> Recoded(m, overflowed).body
                              == Hello(m.body.hello.(htime := T.Converted(T.Encode(m.body.hello.htime), overflowed)))
    ensures !m.body.Hello? ==> Recoded(m, overflowed).body == NormalBody(m.body)
  {
    hide T.Encode, T.Decode, T.Fits, LinksBytes, OnGrid, Narrow;
    NormalSameBytes(m);
    NarrowIsConverted(m.header.vtime, overflowed);
    if m.body.Hello? {
      NarrowIsConverted(m.body.hello.htime, overflowed);
    }
  }

  /** They differ in some byte that does not count hops. */
  ghost predicate Differ(a: Bytes, b: Bytes) {
    exists i :: 0 <= i < |a| && i < |b| && i != 8 && i != 9 && a[i] != b[i]
  }

  lemma PatchedDiffer(a: Bytes, b: Bytes, ttl: uint8, hopCount: uint8)
    requires |a| >= 12 && |b| >= 12 && Differ(a, b)
    ensures Patched(a, ttl, hopCount) != Patched(b, ttl, hopCount)
  {
    var i :| 0 <= i < |a| && i < |b| && i != 8 && i != 9 && a[i] != b[i];
    assert Patched(a, ttl, hopCount)[i] != Patched(b, ttl, hopCount)[i];
  }

  /** Written again, it is the same bytes exactly if its time codes survive. */
  lemma RecodedBytes(m: Message, overflowed: Nanos)
    requires MessageOk(m)
    ensures MessageOk(Recoded(m, overflowed))
    ensures Kept(m, overflowed) ==> MessageBytes(Recoded(m, overflowed)) == MessageBytes(m)
    ensures !Kept(m, overflowed) ==> Differ(MessageBytes(Recoded(m, overflowed)), MessageBytes(m))
  {
    hide MessageBytes, MessageOk, Recoded, T.Encode, T.Converted, NormalBody;
    var r := Recoded(m, overflowed);
    RecodedOk(m, overflowed);
    MessageLength(m);
    MessageLength(r);
    CodesAt(m);
    CodesAt(r);
    if Kept(m, overflowed) {
      SameCodes(r, m);
    }
  }

  lemma SameCodes(x: Message, m: Message)
    requires MessageOk(x) && MessageOk(m) && x.header == m.header.(vtime := x.header.vtime)
    requires T.Encode(x.header.vtime) == T.Encode(m.header.vtime)
    requires m.body.Hello? ==> x.body.Hello? && x.body.hello == m.body.hello.(htime := x.body.hello.htime)
                               && T.Encode(x.body.hello.htime) == T.Encode(m.body.hello.htime)
    requires !m.body.Hello? ==> x.body == NormalBody(m.body)
    ensures MessageBytes(x) == MessageBytes(m)
  {
    hide T.Encode, U16, IPBytes, LinksBytes, AssociationsBytes;
    if !m.body.Hello? {
      NormalBodySameBytes(m.body);
    }
    assert BodyBytes(x.body) == BodyBytes(m.body);
  }

  /** Reading and writing twice is no different from once. */
  lemma SurvivesOnce(c: uint8, overflowed: Nanos)
    ensures Survives(T.Encode(T.Converted(c, overflowed)), overflowed)
  {
    hide T.Encode, T.Decode, T.Fits;
    var e := T.Encode(T.Converted(c, overflowed));
    if T.Fits(c) {
      T.EncodeDecode(c);
    }
    if T.Fits(e) {
      T.EncodeDecode(e);
    }
  }

  lemma RecodedKept(m: Message, overflowed: Nanos)
    requires MessageOk(m)
    ensures Kept(Recoded(m, overflowed), overflowed)
  {
    hide Survives;
    RecodedOk(m, overflowed);
    SurvivesOnce(T.Encode(m.header.vtime), overflowed);
    if m.body.Hello? {
      SurvivesOnce(T.Encode(m.body.hello.htime), overflowed);
    }
  }

  lemma RelayBytesNone(b: Bytes, overflowed: Nanos)
    ensures RelayBytes(b, 0, overflowed) == Some(b)
  {}

  lemma RelayBytesNext(b: Bytes, n: nat, overflowed: Nanos, c: Bytes)
    requires n > 0 && RelayBytes(b, n - 1, overflowed) == Some(c)
    ensures RelayBytes(b, n, overflowed) == RelayOnce(c, overflowed)
  {}

  function WithCounts(m: Message, ttl: uint8, hopCount: uint8): (x: Message)
    ensures x.header.ttl == ttl && x.header.hopCount == hopCount
  {
    m.(header := m.header.(ttl := ttl, hopCount := hopCount))
  }

  lemma CountsPatched(m: Message, ttl: uint8, hopCount: uint8)
    requires MessageOk(m)
    ensures var x := WithCounts(m, ttl, hopCount);
            MessageOk(x) && (WellTyped(m) ==> WellTyped(x)) && MessageBytes(x) == Patched(MessageBytes(m), ttl, hopCount)
    ensures ttl == m.header.ttl && hopCount == m.header.hopCount ==> WithCounts(m, ttl, hopCount) == m
    ensures forall o: Nanos :: Kept(WithCounts(m, ttl, hopCount), o) <==> Kept(m, o)
  {
    HeaderBytesAt(m.header, WithCounts(m, ttl, hopCount).header, 12 + |BodyBytes(m.body)|);
  }

  lemma RelayOnceBytes(m: Message, overflowed: Nanos)
    requires MessageOk(m) && WellTyped(m) && m.header.ttl > 0
    ensures var r := Recoded(m, overflowed);
            && MessageOk(r)
            && RelayOnce(MessageBytes(m), overflowed) ==
                 Some(Patched(MessageBytes(r), m.header.ttl - 1, (m.header.hopCount + 1) % 256))
  {
    hide MessageOk, MessageBytes, T.Encode, T.Decode, ReadMessage, NormalBody;
    MessageRoundTrip(m);
    RecodedOk(m, overflowed);
    MessageLength(m);
    RelayedBytes(Recoded(m, overflowed));
  }

  lemma MessageLength(m: Message)
    requires MessageOk(m)
    ensures |MessageBytes(m)| >= 12
  {}

  /** From the first hop on, the bytes are those of the recoded message. */
  lemma {:induction false} RelayedHops(m: Message, n: nat, overflowed: Nanos)
    requires MessageOk(m) && WellTyped(m) && 1 <= n <= m.header.ttl
    ensures var r := Recoded(m, overflowed);
            && MessageOk(r) && |MessageBytes(r)| >= 12
            && RelayBytes(MessageBytes(m), n, overflowed) ==
                 Some(Patched(MessageBytes(r), m.header.ttl - n, (m.header.hopCount + n) % 256))
  {
    hide *;
    var r := Recoded(m, overflowed);
    RecodedOk(m, overflowed);
    MessageLength(r);
    if n == 1 {
      RelayBytesNone(MessageBytes(m), overflowed);
      RelayBytesNext(MessageBytes(m), 1, overflowed, MessageBytes(m));
      RelayOnceBytes(m, overflowed);
    } else {
      RelayedHops(m, n - 1, overflowed);
      var x := WithCounts(r, m.header.ttl - (n - 1), (m.header.hopCount + (n - 1)) % 256);
      CountsPatched(r, x.header.ttl, x.header.hopCount);
      RecodedKept(m, overflowed);
      RecodedBytes(x, overflowed);
      RelayOnceBytes(x, overflowed);
      RelayBytesNext(MessageBytes(m), n, overflowed, MessageBytes(x));
      assert (x.header.hopCount + 1) % 256 == (m.header.hopCount + n) % 256;
      PatchedTwice(MessageBytes(r), x.header.ttl, x.header.hopCount, x.header.ttl - 1, (x.header.hopCount + 1) % 256);
    }
  }

  /** Over any number of hops that its time to live allows, relaying changes only the two
      bytes that count hops, if and only if the time codes in the message survive being
      read and written. */
  lemma RelayingIsFaithfulIff(m: Message, n: nat, overflowed: Nanos)
    requires MessageOk(m) && WellTyped(m) && 1 <= n <= m.header.ttl
    ensures |MessageBytes(m)| >= 12
    ensures RelayBytes(MessageBytes(m), n, overflowed) ==
              Some(Patched(MessageBytes(m), m.header.ttl - n, (m.header.hopCount + n) % 256))
            <==> Kept(m, overflowed)
  {
    hide MessageOk, MessageBytes, Recoded, RelayBytes, Kept, Differ, Patched;
    MessageLength(m);
    RelayedHops(m, n, overflowed);
    RecodedBytes(m, overflowed);
    if !Kept(m, overflowed) {
      PatchedDiffer(MessageBytes(Recoded(m, overflowed)), MessageBytes(m), m.header.ttl - n, (m.header.hopCount + n) % 256);
    }
  }

  /** On all hardware, if they fit a 64-bit duration. */
  lemma RelayingIsFaithful(m: Message, n: nat, overflowed: Nanos)
    requires MessageOk(m) && WellTyped(m) && 1 <= n <= m.header.ttl
    requires T.Fits(T.Encode(m.header.vtime)) && (m.body.Hello? ==> T.Fits(T.Encode(m.body.hello.htime)))
    ensures |MessageBytes(m)| >= 12
    ensures RelayBytes(MessageBytes(m), n, overflowed) ==
              Some(Patched(MessageBytes(m), m.header.ttl - n, (m.header.hopCount + n) % 256))
  {
    hide MessageOk, MessageBytes, RelayBytes, T.Encode, T.Decode, T.Fits;
    RelayingIsFaithfulIff(m, n, overflowed);
    T.EncodeDecode(T.Encode(m.header.vtime));
    if m.body.Hello? {
      T.EncodeDecode(T.Encode(m.body.hello.htime));
    }
  }

  /** Where an overflow gives the most negative duration, only if they fit. */
  lemma RelayingKeepsFittingOnly(m: Message)
    ensures Kept(m, T.MIN_DURATION) <==>
              T.Fits(T.Encode(m.header.vtime)) && (m.body.Hello? ==> T.Fits(T.Encode(m.body.hello.htime)))
  {
    hide T.Encode, T.Converted, T.Fits;
    T.WrappedRoundTripIff(T.Encode(m.header.vtime));
    if m.body.Hello? {
      T.WrappedRoundTripIff(T.Encode(m.body.hello.htime));
    }
  }
}
