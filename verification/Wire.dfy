/** The packet format: which packets can be written and as which bytes, and what any
    bytes are read as. Reading may also panic, where the parser slices by a declared
    size that is smaller than the header it belongs to. */
module Wire {
  import opened Common
  import opened Messages
  import T = TimeCodes

  type Bytes = seq<uint8>

  datatype Parsed<+A> = Ok(value: A) | Err | Panic

  const MAX_SIZE: nat := 65535

  // ---- Numbers and addresses ----

  function U16(x: uint16): (b: Bytes)
    ensures |b| == 2 && AsU16(b[0], b[1]) == x
  {
    [x / 256, x % 256]
  }

  function AsU16(hi: uint8, lo: uint8): uint16 {
    256 * hi + lo
  }

  function U32(x: uint32): (b: Bytes)
    ensures |b| == 4 && AsU32(b) == x
  {
    U16(x / 0x1_0000) + U16(x % 0x1_0000)
  }

  function AsU32(b: Bytes): uint32
    requires |b| == 4
  {
    0x1_0000 * AsU16(b[0], b[1]) + AsU16(b[2], b[3])
  }

  function IPBytes(a: IP): (b: Bytes)
    requires a.V4?
    ensures |b| == 4 && ReadIP(b) == a
  {
    U32(a.v4)
  }

  function ReadIP(b: Bytes): IP
    requires |b| == 4
  {
    V4(AsU32(b))
  }

  predicate AllV4(ips: seq<IP>) {
    forall i :: 0 <= i < |ips| ==> ips[i].V4?
  }

  function IPsBytes(ips: seq<IP>): (b: Bytes)
    requires AllV4(ips)
    ensures |b| == 4 * |ips|
  {
    if ips == [] then [] else IPsBytes(ips[..|ips| - 1]) + IPBytes(ips[|ips| - 1])
  }

  function ReadIPs(b: Bytes): (ips: seq<IP>)
    requires |b| % 4 == 0
    ensures |ips| == |b| / 4 && AllV4(ips)
  {
    if b == [] then [] else ReadIPs(b[..|b| - 4]) + [ReadIP(b[|b| - 4..])]
  }

  predicate AssociationOk(a: Association) {
    a.address.V4? && a.mask.V4?
  }

  predicate AssociationsOk(l: seq<Association>) {
    forall i :: 0 <= i < |l| ==> AssociationOk(l[i])
  }

  function AssociationsBytes(l: seq<Association>): (b: Bytes)
    requires AssociationsOk(l)
    ensures |b| == 8 * |l|
  {
    if l == [] then []
    else AssociationsBytes(l[..|l| - 1]) + (IPBytes(l[|l| - 1].address) + IPBytes(l[|l| - 1].mask))
  }

  function ReadAssociations(b: Bytes): (l: seq<Association>)
    requires |b| % 8 == 0
    ensures |l| == |b| / 8
  {
    if b == [] then []
    else ReadAssociations(b[..|b| - 8]) + [ReadAssociation(b[|b| - 8..])]
  }

  function ReadAssociation(b: Bytes): Association
    requires |b| == 8
  {
    Association(ReadIP(b[..4]), ReadIP(b[..4]), ReadIP(b[4..]))
  }

  // ---- Link messages of a HELLO ----

  predicate LinkOk(l: LinkMessage) {
    AllV4(l.addresses) && 4 + 4 * |l.addresses| <= MAX_SIZE
  }

  function LinkBytes(l: LinkMessage): (b: Bytes)
    requires LinkOk(l)
    ensures |b| == 4 + 4 * |l.addresses|
  {
    [l.linkCode, 0] + U16(4 + 4 * |l.addresses|) + IPsBytes(l.addresses)
  }

  predicate LinksOk(ls: seq<LinkMessage>) {
    forall i :: 0 <= i < |ls| ==> LinkOk(ls[i])
  }

  function LinksBytes(ls: seq<LinkMessage>): Bytes
    requires LinksOk(ls)
  {
    if ls == [] then [] else LinksBytes(ls[..|ls| - 1]) + LinkBytes(ls[|ls| - 1])
  }

  /** Puts one more element in front of what the rest is read as. */
  function Cons<A>(x: A, rest: Parsed<seq<A>>): Parsed<seq<A>> {
    match rest
    case Ok(xs) => Ok([x] + xs)
    case Err => Err
    case Panic => Panic
  }

  function DeclaredLinkSize(body: Bytes, off: nat): uint16
    requires off + 4 <= |body|
  {
    AsU16(body[off + 2], body[off + 3])
  }

  /** One link message, from exactly its own bytes. */
  function ReadLink(b: Bytes): Parsed<LinkMessage>
    requires |b| >= 4
  {
    if (|b| - 4) % 4 != 0 then Err else Ok(LinkMessage(b[0], ReadIPs(b[4..])))
  }

  function ReadLinks(body: Bytes, off: nat): Parsed<seq<LinkMessage>>
    decreases |body| - off
  {
    if off >= |body| then Ok([])
    else if |body| - off < 4 then Err
    else
      var size := DeclaredLinkSize(body, off);
      if off + size > |body| then Err
      else if size < 4 then Panic
      else match ReadLink(body[off..off + size])
        case Ok(l) => Cons(l, ReadLinks(body, off + size))
        case Err => Err
        case Panic => Panic
  }

  // ---- Message bodies ----

  predicate BodyOk(body: Body) {
    match body
    case Hello(h) => LinksOk(h.links)
    case Topology(_, ips) => AllV4(ips)
    case Interfaces(ips) => AllV4(ips)
    case Networks(l) => AssociationsOk(l)
    case SourceClaim(s, g) => s.V4? && g.V4?
    case ConfirmParent(s, g, p) => s.V4? && g.V4? && p.V4?
    case Raw(_) => false
  }

  function BodyBytes(body: Body): Bytes
    requires BodyOk(body)
  {
    match body
    case Hello(h) => [0, 0, T.Encode(h.htime), h.willingness] + LinksBytes(h.links)
    case Topology(ansn, ips) => U16(ansn) + [0, 0] + IPsBytes(ips)
    case Interfaces(ips) => IPsBytes(ips)
    case Networks(l) => AssociationsBytes(l)
    case SourceClaim(s, g) => IPBytes(s) + IPBytes(g)
    case ConfirmParent(s, g, p) => IPBytes(s) + IPBytes(g) + IPBytes(p)
  }

  function ReadHello(b: Bytes): Parsed<Body> {
    if |b| < 4 then Err
    else match ReadLinks(b, 4)
      case Ok(ls) => Ok(Hello(HelloMessage(T.Decode(b[2]), b[3], ls)))
      case Err => Err
      case Panic => Panic
  }

  function ReadTopology(b: Bytes): Parsed<Body> {
    if |b| < 4 || (|b| - 4) % 4 != 0 then Err else Ok(Topology(AsU16(b[0], b[1]), ReadIPs(b[4..])))
  }

  function ReadBody(msgType: uint8, b: Bytes): Parsed<Body> {
    if msgType == HELLO then ReadHello(b)
    else if msgType == TC then ReadTopology(b)
    else if msgType == MID then if |b| % 4 != 0 then Err else Ok(Interfaces(ReadIPs(b)))
    else if msgType == HNA then if |b| % 8 != 0 then Err else Ok(Networks(ReadAssociations(b)))
    else if msgType == SOURCE_CLAIM then
      if |b| < 8 then Err else Ok(SourceClaim(ReadIP(b[..4]), ReadIP(b[4..8])))
    else if msgType == CONFIRM_PARENT then
      if |b| < 12 then Err else Ok(ConfirmParent(ReadIP(b[..4]), ReadIP(b[4..8]), ReadIP(b[8..12])))
    else Ok(Raw(b))
  }

  // ---- Messages ----

  predicate MessageOk(m: Message) {
    m.header.originator.V4? && BodyOk(m.body) && 12 + |BodyBytes(m.body)| <= MAX_SIZE
  }

  function HeaderBytes(h: MessageHeader, size: uint16): (b: Bytes)
    requires h.originator.V4?
    ensures |b| == 12
  {
    [h.msgType, T.Encode(h.vtime)] + U16(size) + AfterSize(h)
  }

  /** The header fields behind the size. */
  function AfterSize(h: MessageHeader): (b: Bytes)
    requires h.originator.V4?
    ensures |b| == 8
  {
    IPBytes(h.originator) + [h.ttl, h.hopCount] + U16(h.seqNum)
  }

  function MessageBytes(m: Message): (b: Bytes)
    requires MessageOk(m)
    ensures |b| == 12 + |BodyBytes(m.body)|
  {
    HeaderBytes(m.header, 12 + |BodyBytes(m.body)|) + BodyBytes(m.body)
  }

  function DeclaredSize(data: Bytes, off: nat): uint16
    requires off + 12 <= |data|
  {
    AsU16(data[off + 2], data[off + 3])
  }

  function ReadHeader(b: Bytes): MessageHeader
    requires |b| >= 12
  {
    MessageHeader(b[0], T.Decode(b[1]), ReadIP(b[4..8]), b[8], b[9], AsU16(b[10], b[11]))
  }

  /** One message, from exactly its own bytes. */
  function ReadMessage(b: Bytes): Parsed<Message>
    requires |b| >= 12
  {
    match ReadBody(b[0], b[12..])
    case Ok(body) => Ok(Message(ReadHeader(b), body))
    case Err => Err
    case Panic => Panic
  }

  function ReadMessages(data: Bytes, pktLen: nat, off: nat): Parsed<seq<Message>>
    requires pktLen <= |data|
    decreases pktLen - off
  {
    if off >= pktLen then Ok([])
    else if |data| - off < 12 then Err
    else
      var size := DeclaredSize(data, off);
      if off + size > pktLen then Err
      else if size < 12 then Panic
      else match ReadMessage(data[off..off + size])
        case Ok(m) => Cons(m, ReadMessages(data, pktLen, off + size))
        case Err => Err
        case Panic => Panic
  }

  // ---- Packets ----

  predicate MessagesOk(ms: seq<Message>) {
    forall i :: 0 <= i < |ms| ==> MessageOk(ms[i])
  }

  function MessagesBytes(ms: seq<Message>): Bytes
    requires MessagesOk(ms)
  {
    if ms == [] then [] else MessagesBytes(ms[..|ms| - 1]) + MessageBytes(ms[|ms| - 1])
  }

  /** The packets that can be serialized. */
  predicate PacketOk(p: Packet) {
    MessagesOk(p.messages) && 4 + |MessagesBytes(p.messages)| <= MAX_SIZE
  }

  function PacketBytes(p: Packet): (b: Bytes)
    requires PacketOk(p)
  {
    U16(4 + |MessagesBytes(p.messages)|) + U16(p.header.seqNum) + MessagesBytes(p.messages)
  }

  function ReadPacket(data: Bytes): Parsed<Packet> {
    if |data| < 4 then Err
    else
      var pktLen := AsU16(data[0], data[1]);
      if pktLen < 4 || |data| < pktLen then Err
      else match ReadMessages(data, pktLen, 4)
        case Ok(ms) => Ok(Packet(PacketHeader(pktLen, AsU16(data[2], data[3])), ms))
        case Err => Err
        case Panic => Panic
  }
}
