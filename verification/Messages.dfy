/** The packets and messages of the protocol, and their type codes. */
module Messages {
  import opened Common

  const HELLO: uint8 := 1
  const TC: uint8 := 2
  const MID: uint8 := 3
  const HNA: uint8 := 4
  const SOURCE_CLAIM: uint8 := 108
  const CONFIRM_PARENT: uint8 := 109

  const LINK_ASYM := 1
  const LINK_SYM := 2

  const NEIGH_SYM := 1
  const NEIGH_MPR := 2

  const WILL_NEVER: uint8 := 0
  const WILL_DEFAULT: uint8 := 3

  datatype LinkMessage = LinkMessage(linkCode: uint8, addresses: seq<IP>)

  datatype HelloMessage = HelloMessage(htime: Nanos, willingness: uint8, links: seq<LinkMessage>)

  /** An announced network; `maskIP` is the address part of the mask's own record. */
  datatype Association = Association(address: IP, maskIP: IP, mask: IP)

  datatype Body =
    | Hello(hello: HelloMessage)
    | Topology(ansn: uint16, neighbors: seq<IP>)
    | Interfaces(addresses: seq<IP>)
    | Networks(associations: seq<Association>)
    | SourceClaim(source: IP, group: IP)
    | ConfirmParent(source: IP, group: IP, parent: IP)
    | Raw(bytes: seq<uint8>)

  datatype MessageHeader = MessageHeader(msgType: uint8, vtime: Nanos, originator: IP,
                                         ttl: uint8, hopCount: uint8, seqNum: uint16)

  datatype Message = Message(header: MessageHeader, body: Body)

  datatype PacketHeader = PacketHeader(length: int, seqNum: uint16)

  datatype Packet = Packet(header: PacketHeader, messages: seq<Message>)

  /** The low two bits of a link code. */
  function LinkType(code: uint8): nat {
    code % 4
  }

  /** The next two bits of a link code. */
  function NeighType(code: uint8): nat {
    code / 4 % 4
  }

  /** The copy that a relay sends on: one less to live, one more hop. */
  function Relayed(m: Message): Message
    requires m.header.ttl > 0
  {
    m.(header := m.header.(ttl := m.header.ttl - 1, hopCount := (m.header.hopCount + 1) % 256))
  }
}
