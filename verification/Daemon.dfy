/** The daemon's packet handling: dispatch, relaying, and the messages it originates. */
module Daemon {
  import opened Common
  import opened Messages
  import opened Wire
  import opened Relay
  import Codec
  import WireProofs
  import opened Routers
  import M = Molsr
  import A = Aliases
  import T = Topology
  import N = Neighbors
  import NT = NeighborTables

  const SYM_CODE: uint8 := 6
  const ASYM_CODE: uint8 := 1
  const LOST_CODE: uint8 := 3

  ghost predicate Lists(msgs: seq<LinkMessage>, code: uint8, a: IP) {
    exists i :: 0 <= i < |msgs| && msgs[i].linkCode == code && a in msgs[i].addresses
  }

  ghost predicate InState(links: NT.Links, a: IP, state: NT.LinkState) {
    a in links && links[a].state == state
  }

  /** The link messages of a HELLO list exactly the links that are symmetric,
      asymmetric and lost, each under its own code. */
  ghost predicate Describes(msgs: seq<LinkMessage>, links: NT.Links) {
    && (forall i :: 0 <= i < |msgs| ==> msgs[i].linkCode in {SYM_CODE, ASYM_CODE, LOST_CODE})
    && (forall a :: Lists(msgs, SYM_CODE, a) <==> InState(links, a, NT.Symmetric))
    && (forall a :: Lists(msgs, ASYM_CODE, a) <==> InState(links, a, NT.Asymmetric))
    && (forall a :: Lists(msgs, LOST_CODE, a) <==> InState(links, a, NT.Lost))
  }

  /** In numbers: symmetric links are listed under link type 2 and neighbour type 1,
      asymmetric ones under link type 1, lost ones under link type 3, both with neighbour
      type 0; nothing else is listed. */
  lemma DescribedInNumbers(msgs: seq<LinkMessage>, links: NT.Links, a: IP)
    requires Describes(msgs, links)
    ensures (exists i :: 0 <= i < |msgs| && a in msgs[i].addresses && msgs[i].linkCode == 2 + 4 * 1) <==>
              a in links && links[a].state == NT.Symmetric
    ensures (exists i :: 0 <= i < |msgs| && a in msgs[i].addresses && msgs[i].linkCode == 1 + 4 * 0) <==>
              a in links && links[a].state == NT.Asymmetric
    ensures (exists i :: 0 <= i < |msgs| && a in msgs[i].addresses && msgs[i].linkCode == 3 + 4 * 0) <==>
              a in links && links[a].state == NT.Lost
    ensures forall i :: 0 <= i < |msgs| ==> msgs[i].linkCode == 6 || msgs[i].linkCode == 1 || msgs[i].linkCode == 3
  {
    assert Lists(msgs, SYM_CODE, a) <==> InState(links, a, NT.Symmetric);
    assert Lists(msgs, ASYM_CODE, a) <==> InState(links, a, NT.Asymmetric);
    assert Lists(msgs, LOST_CODE, a) <==> InState(links, a, NT.Lost);
  }

  /** By a HELLO that the daemon builds, a receiver counts itself as heard exactly if it is
      heard under its own identity, that is, if there is a symmetric or asymmetric link
      filed under that as the address HELLOs came from. And it takes for two-hop nodes
      the addresses of symmetric links, and only those. */
  lemma OwnHelloHeard(msgs: seq<LinkMessage>, links: NT.Links, you: IP)
    requires Describes(msgs, links)
    ensures NT.HearsUs(msgs, you) <==> InState(links, you, NT.Symmetric) || InState(links, you, NT.Asymmetric)
    ensures you in NT.Advertised(msgs) <==> InState(links, you, NT.Symmetric)
  {
    assert Lists(msgs, SYM_CODE, you) <==> InState(links, you, NT.Symmetric);
    assert Lists(msgs, ASYM_CODE, you) <==> InState(links, you, NT.Asymmetric);
  }

  /** No symmetric neighbour, no two-hop node, no relay. */
  ghost predicate Alone(s: NT.Tables) {
    (forall a :: a in s.neighbors ==> !s.neighbors[a].symmetric) && s.twoHops == map[] && s.mprSet == {}
  }

  /** So a router that no sender of HELLOs knows by its own identity is always alone. */
  lemma {:induction false} UnknownStaysAlone(me: IP, steps: seq<NT.Step>, states: seq<NT.Tables>, i: nat)
    requires NT.Run(me, steps, states) && i < |states|
    requires forall k :: 0 <= k < |steps| && steps[k].HelloReceived? ==>
               exists links :: Describes(steps[k].hello.links, links) && me !in links
    ensures Alone(states[i])
  {
    hide Alone, NT.HelloStep, NT.AgeStep, Describes;
    if i == 0 {
      EmptyIsAlone();
    } else {
      UnknownStaysAlone(me, steps, states, i - 1);
      var s, s' := states[i - 1], states[i];
      assert NT.StepTo(me, s, steps[i - 1], s');
      match steps[i - 1] {
        case HelloReceived(sender, originator, hello, vtime, at) =>
          var links :| Describes(hello.links, links) && me !in links;
          OwnHelloHeard(hello.links, links, me);
          AloneAfterHello(me, s, sender, originator, hello, vtime, at, s');
        case Aged(at) =>
          AloneAfterAging(s, at, s');
      }
    }
  }

  lemma EmptyIsAlone()
    ensures Alone(NT.EMPTY)
  {}

  lemma AloneAfterHello(me: IP, s: NT.Tables, sender: IP, originator: IP, hello: HelloMessage, vtime: Nanos, now: Nanos, s': NT.Tables)
    requires Alone(s) && NT.HelloStep(me, s, sender, originator, hello, vtime, now, s') && !NT.HearsUs(hello.links, me)
    ensures Alone(s')
  {
    hide NT.HearsUs, NT.SelectsUs, NT.MprChoice;
    var t := NT.AfterHello(me, s, sender, originator, hello, now + vtime);
    assert t.twoHops == map[];
    RecalculatedAlone(t, now, s');
  }

  lemma AloneAfterAging(s: NT.Tables, now: Nanos, s': NT.Tables)
    requires Alone(s) && NT.AgeStep(s, now, s')
    ensures Alone(s')
  {
    hide NT.MprChoice;
    assert NT.AfterAging(s, now).twoHops == map[];
    RecalculatedAlone(NT.AfterAging(s, now), now, s');
  }

  lemma RecalculatedAlone(t: NT.Tables, now: Nanos, s: NT.Tables)
    requires Alone(t)
    ensures NT.Recalculated(t, now, s) ==> Alone(s)
  {
    if NT.Recalculated(t, now, s) {
      NT.MprCoverage(t.neighbors, t.twoHops, now, s.mprSet);
      assert forall m :: m !in s.mprSet;
    }
  }

  /** It never names anyone as a multipoint relay. */
  lemma OwnHelloSelectsNobody(msgs: seq<LinkMessage>, links: NT.Links, you: IP)
    requires Describes(msgs, links)
    ensures !NT.SelectsUs(msgs, you)
  {}

  /** So in a network of such daemons, whatever HELLOs arrive in whatever order, no
      router ever has a selector. */
  lemma {:induction false} NobodyIsSelected(me: IP, steps: seq<NT.Step>, states: seq<NT.Tables>, i: nat)
    requires NT.Run(me, steps, states) && i < |states|
    requires forall k :: 0 <= k < |steps| && steps[k].HelloReceived? ==>
               exists links :: Describes(steps[k].hello.links, links)
    ensures states[i].mprSelectors == map[]
  {
    if i > 0 {
      NobodyIsSelected(me, steps, states, i - 1);
      match steps[i - 1] {
        case HelloReceived(sender, originator, hello, vtime, at) =>
          var links :| Describes(hello.links, links);
          OwnHelloSelectsNobody(hello.links, links, me);
        case Aged(at) =>
      }
      assert NT.StepTo(me, states[i - 1], steps[i - 1], states[i]);
    }
  }

  /** Then only source claims are ever relayed. */
  lemma OnlyClaimsRelayed(sender: IP, m: Message, now: Nanos)
    ensures ShouldForward(sender, m, map[], now) <==> m.header.ttl > 1 && m.header.msgType == SOURCE_CLAIM
  {}

  ghost function Broadcasts(h: PacketHeader, ms: seq<Message>): seq<Bytes>
    requires forall i :: 0 <= i < |ms| ==> PacketOk(Packet(h, [ms[i]]))
  {
    if ms == [] then []
    else Broadcasts(h, ms[..|ms| - 1]) + [PacketBytes(Packet(h, [ms[|ms| - 1]]))]
  }

  lemma OneMoreBroadcast(h: PacketHeader, ms: seq<Message>, m: Message)
    requires (forall i :: 0 <= i < |ms| ==> PacketOk(Packet(h, [ms[i]]))) && PacketOk(Packet(h, [m]))
    ensures forall i :: 0 <= i < |ms + [m]| ==> PacketOk(Packet(h, [(ms + [m])[i]]))
    ensures Broadcasts(h, ms + [m]) == Broadcasts(h, ms) + [PacketBytes(Packet(h, [m]))]
  {
    hide PacketOk, PacketBytes;
    assert (ms + [m])[..|ms|] == ms;
  }

  lemma SingletonPacket(h: PacketHeader, m: Message)
    ensures PacketOk(Packet(h, [m])) <==> Sendable(m)
  {
    hide MessageOk, MessageBytes;
    assert [m][..0] == [];
    assert [m][0] == m;
    if MessageOk(m) {
      assert MessagesBytes([m]) == MessageBytes(m);
    }
  }

  lemma RelayedSendable(h: PacketHeader, m: Message)
    requires m.header.ttl > 0
    ensures PacketOk(Packet(h, [Relayed(m)])) <==> Sendable(m)
  {
    SingletonPacket(h, Relayed(m));
    if MessageOk(m) {
      WireProofs.RelayedBytes(m);
    }
  }

  class Daemon {
    const routerID: IP
    const topoMgr: T.TopologyManager
    const neighMgr: N.NeighborManager
    const molsrMgr: M.MOLSRManager
    var packetSeq: uint16
    var messageSeq: uint16
    /** Every packet handed to the interfaces, oldest first. */
    var sent: seq<Bytes>

    ghost function State(): Router
      reads topoMgr, neighMgr, molsrMgr
    {
      Router(neighMgr.State(), topoMgr.topology, topoMgr.Mids(), topoMgr.duplicates,
             molsrMgr.sourceClaims, molsrMgr.confirmParents)
    }

    /** The managers work for the same router. */
    predicate Wired() {
      neighMgr.routerID == routerID && molsrMgr.routerID == routerID
    }

    constructor (routerID: IP)
      ensures this.routerID == routerID && Wired()
      ensures fresh(topoMgr) && fresh(neighMgr) && fresh(molsrMgr)
      ensures State() == EMPTY && sent == [] && packetSeq == 0 && messageSeq == 0
    {
      this.routerID := routerID;
      topoMgr := new T.TopologyManager();
      neighMgr := new N.NeighborManager(routerID);
      molsrMgr := new M.MOLSRManager(routerID);
      packetSeq, messageSeq, sent := 0, 0, [];
    }

    /** One received datagram. Unless it parses nothing happens (and the parser's panic
        is passed on); otherwise its messages are handled in order: `trace` is what they
        make of the tables one after the other, and the broadcasts are what relaying by
        the rule makes of them. */
    method ProcessReceivedData(data: Bytes, raddr: IP, now: Nanos) returns (panicked: bool, ghost trace: seq<Router>)
      requires Wired()
      modifies this`sent, topoMgr, neighMgr, molsrMgr
      ensures panicked <==> ReadPacket(data).Panic?
      ensures !ReadPacket(data).Ok? ==> State() == old(State()) && sent == old(sent)
      ensures ReadPacket(data).Ok? ==> var p := ReadPacket(data).value; Outcome(p, raddr, now, old(State()), trace, old(sent), sent)
      ensures ReadPacket(data).Ok? ==> trace[|trace| - 1] == State()
    {
      hide Outcome;
      var parsed := Codec.DeserializePacket(data);
      if !parsed.Ok? {
        return parsed.Panic?, [];
      }
      trace := ProcessMessages(parsed.value, raddr, now);
      panicked := false;
      OutcomeTrace(parsed.value, raddr, now, old(State()), trace, old(sent), sent);
    }

    /** The messages lead from state r through the trace, and to one broadcast for each
        that is relayed. */
    ghost predicate Outcome(p: Packet, raddr: IP, now: Nanos, r: Router, trace: seq<Router>, before: seq<Bytes>, after: seq<Bytes>) {
      && Handled(routerID, raddr, now, p.messages, trace) && trace[0] == r
      && var relays := HandleAll(routerID, raddr, now, p.messages, ViewOf(r)).1;
         && (forall i :: 0 <= i < |relays| ==> PacketOk(Packet(p.header, [relays[i]])))
         && after == before + Broadcasts(p.header, relays)
    }

    lemma OutcomeTrace(p: Packet, raddr: IP, now: Nanos, r: Router, trace: seq<Router>, before: seq<Bytes>, after: seq<Bytes>)
      requires Outcome(p, raddr, now, r, trace, before, after)
      ensures |trace| == |p.messages| + 1
    {}

    method ProcessMessages(pkt: Packet, raddr: IP, now: Nanos) returns (ghost trace: seq<Router>)
      requires Wired()
      modifies this`sent, topoMgr, neighMgr, molsrMgr
      ensures Outcome(pkt, raddr, now, old(State()), trace, old(sent), sent)
      ensures |trace| > 0 && trace[|trace| - 1] == State()
    {
      hide Handle, HandleAll, PacketOk, PacketBytes, Broadcasts, MessageStep, Handled, ViewOf;
      ghost var start, before := State(), sent;
      StartOutcome(pkt, raddr, now, start, before);
      ghost var relays: seq<Message> := [];
      trace := [start];
      for i := 0 to |pkt.messages|
        invariant |trace| == i + 1 && trace[0] == start && trace[i] == State()
        invariant Handled(routerID, raddr, now, pkt.messages[..i], trace)
        invariant HandleAll(routerID, raddr, now, pkt.messages[..i], ViewOf(start)) == (ViewOf(State()), relays)
        invariant forall j :: 0 <= j < |relays| ==> PacketOk(Packet(pkt.header, [relays[j]]))
        invariant sent == before + Broadcasts(pkt.header, relays)
      {
        var m := pkt.messages[i];
        ghost var r := State();
        HandleAllStep(routerID, raddr, now, pkt.messages, i, ViewOf(start));
        var fwd := ProcessMessage(m, pkt.header, raddr, now);
        HandleIsStep(routerID, raddr, now, m, r, State());
        HandledOneMore(routerID, raddr, now, pkt.messages, i, trace, State());
        trace := trace + [State()];
        ghost var relay := Handle(routerID, raddr, now, m, ViewOf(r)).1;
        if fwd.Some? {
          OneMoreBroadcast(pkt.header, relays, relay.value);
          relays := relays + [relay.value];
          sent := sent + [fwd.value];
        }
      }
      assert pkt.messages[..|pkt.messages|] == pkt.messages;
    }

    lemma StartOutcome(pkt: Packet, raddr: IP, now: Nanos, r: Router, before: seq<Bytes>)
      ensures Handled(routerID, raddr, now, pkt.messages[..0], [r])
      ensures HandleAll(routerID, raddr, now, pkt.messages[..0], ViewOf(r)) == (ViewOf(r), [])
      ensures before == before + Broadcasts(pkt.header, [])
    {
      assert pkt.messages[..0] == [];
      HandleNone(routerID, raddr, now, ViewOf(r));
    }

    /** One message; gives the packet to broadcast, if the message is relayed. */
    method ProcessMessage(m: Message, h: PacketHeader, raddr: IP, now: Nanos) returns (fwd: Option<Bytes>)
      requires Wired()
      modifies topoMgr, neighMgr, molsrMgr
      ensures MessageStep(routerID, raddr, now, m, old(State()), State())
      ensures var relay := Handle(routerID, raddr, now, m, ViewOf(old(State()))).1;
              && (fwd.Some? <==> relay.Some?)
              && (relay.Some? ==> PacketOk(Packet(h, [relay.value])) && fwd.value == PacketBytes(Packet(h, [relay.value])))
    {
      hide PacketOk, PacketBytes, Sendable, NT.HelloStep, NT.SelectorsAfter, T.TcEffect, M.ClaimEffect, M.ConfirmEffect;
      fwd := None;
      if m.header.originator == routerID {
        return;
      }
      var dup := topoMgr.IsDuplicate(m.header.originator, m.header.seqNum, m.header.vtime, now);
      if dup {
        return;
      }
      Dispatch(m, raddr, now);
      assert MessageStep(routerID, raddr, now, m, old(State()), State());
      HandleIsStep(routerID, raddr, now, m, old(State()), State());
      var forward := ShouldForwardMessage(raddr, m, now);
      if forward {
        RelayedSendable(h, m);
        fwd := Codec.SerializePacket(Packet(h, [Relayed(m)]));
      }
    }

    /** Hands a new message to the manager that it is for. */
    method Dispatch(m: Message, raddr: IP, now: Nanos)
      requires Wired()
      modifies topoMgr, neighMgr, molsrMgr
      ensures topoMgr.duplicates == old(topoMgr.duplicates)
      ensures TablesStep(routerID, raddr, now, m, old(neighMgr.State()), neighMgr.State())
      ensures TuplesStep(now, m, old(topoMgr.topology), topoMgr.topology)
      ensures topoMgr.Mids() == MidsAfter(m, old(topoMgr.Mids()))
      ensures ClaimsStep(now, m, old(molsrMgr.sourceClaims), molsrMgr.sourceClaims)
      ensures ConfirmedStep(routerID, now, m, old(molsrMgr.confirmParents), molsrMgr.confirmParents)
    {
      hide NT.HelloStep, T.TcEffect, M.ClaimEffect, M.ConfirmEffect, A.Declare;
      var h := m.header;
      if h.msgType == HELLO && m.body.Hello? {
        neighMgr.ProcessHello(raddr, h.originator, m.body.hello, h.vtime, now);
      } else if h.msgType == TC && m.body.Topology? {
        topoMgr.ProcessTC(h.originator, m.body.ansn, m.body.neighbors, h.vtime, now);
      } else if h.msgType == MID && m.body.Interfaces? {
        topoMgr.ProcessMID(h.originator, m.body.addresses);
      } else if h.msgType == SOURCE_CLAIM && m.body.SourceClaim? {
        molsrMgr.ProcessSourceClaim(m.body.source, m.body.group, h.vtime, now);
      } else if h.msgType == CONFIRM_PARENT && m.body.ConfirmParent? {
        molsrMgr.ProcessConfirmParent(h.originator, m.body.source, m.body.group, m.body.parent, h.vtime, now);
      }
    }

    /** One ageing pass over all tables. */
    method PerformAging(now: Nanos)
      modifies topoMgr, neighMgr, molsrMgr
      ensures AgingStep(now, old(State()), State())
    {
      hide NT.AgeStep, T.AgedTuples, M.AgedSources, M.AgedConfirmed;
      var _ := neighMgr.AgeOut(now);
      var _ := topoMgr.AgeOut(now);
      var _ := molsrMgr.AgeOut(now);
    }

    method ShouldForwardMessage(raddr: IP, m: Message, now: Nanos) returns (r: bool)
      ensures r <==> ShouldForward(raddr, m, neighMgr.mprSelectors, now)
    {
      if m.header.ttl <= 1 || m.header.msgType == HELLO || m.header.msgType == CONFIRM_PARENT {
        return false;
      }
      if m.header.msgType == SOURCE_CLAIM {
        return true;
      }
      r := neighMgr.IsSelector(raddr, now);
    }

    /** Takes the next packet and message numbers, which wrap at 16 bits. */
    method NextNumbers() returns (pktSeq: uint16, msgSeq: uint16)
      modifies this`packetSeq, this`messageSeq
      ensures pktSeq == old(packetSeq) && packetSeq == (old(packetSeq) + 1) % 0x1_0000
      ensures msgSeq == old(messageSeq) && messageSeq == (old(messageSeq) + 1) % 0x1_0000
    {
      pktSeq, msgSeq := packetSeq, messageSeq;
      packetSeq, messageSeq := (packetSeq + 1) % 0x1_0000, (messageSeq + 1) % 0x1_0000;
    }

    /** The periodic HELLO: never to be relayed, and listing every link by its state. */
    method SendHello(helloInterval: Nanos) returns (pkt: Packet)
      modifies this
      ensures |pkt.messages| == 1 && pkt.header.seqNum == old(packetSeq)
      ensures pkt.messages[0].header == MessageHeader(HELLO, 6_000_000_000, routerID, 1, 0, old(messageSeq))
      ensures pkt.messages[0].body.Hello? && pkt.messages[0].body.hello.htime == helloInterval
      ensures pkt.messages[0].body.hello.willingness == 3
      ensures Describes(pkt.messages[0].body.hello.links, neighMgr.links)
      ensures messageSeq == (old(messageSeq) + 1) % 0x1_0000
      ensures sent == if PacketOk(pkt) then old(sent) + [PacketBytes(pkt)] else old(sent)
    {
      var pktSeq, msgSeq := NextNumbers();
      var links := DescribeLinks();
      pkt := Packet(PacketHeader(0, pktSeq),
                    [Message(MessageHeader(HELLO, 6_000_000_000, routerID, 1, 0, msgSeq),
                             Hello(HelloMessage(helloInterval, WILL_DEFAULT, links)))]);
      BroadcastPacket(pkt);
    }

    method DescribeLinks() returns (msgs: seq<LinkMessage>)
      ensures Describes(msgs, neighMgr.links)
    {
      var links := neighMgr.links;
      var sym: seq<IP>, asym: seq<IP>, lost: seq<IP> := [], [], [];
      var todo := links.Keys;
      while todo != {}
        invariant todo <= links.Keys
        invariant forall a :: a in sym <==> a !in todo && InState(links, a, NT.Symmetric)
        invariant forall a :: a in asym <==> a !in todo && InState(links, a, NT.Asymmetric)
        invariant forall a :: a in lost <==> a !in todo && InState(links, a, NT.Lost)
        decreases todo
      {
        var a :| a in todo;
        todo := todo - {a};
        match links[a].state {
          case Symmetric => sym := sym + [a];
          case Asymmetric => asym := asym + [a];
          case Lost => lost := lost + [a];
          case Pending =>
        }
      }
      msgs := [];
      if |sym| > 0 {
        msgs := msgs + [LinkMessage(SYM_CODE, sym)];
      }
      if |asym| > 0 {
        msgs := msgs + [LinkMessage(ASYM_CODE, asym)];
      }
      if |lost| > 0 {
        msgs := msgs + [LinkMessage(LOST_CODE, lost)];
      }
      ListsAre(msgs, sym, asym, lost);
    }

    /** The periodic topology message: sent only if there are unexpired selectors,
        advertising exactly those, numbered with the message's own number, to be flooded
        as far as 255 hops. */
    method SendTC(now: Nanos) returns (pkt: Option<Packet>, ghost selectors: seq<IP>)
      modifies this
      ensures forall ip :: ip in selectors <==> Relay.IsSelector(neighMgr.mprSelectors, ip, now)
      ensures forall i, j :: 0 <= i < j < |selectors| ==> selectors[i] != selectors[j]
      ensures selectors == [] ==> pkt == None && sent == old(sent) && messageSeq == old(messageSeq)
      ensures selectors != [] ==>
                pkt.Some? && |pkt.value.messages| == 1
                && pkt.value.messages[0].header == MessageHeader(TC, 15_000_000_000, routerID, 255, 0, old(messageSeq))
                && pkt.value.messages[0].body == Topology(old(messageSeq), selectors)
                && messageSeq == (old(messageSeq) + 1) % 0x1_0000
                && sent == if PacketOk(pkt.value) then old(sent) + [PacketBytes(pkt.value)] else old(sent)
    {
      hide PacketOk, PacketBytes;
      var advertised := neighMgr.GetMPRSelectors(now);
      selectors := advertised;
      if |advertised| == 0 {
        return None, selectors;
      }
      var pktSeq, msgSeq := NextNumbers();
      var p := Packet(PacketHeader(0, pktSeq),
                      [Message(MessageHeader(TC, 15_000_000_000, routerID, 255, 0, msgSeq), Topology(msgSeq, advertised))]);
      BroadcastPacket(p);
      pkt := Some(p);
    }

    method BroadcastPacket(pkt: Packet)
      modifies this`sent
      ensures sent == if PacketOk(pkt) then old(sent) + [PacketBytes(pkt)] else old(sent)
    {
      var data := Codec.SerializePacket(pkt);
      if data.Some? {
        sent := sent + [data.value];
      }
    }
  }

  lemma ListsAre(msgs: seq<LinkMessage>, sym: seq<IP>, asym: seq<IP>, lost: seq<IP>)
    requires msgs == (if |sym| > 0 then [LinkMessage(SYM_CODE, sym)] else [])
                     + (if |asym| > 0 then [LinkMessage(ASYM_CODE, asym)] else [])
                     + (if |lost| > 0 then [LinkMessage(LOST_CODE, lost)] else [])
    ensures forall a :: Lists(msgs, SYM_CODE, a) <==> a in sym
    ensures forall a :: Lists(msgs, ASYM_CODE, a) <==> a in asym
    ensures forall a :: Lists(msgs, LOST_CODE, a) <==> a in lost
  {
    var i := if |sym| > 0 then 1 else 0;
    var j := if |asym| > 0 then i + 1 else i;
    forall a
      ensures a in sym ==> Lists(msgs, SYM_CODE, a)
      ensures a in asym ==> Lists(msgs, ASYM_CODE, a)
      ensures a in lost ==> Lists(msgs, LOST_CODE, a)
    {
      assert a in sym ==> a in msgs[0].addresses;
      assert a in asym ==> a in msgs[i].addresses;
      assert a in lost ==> a in msgs[j].addresses;
    }
  }
}
