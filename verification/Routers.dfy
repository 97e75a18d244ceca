/** One router's tables as a whole: what each message and each ageing pass does to them,
    and which links its routes use. */
module Routers {
  import opened Common
  import opened Messages
  import opened Graphs
  import opened Prefixes
  import opened RouteTables
  import A = Aliases
  import D = Duplicates
  import M = Molsr
  import NT = NeighborTables
  import T = Topology

  datatype Router = Router(tables: NT.Tables, tuples: T.Tuples, mids: A.Mids, dups: D.Dups,
                           claims: M.Sources, confirmed: M.Confirmed)

  const EMPTY := Router(NT.EMPTY, map[], A.EMPTY, map[], map[], map[])

  /** A message that is neither this router's own nor a duplicate. */
  predicate IsNew(me: IP, r: Router, m: Message, now: Nanos) {
    m.header.originator != me && !D.Live(r.dups, m.header.originator, m.header.seqNum, now)
  }

  ghost predicate TablesStep(me: IP, sender: IP, now: Nanos, m: Message, s: NT.Tables, s': NT.Tables) {
    if m.header.msgType == HELLO && m.body.Hello?
    then NT.HelloStep(me, s, sender, m.header.originator, m.body.hello, m.header.vtime, now, s')
    else s' == s
  }

  ghost predicate TuplesStep(now: Nanos, m: Message, t: T.Tuples, t': T.Tuples) {
    if m.header.msgType == TC && m.body.Topology?
    then T.TcEffect(t, t', m.header.originator, m.body.ansn, m.body.neighbors, now + m.header.vtime)
    else t' == t
  }

  function MidsAfter(m: Message, mids: A.Mids): A.Mids {
    if m.header.msgType == MID && m.body.Interfaces? then A.Declare(mids, m.header.originator, m.body.addresses) else mids
  }

  ghost predicate ClaimsStep(now: Nanos, m: Message, c: M.Sources, c': M.Sources) {
    if m.header.msgType == SOURCE_CLAIM && m.body.SourceClaim?
    then M.ClaimEffect(c, c', m.body.group, m.body.source, now + m.header.vtime)
    else c' == c
  }

  ghost predicate ConfirmedStep(me: IP, now: Nanos, m: Message, c: M.Confirmed, c': M.Confirmed) {
    if m.header.msgType == CONFIRM_PARENT && m.body.ConfirmParent? && m.body.parent == me
    then M.ConfirmEffect(c, c', m.body.group, m.body.source, m.header.originator, now + m.header.vtime)
    else c' == c
  }

  /** Everything one message does to the tables. */
  ghost predicate MessageStep(me: IP, sender: IP, now: Nanos, m: Message, r: Router, r': Router) {
    if !IsNew(me, r, m, now) then r' == r
    else
      && r'.dups == D.AfterQuery(r.dups, m.header.originator, m.header.seqNum, m.header.vtime, now)
      && TablesStep(me, sender, now, m, r.tables, r'.tables)
      && TuplesStep(now, m, r.tuples, r'.tuples)
      && r'.mids == MidsAfter(m, r.mids)
      && ClaimsStep(now, m, r.claims, r'.claims)
      && ConfirmedStep(me, now, m, r.confirmed, r'.confirmed)
  }

  /** Everything an ageing pass does. */
  ghost predicate AgingStep(now: Nanos, r: Router, r': Router) {
    && NT.AgeStep(r.tables, now, r'.tables)
    && r' == Router(r'.tables, T.AgedTuples(r.tuples, now), r.mids, D.AfterAging(r.dups, now),
                    M.AgedSources(r.claims, now), M.AgedConfirmed(r.confirmed, now))
  }

  /** The messages of a packet, one after the other. */
  ghost predicate Handled(me: IP, sender: IP, now: Nanos, ms: seq<Message>, trace: seq<Router>) {
    && |trace| == |ms| + 1
    && forall i {:trigger ms[i]} :: 0 <= i < |ms| ==> MessageStep(me, sender, now, ms[i], trace[i], trace[i + 1])
  }

  lemma HandledOneMore(me: IP, sender: IP, now: Nanos, ms: seq<Message>, i: nat, trace: seq<Router>, r: Router)
    requires i < |ms| && Handled(me, sender, now, ms[..i], trace)
    requires MessageStep(me, sender, now, ms[i], trace[i], r)
    ensures Handled(me, sender, now, ms[..i + 1], trace + [r])
  {
    hide MessageStep;
    forall k | 0 <= k < i + 1
      ensures MessageStep(me, sender, now, ms[..i + 1][k], (trace + [r])[k], (trace + [r])[k + 1])
    {
      assert k < i ==> ms[..i][k] == ms[k];
    }
  }

  // ---- Runs ----

  datatype Step = Received(sender: IP, msg: Message, at: Nanos) | Aged(at: Nanos)

  ghost predicate StepTo(me: IP, r: Router, step: Step, r': Router) {
    match step
    case Received(sender, m, at) => MessageStep(me, sender, at, m, r, r')
    case Aged(at) => AgingStep(at, r, r')
  }

  ghost predicate Run(me: IP, steps: seq<Step>, states: seq<Router>) {
    && |states| == |steps| + 1 && states[0] == EMPTY
    && forall i {:trigger steps[i]} :: 0 <= i < |steps| ==> StepTo(me, states[i], steps[i], states[i + 1])
  }

  /** Nothing this router originated is taken for a neighbour's or a remote router's. */
  ghost predicate OwnFree(me: IP, s: NT.Tables, tuples: T.Tuples) {
    && me !in s.twoHops && me !in s.neighbors && NT.Named(s.neighbors)
    && (forall d :: !T.Known(tuples, d, me)) && T.Filed(tuples)
  }

  lemma HelloKeepsOwnFree(me: IP, sender: IP, now: Nanos, m: Message, s: NT.Tables, s': NT.Tables, t: T.Tuples)
    requires TablesStep(me, sender, now, m, s, s') && m.header.originator != me && OwnFree(me, s, t)
    ensures OwnFree(me, s', t)
  {
    hide NT.MprChoice, T.Filed, T.Known;
  }

  lemma TcKeepsOwnFree(me: IP, now: Nanos, m: Message, s: NT.Tables, t: T.Tuples, t': T.Tuples)
    requires TuplesStep(now, m, t, t') && m.header.originator != me && OwnFree(me, s, t)
    ensures OwnFree(me, s, t')
  {
    forall d, l | T.Known(t', d, l)
      ensures l != me && t'[d][l].dest == d && t'[d][l].last == l
    {
      assert T.Known(t, d, l) ==> t[d][l].dest == d && t[d][l].last == l;
    }
  }

  lemma AgingKeepsOwnFree(me: IP, now: Nanos, s: NT.Tables, s': NT.Tables, t: T.Tuples)
    requires NT.AgeStep(s, now, s') && OwnFree(me, s, t)
    ensures OwnFree(me, s', T.AgedTuples(t, now))
  {
    forall d, l | T.Known(T.AgedTuples(t, now), d, l)
      ensures T.Known(t, d, l) && T.AgedTuples(t, now)[d][l] == t[d][l]
    {
      T.AgedExactly(t, now, d, l);
    }
    hide NT.MprChoice, T.Known, T.AgedTuples;
    assert s'.neighbors == NT.AfterAging(s, now).neighbors && s'.twoHops == NT.AfterAging(s, now).twoHops;
  }

  /** In every state of every run, because own messages are dropped first. */
  lemma {:induction false} RunKeepsOwnFree(me: IP, steps: seq<Step>, states: seq<Router>, i: nat)
    requires Run(me, steps, states) && i < |states|
    ensures OwnFree(me, states[i].tables, states[i].tuples)
  {
    hide OwnFree, TablesStep, TuplesStep, ClaimsStep, ConfirmedStep, NT.AgeStep;
    if i == 0 {
      EmptyIsOwnFree(me);
    } else {
      RunKeepsOwnFree(me, steps, states, i - 1);
      var r, r' := states[i - 1], states[i];
      assert StepTo(me, r, steps[i - 1], r');
      match steps[i - 1] {
        case Received(sender, m, at) =>
          if IsNew(me, r, m, at) {
            HelloKeepsOwnFree(me, sender, at, m, r.tables, r'.tables, r.tuples);
            TcKeepsOwnFree(me, at, m, r'.tables, r.tuples, r'.tuples);
          }
        case Aged(at) =>
          AgingKeepsOwnFree(me, at, r.tables, r'.tables, r.tuples);
      }
    }
  }

  lemma EmptyIsOwnFree(me: IP)
    ensures OwnFree(me, EMPTY.tables, EMPTY.tuples)
  {}

  // ---- The links that routes use ----

  ghost predicate Stored(tuples: T.Tuples, t: TopologyTuple) {
    exists d, l :: T.Known(tuples, d, l) && tuples[d][l] == t
  }

  /** A route calculation from these tables: the neighbours listed, two-hop lists and
      topology tuples that are stored, and a route table for the resulting graph. */
  ghost predicate Calculated(me: IP, s: NT.Tables, tuples: T.Tuples, neighbors: seq<IP>, twoHops: map<IP, seq<IP>>,
                             topology: seq<TopologyTuple>, hna: seq<HNAEntry>, iface: IP -> int, g: Graph,
                             table: map<Prefix, Route>)
  {
    && (forall a :: a in neighbors <==> NT.Listed(s, a))
    && twoHops.Keys <= s.twoHops.Keys
    && (forall t :: t in topology ==> Stored(tuples, t))
    && IsAdjacency(g, me, neighbors, twoHops, topology)
    && IsRouteTable(g, me, hna, iface, table)
  }

  /** Every route of every state leaves over a link that is not lost. */
  lemma RoutesUseListedLinks(me: IP, s: NT.Tables, tuples: T.Tuples, neighbors: seq<IP>, twoHops: map<IP, seq<IP>>,
                             topology: seq<TopologyTuple>, hna: seq<HNAEntry>, iface: IP -> int, g: Graph,
                             table: map<Prefix, Route>, p: Prefix)
    requires OwnFree(me, s, tuples)
    requires Calculated(me, s, tuples, neighbors, twoHops, topology, hna, iface, g, table) && p in table
    ensures NT.Listed(s, table[p].nextHop)
  {
    forall t | t in topology
      ensures t.last != me
    {
      assert Stored(tuples, t);
    }
    var n, d: nat, extra: nat :|
      Offers(g, me, hna, p, n, d, extra) && FirstHop(g, me, n, table[p].nextHop) && table[p].metric == d + extra;
    FirstHopIsNeighbor(g, me, neighbors, twoHops, topology, n, table[p].nextHop);
  }

  lemma ZeroIsHere(g: Graph, s: IP, t: IP)
    requires UnitCosts(g) && Reaches(g, s, t, 0)
    ensures s == t
  {
    var w :| Connects(g, w, s, t) && Length(g, w) == 0;
    LinksCost(g, w);
  }

  lemma LinksCost(g: Graph, w: Walk)
    requires UnitCosts(g) && InGraph(g, w)
    ensures w.At? || Length(g, w) >= 1
  {}

  lemma NeighborAtOne(g: Graph, s: IP, a: IP)
    requires UnitCosts(g) && Edge(g, s, a) && s != a
    ensures IsDistance(g, s, a, 1)
  {
    ReachesItself(g, s);
    ReachesExtend(g, s, s, a, 0);
    forall w | Connects(g, w, s, a)
      ensures 1 <= Length(g, w)
    {
      LinksCost(g, w);
    }
  }

  lemma OnlyItselfAtOne(g: Graph, s: IP, a: IP, nh: IP)
    requires UnitCosts(g) && FirstHop(g, s, a, nh) && IsDistance(g, s, a, 1)
    ensures nh == a
  {
    var d: nat :| IsDistance(g, nh, a, d) && IsDistance(g, s, a, Cost(g, s, nh) + d);
    DistanceUnique(g, s, a, 1, Cost(g, s, nh) + d);
    ZeroIsHere(g, nh, a);
  }

  /** A listed neighbour is its own next hop, at metric one, whatever else is known. */
  lemma ListedIsOwnHop(me: IP, s: NT.Tables, tuples: T.Tuples, neighbors: seq<IP>, twoHops: map<IP, seq<IP>>,
                       topology: seq<TopologyTuple>, hna: seq<HNAEntry>, iface: IP -> int, g: Graph,
                       table: map<Prefix, Route>, a: IP)
    requires OwnFree(me, s, tuples) && NT.Listed(s, a)
    requires Calculated(me, s, tuples, neighbors, twoHops, topology, hna, iface, g, table)
    ensures HostPrefix(a) in table && table[HostPrefix(a)].nextHop == a && table[HostPrefix(a)].metric == 1
  {
    var p := HostPrefix(a);
    assert KnownLink(me, neighbors, twoHops, topology, me, a);
    NeighborAtOne(g, me, a);
    assert Offers(g, me, hna, p, a, 1, 0);
    var r := table[p];
    assert BestRoute(g, me, hna, iface, p, r);
    var n, d: nat, extra: nat :| Offers(g, me, hna, p, n, d, extra) && FirstHop(g, me, n, r.nextHop) && r.metric == d + extra;
    if d == 0 {
      ZeroIsHere(g, me, n);
    }
    OnlyItselfAtOne(g, me, a, r.nextHop);
  }

  ghost predicate SymmetricLink(s: NT.Tables, a: IP) {
    a in s.links && s.links[a].state == NT.Symmetric
  }

  /** All routes leave over symmetric links exactly if every neighbour whose link is not
      lost has a symmetric one. */
  lemma RoutesSymmetricIff(me: IP, s: NT.Tables, tuples: T.Tuples, neighbors: seq<IP>, twoHops: map<IP, seq<IP>>,
                           topology: seq<TopologyTuple>, hna: seq<HNAEntry>, iface: IP -> int, g: Graph,
                           table: map<Prefix, Route>)
    requires OwnFree(me, s, tuples)
    requires Calculated(me, s, tuples, neighbors, twoHops, topology, hna, iface, g, table)
    ensures (forall p :: p in table ==> SymmetricLink(s, table[p].nextHop)) <==>
              forall a :: NT.Listed(s, a) ==> SymmetricLink(s, a)
  {
    hide Calculated, OwnFree;
    forall p | p in table
      ensures NT.Listed(s, table[p].nextHop)
    {
      RoutesUseListedLinks(me, s, tuples, neighbors, twoHops, topology, hna, iface, g, table, p);
    }
    forall a | NT.Listed(s, a)
      ensures HostPrefix(a) in table && table[HostPrefix(a)].nextHop == a
    {
      ListedIsOwnHop(me, s, tuples, neighbors, twoHops, topology, hna, iface, g, table, a);
    }
  }

  /** A HELLO that names nobody: its sender does not hear us. */
  function Unheard(a: IP, vtime: Nanos): Message {
    Message(MessageHeader(HELLO, vtime, a, 1, 0, 0), Hello(HelloMessage(0, WILL_DEFAULT, [])))
  }

  function AfterUnheard(me: IP, a: IP, vtime: Nanos): Router {
    EMPTY.(tables := NT.Tables(map[a := NT.LinkTuple(me, a, NT.Asymmetric, vtime, 0, vtime)],
                               map[a := NT.NeighborTuple(a, false, WILL_DEFAULT)], map[], {}, map[]),
           dups := map[a := map[0 := vtime]])
  }

  lemma UnheardStep(me: IP, a: IP, vtime: Nanos)
    requires me != a
    ensures MessageStep(me, a, 0, Unheard(a, vtime), EMPTY, AfterUnheard(me, a, vtime))
  {
    assert !NT.HearsUs([], me) && !NT.SelectsUs([], me);
    var t := NT.AfterHello(me, NT.EMPTY, a, a, Unheard(a, vtime).body.hello, vtime);
    assert t.twoHops == map[];
    assert t == AfterUnheard(me, a, vtime).tables;
  }

  /** So routes do use links that are not symmetric: after one such HELLO, every
      calculation routes to its sender directly, over an asymmetric link. */
  lemma AsymmetricIsRouted(me: IP, a: IP, vtime: Nanos, neighbors: seq<IP>, twoHops: map<IP, seq<IP>>,
                           topology: seq<TopologyTuple>, hna: seq<HNAEntry>, iface: IP -> int, g: Graph,
                           table: map<Prefix, Route>)
    requires me != a
    requires var r := AfterUnheard(me, a, vtime);
             Calculated(me, r.tables, r.tuples, neighbors, twoHops, topology, hna, iface, g, table)
    ensures var r := AfterUnheard(me, a, vtime);
            && Run(me, [Received(a, Unheard(a, vtime), 0)], [EMPTY, r])
            && HostPrefix(a) in table && table[HostPrefix(a)].nextHop == a && !SymmetricLink(r.tables, a)
  {
    var r := AfterUnheard(me, a, vtime);
    hide MessageStep, Calculated, OwnFree;
    UnheardStep(me, a, vtime);
    assert Run(me, [Received(a, Unheard(a, vtime), 0)], [EMPTY, r]);
    RunKeepsOwnFree(me, [Received(a, Unheard(a, vtime), 0)], [EMPTY, r], 1);
    assert [EMPTY, r][1] == r;
    ListedIsOwnHop(me, r.tables, r.tuples, neighbors, twoHops, topology, hna, iface, g, table, a);
  }

  // ---- Routers that do not send from their own identities ----

  /** Some HELLO of the run came in from that address. */
  ghost predicate SentHello(steps: seq<Step>, a: IP) {
    exists k :: 0 <= k < |steps| && steps[k].Received? && steps[k].msg.header.msgType == HELLO && steps[k].sender == a
  }

  /** Some HELLO of the run was originated under that identity. */
  ghost predicate OriginatedHello(steps: seq<Step>, a: IP) {
    exists k :: 0 <= k < |steps| && steps[k].Received? && steps[k].msg.header.msgType == HELLO
                && steps[k].msg.header.originator == a
  }

  /** Links are filed under addresses that HELLOs came from, neighbours under identities. */
  ghost predicate Traced(steps: seq<Step>, s: NT.Tables) {
    && (forall a :: a in s.links ==> SentHello(steps, a))
    && (forall a :: a in s.neighbors ==> OriginatedHello(steps, a))
  }

  lemma TracedStep(me: IP, steps: seq<Step>, k: nat, s: NT.Tables, m: Message, s': NT.Tables)
    requires k < |steps| && steps[k].Received? && steps[k].msg == m && Traced(steps, s)
    requires TablesStep(me, steps[k].sender, steps[k].at, m, s, s')
    ensures Traced(steps, s')
  {
    hide NT.MprChoice, NT.SelectorsAfter, NT.HeardTwoHops, NT.UpdatedLink;
    if m.header.msgType == HELLO && m.body.Hello? {
      assert SentHello(steps, steps[k].sender) && OriginatedHello(steps, m.header.originator);
      assert forall a :: a in s'.links ==> a in s.links || a == steps[k].sender;
      assert forall a :: a in s'.neighbors ==> a in s.neighbors || a == m.header.originator;
    }
  }

  lemma TracedAging(steps: seq<Step>, s: NT.Tables, now: Nanos, s': NT.Tables)
    requires Traced(steps, s) && NT.AgeStep(s, now, s')
    ensures Traced(steps, s')
  {
    hide NT.MprChoice, SentHello, OriginatedHello;
    assert s'.links.Keys == s.links.Keys && s'.neighbors.Keys == s.neighbors.Keys;
  }

  lemma {:induction false} RunIsTraced(me: IP, steps: seq<Step>, states: seq<Router>, i: nat)
    requires Run(me, steps, states) && i < |states|
    ensures Traced(steps, states[i].tables)
  {
    hide TablesStep, TuplesStep, ClaimsStep, ConfirmedStep, NT.AgeStep, Traced;
    if i == 0 {
      NothingTraced(steps);
    } else {
      RunIsTraced(me, steps, states, i - 1);
      var r, r' := states[i - 1], states[i];
      assert StepTo(me, r, steps[i - 1], r');
      match steps[i - 1] {
        case Received(sender, m, at) =>
          if IsNew(me, r, m, at) {
            TracedStep(me, steps, i - 1, r.tables, m, r'.tables);
          }
        case Aged(at) =>
          TracedAging(steps, r.tables, at, r'.tables);
      }
    }
  }

  lemma NothingTraced(steps: seq<Step>)
    ensures Traced(steps, EMPTY.tables)
  {}

  /** A neighbour is listed only if its identity is also an address that HELLOs came
      from: where routers send from other addresses, no route is ever calculated. */
  lemma NothingRouted(me: IP, steps: seq<Step>, states: seq<Router>, i: nat, neighbors: seq<IP>, twoHops: map<IP, seq<IP>>,
                      topology: seq<TopologyTuple>, hna: seq<HNAEntry>, iface: IP -> int, g: Graph, table: map<Prefix, Route>)
    requires Run(me, steps, states) && i < |states|
    requires forall a :: SentHello(steps, a) ==> !OriginatedHello(steps, a)
    requires Calculated(me, states[i].tables, states[i].tuples, neighbors, twoHops, topology, hna, iface, g, table)
    ensures forall a :: !NT.Listed(states[i].tables, a)
    ensures table == map[]
  {
    hide Run, Calculated, OwnFree, SentHello, OriginatedHello;
    var r := states[i];
    RunIsTraced(me, steps, states, i);
    RunKeepsOwnFree(me, steps, states, i);
    forall a
      ensures !NT.Listed(r.tables, a)
    {
      assert a in r.tables.links ==> SentHello(steps, a);
    }
    forall p
      ensures p !in table
    {
      if p in table {
        RoutesUseListedLinks(me, r.tables, r.tuples, neighbors, twoHops, topology, hna, iface, g, table, p);
      }
    }
  }

  // ---- What is kept of each message ----

  /** A new topology message (2) files a tuple for each destination it lists whose stored
      number does not stand against it. */
  lemma TopologyFiled(me: IP, sender: IP, now: Nanos, m: Message, r: Router, r': Router, i: nat)
    requires MessageStep(me, sender, now, m, r, r') && IsNew(me, r, m, now)
    requires m.header.msgType == 2 && m.body.Topology? && i < |m.body.neighbors|
    requires var d, l := m.body.neighbors[i], m.header.originator;
             T.Known(r.tuples, d, l) ==> m.body.ansn >= r.tuples[d][l].seqNum
    ensures var d, l := m.body.neighbors[i], m.header.originator;
            T.Known(r'.tuples, d, l) && r'.tuples[d][l] == TopologyTuple(d, l, m.body.ansn, now + m.header.vtime)
    ensures r'.tables == r.tables
  {
    T.TcExactly(r.tuples, r'.tuples, m.header.originator, m.body.ansn, m.body.neighbors, now + m.header.vtime,
                m.body.neighbors[i], m.header.originator);
  }

  /** A new HELLO (1) is taken in; new interface declarations (3), claims (108) and
      confirmations (109) that name this router are filed; and each touches its own table
      only. */
  lemma OthersFiled(me: IP, sender: IP, now: Nanos, m: Message, r: Router, r': Router)
    requires MessageStep(me, sender, now, m, r, r') && IsNew(me, r, m, now)
    ensures m.header.msgType == 1 && m.body.Hello? ==>
              NT.HelloStep(me, r.tables, sender, m.header.originator, m.body.hello, m.header.vtime, now, r'.tables)
    ensures m.header.msgType != 1 ==> r'.tables == r.tables
    ensures m.header.msgType != 2 ==> r'.tuples == r.tuples
    ensures m.header.msgType == 3 && m.body.Interfaces? ==>
              forall a :: a in m.body.addresses ==> A.ResolvesTo(r'.mids, a, m.header.originator)
    ensures m.header.msgType != 3 ==> r'.mids == r.mids
    ensures m.header.msgType == 108 && m.body.SourceClaim? ==>
              M.Claimed(r'.claims, m.body.group, m.body.source)
              && r'.claims[m.body.group][m.body.source] == now + m.header.vtime
    ensures m.header.msgType != 108 ==> r'.claims == r.claims
    ensures m.header.msgType == 109 && m.body.ConfirmParent? && m.body.parent == me ==>
              M.Confirms(r'.confirmed, m.body.group, m.body.source, m.header.originator)
              && r'.confirmed[m.body.group][m.body.source][m.header.originator] == now + m.header.vtime
    ensures m.header.msgType != 109 || (m.body.ConfirmParent? && m.body.parent != me) ==> r'.confirmed == r.confirmed
  {
    hide NT.HelloStep, T.TcEffect;
  }
}
