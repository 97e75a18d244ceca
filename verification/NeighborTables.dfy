/** What one HELLO and one ageing pass do to the neighbour tables, and what every run
    of them keeps true. */
module NeighborTables {
  import opened Common
  import opened Messages
  import opened GreedyCover
  import opened Expiry

  datatype LinkState = Pending | Asymmetric | Symmetric | Lost

  datatype LinkTuple = LinkTuple(localIP: IP, neighborIP: IP, state: LinkState,
                                 asymTime: Nanos, symTime: Nanos, expiration: Nanos)

  datatype NeighborTuple = NeighborTuple(neighborIP: IP, symmetric: bool, willingness: uint8)

  type Links = map<IP, LinkTuple>
  type Neighbors = map<IP, NeighborTuple>
  type TwoHops = map<IP, map<IP, Nanos>>

  datatype Tables = Tables(links: Links, neighbors: Neighbors, twoHops: TwoHops,
                           mprSet: set<IP>, mprSelectors: map<IP, Nanos>)

  const EMPTY := Tables(map[], map[], map[], {}, map[])

  // ---- What a HELLO says ----

  predicate HearingCode(code: uint8) {
    LinkType(code) == LINK_SYM || LinkType(code) == LINK_ASYM || NeighType(code) == NEIGH_SYM || NeighType(code) == NEIGH_MPR
  }

  predicate NeighborCode(code: uint8) {
    NeighType(code) == NEIGH_SYM || NeighType(code) == NEIGH_MPR
  }

  /** The sender lists us among those it hears. */
  ghost predicate HearsUs(links: seq<LinkMessage>, me: IP) {
    exists i :: 0 <= i < |links| && HearingCode(links[i].linkCode) && me in links[i].addresses
  }

  /** The sender lists us among its multipoint relays. */
  ghost predicate SelectsUs(links: seq<LinkMessage>, me: IP) {
    exists i :: 0 <= i < |links| && NeighType(links[i].linkCode) == NEIGH_MPR && me in links[i].addresses
  }

  /** The nodes the sender calls symmetric neighbours. */
  ghost function Advertised(links: seq<LinkMessage>): set<IP> {
    set i, a | 0 <= i < |links| && NeighborCode(links[i].linkCode) && a in links[i].addresses :: a
  }

  // ---- Multipoint relay selection ----

  predicate Willing(neighbors: Neighbors, h: IP) {
    h in neighbors && neighbors[h].symmetric && neighbors[h].willingness > WILL_NEVER
  }

  /** An unexpired link from a willing symmetric neighbour h to t. */
  predicate Reaches(neighbors: Neighbors, twoHops: TwoHops, now: Nanos, h: IP, t: IP) {
    Willing(neighbors, h) && h in twoHops && t in twoHops[h] && now <= twoHops[h][t]
  }

  /** t is reached by h and is not itself a willing symmetric neighbour. */
  predicate TwoHopLink(neighbors: Neighbors, twoHops: TwoHops, now: Nanos, h: IP, t: IP) {
    Reaches(neighbors, twoHops, now, h, t) && !Willing(neighbors, t)
  }

  /** The nodes to cover, each with exactly the neighbours that reach it. */
  ghost predicate IsCoverMap(cover: Cover, neighbors: Neighbors, twoHops: TwoHops, now: Nanos) {
    && (forall t :: t in cover ==> cover[t] != {})
    && (forall h, t :: TwoHopLink(neighbors, twoHops, now, h, t) <==> t in cover && h in cover[t])
  }

  function Degree(twoHops: TwoHops, h: IP): nat {
    if h in twoHops then |twoHops[h]| else 0
  }

  /** The willing symmetric neighbours with their standing. */
  function Candidates(neighbors: Neighbors, twoHops: TwoHops): map<IP, Standing> {
    map h | h in neighbors && Willing(neighbors, h) :: Standing(neighbors[h].willingness, Degree(twoHops, h))
  }

  /** A legal outcome of recalculation; map order decides between equal candidates. */
  ghost predicate MprChoice(neighbors: Neighbors, twoHops: TwoHops, now: Nanos, mprs: set<IP>) {
    exists cover ::
      IsCoverMap(cover, neighbors, twoHops, now) && GreedyCoverOf(cover, Candidates(neighbors, twoHops), mprs)
  }

  /** Every node with an unexpired link through a willing symmetric neighbour is
      reached by some relay, and every relay is such a neighbour. */
  lemma MprCoverage(neighbors: Neighbors, twoHops: TwoHops, now: Nanos, mprs: set<IP>)
    requires MprChoice(neighbors, twoHops, now, mprs)
    ensures forall m :: m in mprs ==> Willing(neighbors, m)
    ensures forall h, t :: TwoHopLink(neighbors, twoHops, now, h, t) ==>
              exists m :: m in mprs && Reaches(neighbors, twoHops, now, m, t)
  {
    var cover :| IsCoverMap(cover, neighbors, twoHops, now) && GreedyCoverOf(cover, Candidates(neighbors, twoHops), mprs);
    var cands := Candidates(neighbors, twoHops);
    var picks :| GreedyRun(cover, cands, SoleCovers(cover), picks) && mprs == SoleCovers(cover) + Elements(picks);
    GreedyRunStays(cover, cands, SoleCovers(cover), picks);
    forall m | m in mprs
      ensures Willing(neighbors, m)
    {
      if m in SoleCovers(cover) {
        var t :| t in cover && cover[t] == {m};
        assert TwoHopLink(neighbors, twoHops, now, m, t);
      } else {
        assert m in cands;
      }
    }
    forall h, t | TwoHopLink(neighbors, twoHops, now, h, t)
      ensures exists m :: m in mprs && Reaches(neighbors, twoHops, now, m, t)
    {
      assert t !in Uncovered(cover, mprs);
      var m :| m in cover[t] && m in mprs;
      assert TwoHopLink(neighbors, twoHops, now, m, t);
    }
  }

  /** The relays are near-optimal: any set c of willing symmetric neighbours that
      reaches every node to cover contains the forced relays, and the choice exceeds
      them by at most the harmonic factor. */
  lemma MprNearOptimal(neighbors: Neighbors, twoHops: TwoHops, now: Nanos, mprs: set<IP>, c: set<IP>)
    requires MprChoice(neighbors, twoHops, now, mprs)
    requires forall h :: h in c ==> Willing(neighbors, h)
    requires forall h, t :: TwoHopLink(neighbors, twoHops, now, h, t) ==>
               exists m :: m in c && Reaches(neighbors, twoHops, now, m, t)
    ensures exists cover :: IsCoverMap(cover, neighbors, twoHops, now)
              && SoleCovers(cover) <= c && |SoleCovers(cover)| <= |c|
              && (|mprs| as real) <= HarmonicBound(|SoleCovers(cover)|, |c| - |SoleCovers(cover)|,
                                                   |Uncovered(cover, SoleCovers(cover))|)
  {
    var cover :| IsCoverMap(cover, neighbors, twoHops, now) && GreedyCoverOf(cover, Candidates(neighbors, twoHops), mprs);
    forall t | t in cover
      ensures t !in Uncovered(cover, c)
    {
      var h :| h in cover[t];
      assert TwoHopLink(neighbors, twoHops, now, h, t);
      var m :| m in c && Reaches(neighbors, twoHops, now, m, t);
      assert TwoHopLink(neighbors, twoHops, now, m, t);
    }
    GreedyNearOptimal(cover, Candidates(neighbors, twoHops), mprs, c);
  }

  // ---- Steps ----

  function UpdatedLink(links: Links, me: IP, sender: IP, hears: bool, exp: Nanos): LinkTuple {
    var l := if sender in links then links[sender] else LinkTuple(me, sender, Asymmetric, 0, 0, 0);
    if hears then l.(state := Symmetric, symTime := exp, expiration := exp)
    else l.(state := Asymmetric, asymTime := exp, expiration := exp)
  }

  function StateBefore(links: Links, sender: IP): LinkState {
    if sender in links then links[sender].state else Asymmetric
  }

  ghost function HeardTwoHops(links: seq<LinkMessage>, me: IP, originator: IP, exp: Nanos): map<IP, Nanos> {
    Uniform(Advertised(links) - {me, originator}, exp)
  }

  function Uniform(nodes: set<IP>, exp: Nanos): map<IP, Nanos> {
    map a | a in nodes :: exp
  }

  /** The tables after a HELLO, but for the relay set. */
  ghost function AfterHello(me: IP, s: Tables, sender: IP, originator: IP, hello: HelloMessage, exp: Nanos): Tables {
    var sym := HearsUs(hello.links, me);
    Tables(
      s.links[sender := UpdatedLink(s.links, me, sender, sym, exp)],
      s.neighbors[originator := NeighborTuple(originator, sym, hello.willingness)],
      if sym then s.twoHops[originator := HeardTwoHops(hello.links, me, originator, exp)] else s.twoHops - {originator},
      s.mprSet,
      SelectorsAfter(me, s.mprSelectors, originator, hello, exp))
  }

  ghost function SelectorsAfter(me: IP, selectors: map<IP, Nanos>, originator: IP, hello: HelloMessage, exp: Nanos): map<IP, Nanos> {
    if HearsUs(hello.links, me) && SelectsUs(hello.links, me) then selectors[originator := exp] else selectors
  }

  ghost predicate Recalculated(s: Tables, now: Nanos, s': Tables) {
    s' == s.(mprSet := s'.mprSet) && MprChoice(s.neighbors, s.twoHops, now, s'.mprSet)
  }

  /** A HELLO recalculates the relays only when the sender's link changed state. */
  ghost predicate HelloStep(me: IP, s: Tables, sender: IP, originator: IP, hello: HelloMessage, vtime: Nanos,
                            now: Nanos, s': Tables)
  {
    var t := AfterHello(me, s, sender, originator, hello, now + vtime);
    if StateBefore(s.links, sender) != t.links[sender].state then Recalculated(t, now, s') else s' == t
  }

  lemma HelloSelectors(me: IP, s: Tables, sender: IP, originator: IP, hello: HelloMessage, vtime: Nanos,
                       now: Nanos, s': Tables)
    requires HelloStep(me, s, sender, originator, hello, vtime, now, s')
    ensures s'.mprSelectors == SelectorsAfter(me, s.mprSelectors, originator, hello, now + vtime)
  {}

  function NewlyLost(links: Links, now: Nanos): set<IP> {
    set ip | ip in links && now > links[ip].expiration && links[ip].state != Lost
  }

  function WithLost(links: Links, lost: set<IP>): Links {
    map ip | ip in links :: if ip in lost then links[ip].(state := Lost) else links[ip]
  }

  function AgedLinks(links: Links, now: Nanos): Links {
    WithLost(links, NewlyLost(links, now))
  }

  function AgedNeighbors(neighbors: Neighbors, lost: set<IP>): Neighbors {
    map ip | ip in neighbors :: if ip in lost then neighbors[ip].(symmetric := false) else neighbors[ip]
  }

  /** Losing one more link. */
  lemma LoseOne(links: Links, neighbors: Neighbors, lost: set<IP>, ip: IP)
    requires ip in links
    ensures WithLost(links, lost + {ip}) == WithLost(links, lost)[ip := links[ip].(state := Lost)]
    ensures AgedNeighbors(neighbors, lost + {ip}) ==
              var n := AgedNeighbors(neighbors, lost);
              if ip in neighbors then n[ip := n[ip].(symmetric := false)] else n
  {}

  function AgedTwoHops(twoHops: TwoHops, now: Nanos): TwoHops {
    map h | h in twoHops && Unexpired(twoHops[h], now) != map[] :: Unexpired(twoHops[h], now)
  }

  /** Whether an ageing pass changes anything that calls for recalculation. */
  ghost predicate Ages(s: Tables, now: Nanos) {
    || NewlyLost(s.links, now) != {}
    || (exists h :: h in s.twoHops && AnyExpired(s.twoHops[h], now))
    || AnyExpired(s.mprSelectors, now)
  }

  /** Dropping the lists of lost neighbours first hides no expired entry that matters. */
  lemma AgesInOrder(s: Tables, now: Nanos)
    ensures var lost := NewlyLost(s.links, now);
            Ages(s, now) <==> lost != {} || (exists h :: h in s.twoHops - lost && AnyExpired((s.twoHops - lost)[h], now))
                              || AnyExpired(s.mprSelectors, now)
  {
    var lost := NewlyLost(s.links, now);
    if lost == {} {
      assert s.twoHops - lost == s.twoHops;
    }
  }

  function AfterAging(s: Tables, now: Nanos): Tables {
    var lost := NewlyLost(s.links, now);
    Tables(AgedLinks(s.links, now), AgedNeighbors(s.neighbors, lost), AgedTwoHops(s.twoHops - lost, now),
           s.mprSet, Unexpired(s.mprSelectors, now))
  }

  ghost predicate AgeStep(s: Tables, now: Nanos, s': Tables) {
    if Ages(s, now) then Recalculated(AfterAging(s, now), now, s') else s' == AfterAging(s, now)
  }

  // ---- Runs ----

  datatype Step =
    | HelloReceived(sender: IP, originator: IP, hello: HelloMessage, vtime: Nanos, at: Nanos)
    | Aged(at: Nanos)

  ghost predicate StepTo(me: IP, s: Tables, step: Step, s': Tables) {
    match step
    case HelloReceived(sender, originator, hello, vtime, at) => HelloStep(me, s, sender, originator, hello, vtime, at, s')
    case Aged(at) => AgeStep(s, at, s')
  }

  ghost predicate Run(me: IP, steps: seq<Step>, states: seq<Tables>) {
    && |states| == |steps| + 1 && states[0] == EMPTY
    && forall i {:trigger steps[i]} :: 0 <= i < |steps| ==> StepTo(me, states[i], steps[i], states[i + 1])
  }

  /** Two-hop lists belong to symmetric neighbours and name neither their owner nor
      this router. */
  ghost predicate TwoHopsSound(me: IP, s: Tables) {
    forall h :: h in s.twoHops ==>
      h in s.neighbors && s.neighbors[h].symmetric && me !in s.twoHops[h] && h !in s.twoHops[h]
  }

  ghost predicate RelaysSymmetric(s: Tables) {
    forall m :: m in s.mprSet ==> m in s.neighbors && s.neighbors[m].symmetric
  }

  /** Each neighbour's symmetry flag agrees with the state of its link. */
  ghost predicate FlagsMatch(s: Tables) {
    && (forall ip :: ip in s.links <==> ip in s.neighbors)
    && (forall ip :: ip in s.links && ip in s.neighbors ==>
          (s.neighbors[ip].symmetric <==> s.links[ip].state == Symmetric))
  }

  /** And every relay is a symmetric neighbour. */
  ghost predicate FlagsAgree(s: Tables) {
    FlagsMatch(s) && RelaysSymmetric(s)
  }

  lemma RecalculatedRelays(s: Tables, now: Nanos, s': Tables)
    requires Recalculated(s, now, s')
    ensures RelaysSymmetric(s')
  {
    MprCoverage(s.neighbors, s.twoHops, now, s'.mprSet);
  }

  lemma HelloKeepsTwoHops(me: IP, s: Tables, sender: IP, originator: IP, hello: HelloMessage, exp: Nanos)
    requires TwoHopsSound(me, s)
    ensures TwoHopsSound(me, AfterHello(me, s, sender, originator, hello, exp))
  {
    var t := AfterHello(me, s, sender, originator, hello, exp);
    forall h | h in t.twoHops
      ensures h in t.neighbors && t.neighbors[h].symmetric && me !in t.twoHops[h] && h !in t.twoHops[h]
    {
      assert h != originator ==> h in s.twoHops;
    }
  }

  lemma AgingKeepsTwoHops(me: IP, s: Tables, now: Nanos)
    requires TwoHopsSound(me, s)
    ensures TwoHopsSound(me, AfterAging(s, now))
  {}

  lemma StepKeepsTwoHops(me: IP, s: Tables, step: Step, s': Tables)
    requires TwoHopsSound(me, s) && StepTo(me, s, step, s')
    ensures TwoHopsSound(me, s')
  {
    match step
    case HelloReceived(sender, originator, hello, vtime, at) =>
      HelloKeepsTwoHops(me, s, sender, originator, hello, at + vtime);
    case Aged(at) =>
      AgingKeepsTwoHops(me, s, at);
  }

  lemma HelloKeepsFlags(me: IP, s: Tables, sender: IP, hello: HelloMessage, exp: Nanos)
    requires FlagsMatch(s)
    ensures FlagsMatch(AfterHello(me, s, sender, sender, hello, exp))
  {}

  lemma AgingKeepsFlags(s: Tables, now: Nanos)
    requires FlagsMatch(s)
    ensures FlagsMatch(AfterAging(s, now))
    ensures !Ages(s, now) ==> AfterAging(s, now).neighbors == s.neighbors
  {
    var t, lost := AfterAging(s, now), NewlyLost(s.links, now);
    forall ip | ip in t.links && ip in t.neighbors
      ensures t.neighbors[ip].symmetric <==> t.links[ip].state == Symmetric
    {
      assert ip in s.links && ip in s.neighbors;
    }
  }

  lemma StepKeepsFlags(me: IP, s: Tables, step: Step, s': Tables)
    requires FlagsAgree(s) && StepTo(me, s, step, s')
    requires step.HelloReceived? ==> step.sender == step.originator
    ensures FlagsAgree(s')
  {
    match step {
      case HelloReceived(sender, originator, hello, vtime, at) =>
        HelloKeepsFlags(me, s, sender, hello, at + vtime);
        HelloBreaksRelaysIff(me, s, sender, originator, hello, vtime, at, s');
      case Aged(at) =>
        AgingKeepsFlags(s, at);
        if Ages(s, at) {
          RecalculatedRelays(AfterAging(s, at), at, s');
        }
    }
  }

  /** Over every run, whoever sends what. */
  lemma {:induction false} RunKeepsTwoHops(me: IP, steps: seq<Step>, states: seq<Tables>, i: nat)
    requires Run(me, steps, states) && i < |states|
    ensures TwoHopsSound(me, states[i])
  {
    if i > 0 {
      RunKeepsTwoHops(me, steps, states, i - 1);
      StepKeepsTwoHops(me, states[i - 1], steps[i - 1], states[i]);
    }
  }

  /** Over every run in which HELLOs arrive straight from their originators. */
  lemma {:induction false} RunKeepsFlags(me: IP, steps: seq<Step>, states: seq<Tables>, i: nat)
    requires Run(me, steps, states) && i < |states|
    requires forall k :: 0 <= k < |steps| && steps[k].HelloReceived? ==> steps[k].sender == steps[k].originator
    ensures FlagsAgree(states[i])
  {
    if i > 0 {
      RunKeepsFlags(me, steps, states, i - 1);
      StepKeepsFlags(me, states[i - 1], steps[i - 1], states[i]);
    }
  }

  /** When sender and originator may differ, a HELLO takes a relay out of the symmetric
      neighbours exactly if its originator is a relay that no longer hears us while
      the sender's link was not symmetric: only then is there no recalculation. */
  lemma HelloBreaksRelaysIff(me: IP, s: Tables, sender: IP, originator: IP, hello: HelloMessage, vtime: Nanos,
                             now: Nanos, s': Tables)
    requires RelaysSymmetric(s) && HelloStep(me, s, sender, originator, hello, vtime, now, s')
    ensures !RelaysSymmetric(s') <==>
              originator in s.mprSet && !HearsUs(hello.links, me) && StateBefore(s.links, sender) == Asymmetric
  {
    var t := AfterHello(me, s, sender, originator, hello, now + vtime);
    if StateBefore(s.links, sender) != t.links[sender].state {
      RecalculatedRelays(t, now, s');
    }
  }

  /** A run of two HELLOs: a hears us and reaches x; then b, never met before, passes on
      a HELLO of a's that names nobody. */
  function RelayedHello(me: IP, a: IP, b: IP, x: IP, vtime: Nanos): seq<Step> {
    [HelloReceived(a, a, HelloMessage(0, WILL_DEFAULT, [LinkMessage(6, [me, x])]), vtime, 0),
     HelloReceived(b, a, HelloMessage(0, WILL_DEFAULT, []), vtime, 0)]
  }

  /** The state after the first HELLO of that run. */
  function MetFirst(me: IP, a: IP, x: IP, vtime: Nanos): Tables {
    Tables(map[a := LinkTuple(me, a, Symmetric, 0, vtime, vtime)], map[a := NeighborTuple(a, true, WILL_DEFAULT)],
           map[a := map[x := vtime]], {a}, map[])
  }

  lemma FirstHello(me: IP, a: IP, x: IP, vtime: Nanos)
    requires me != a && x != me && x != a
    ensures var hello := RelayedHello(me, a, a, x, vtime)[0].hello;
            AfterHello(me, EMPTY, a, a, hello, vtime) == MetFirst(me, a, x, vtime).(mprSet := {})
  {
    var links := RelayedHello(me, a, a, x, vtime)[0].hello.links;
    assert me in links[0].addresses && x in links[0].addresses;
    assert HearsUs(links, me) && !SelectsUs(links, me);
    assert Advertised(links) == {me, x};
    assert Advertised(links) - {me, a} == {x};
    assert HeardTwoHops(links, me, a, vtime) == map[x := vtime];
  }

  lemma FirstTwoHops(me: IP, a: IP, x: IP, vtime: Nanos)
    requires x != a && vtime >= 0
    ensures var s := MetFirst(me, a, x, vtime);
            forall h, t :: TwoHopLink(s.neighbors, s.twoHops, 0, h, t) <==> h == a && t == x
  {}

  /** A legal relay set is {a}, because a reaches x, and no other is, because only a does. */
  lemma FirstChoice(me: IP, a: IP, x: IP, vtime: Nanos)
    requires x != a && vtime >= 0
    ensures var s := MetFirst(me, a, x, vtime); MprChoice(s.neighbors, s.twoHops, 0, {a})
  {
    hide TwoHopLink, Candidates;
    var s := MetFirst(me, a, x, vtime);
    var cover := map[x := {a}];
    FirstTwoHops(me, a, x, vtime);
    assert IsCoverMap(cover, s.neighbors, s.twoHops, 0);
    assert SoleCovers(cover) == {a} by {
      assert a in cover[x];
    }
    assert {a} == SoleCovers(cover) + Elements([]);
    assert GreedyRun(cover, Candidates(s.neighbors, s.twoHops), SoleCovers(cover), []);
  }

  lemma OnlyChoice(me: IP, a: IP, x: IP, vtime: Nanos, mprs: set<IP>)
    requires x != a && vtime >= 0
    requires var s := MetFirst(me, a, x, vtime); MprChoice(s.neighbors, s.twoHops, 0, mprs)
    ensures a in mprs
  {
    hide MprChoice;
    var s := MetFirst(me, a, x, vtime);
    FirstTwoHops(me, a, x, vtime);
    MprCoverage(s.neighbors, s.twoHops, 0, mprs);
    assert TwoHopLink(s.neighbors, s.twoHops, 0, a, x);
    var m :| m in mprs && Reaches(s.neighbors, s.twoHops, 0, m, x);
  }

  /** So relays do leave the symmetric neighbours: this run exists, and it always ends
      with a as a relay that is not symmetric. */
  lemma RelayedHelloBreaksRelays(me: IP, a: IP, b: IP, x: IP, vtime: Nanos)
    requires me != a && x != me && x != a && a != b && vtime >= 0
    ensures exists states :: Run(me, RelayedHello(me, a, b, x, vtime), states)
    ensures forall states: seq<Tables> :: Run(me, RelayedHello(me, a, b, x, vtime), states) ==>
              a in states[2].mprSet && a in states[2].neighbors && !states[2].neighbors[a].symmetric
  {
    hide MprChoice;
    var steps := RelayedHello(me, a, b, x, vtime);
    var s1 := MetFirst(me, a, x, vtime);
    var s2 := AfterHello(me, s1, b, a, steps[1].hello, vtime);
    FirstHello(me, a, x, vtime);
    FirstChoice(me, a, x, vtime);
    assert StepTo(me, EMPTY, steps[0], s1);
    assert StepTo(me, s1, steps[1], s2);
    assert Run(me, steps, [EMPTY, s1, s2]);
    forall states: seq<Tables> | Run(me, steps, states)
      ensures a in states[2].mprSet && a in states[2].neighbors && !states[2].neighbors[a].symmetric
    {
      assert StepTo(me, states[0], steps[0], states[1]) && StepTo(me, states[1], steps[1], states[2]);
      assert states[1] == s1.(mprSet := states[1].mprSet);
      OnlyChoice(me, a, x, vtime, states[1].mprSet);
    }
  }

  // ---- When a node is left uncovered ----

  /** Some willing symmetric neighbour reaches t, which is none itself, and no relay does. */
  ghost predicate LeftOut(s: Tables, now: Nanos, t: IP) {
    && !Willing(s.neighbors, t)
    && (exists h :: Reaches(s.neighbors, s.twoHops, now, h, t))
    && !(exists m :: m in s.mprSet && Reaches(s.neighbors, s.twoHops, now, m, t))
  }

  /** By this HELLO its originator is a willing symmetric neighbour. */
  ghost predicate NowWilling(me: IP, hello: HelloMessage) {
    HearsUs(hello.links, me) && hello.willingness > WILL_NEVER
  }

  /** And reaches t. */
  ghost predicate NowReaches(me: IP, originator: IP, hello: HelloMessage, t: IP) {
    NowWilling(me, hello) && t in Advertised(hello.links) - {me, originator}
  }

  /** A HELLO leaves t out exactly if it does not change the sender's link, t is not a
      willing neighbour after it, somebody reaches t by it or otherwise, and neither the
      originator by it nor another relay does. */
  lemma HelloLeavesOutIff(me: IP, s: Tables, sender: IP, originator: IP, hello: HelloMessage, vtime: Nanos,
                          now: Nanos, s': Tables, t: IP)
    requires HelloStep(me, s, sender, originator, hello, vtime, now, s') && vtime >= 0
    ensures LeftOut(s', now, t) <==>
              && (StateBefore(s.links, sender) == if HearsUs(hello.links, me) then Symmetric else Asymmetric)
              && (if t == originator then !NowWilling(me, hello) else !Willing(s.neighbors, t))
              && (NowReaches(me, originator, hello, t)
                  || exists h :: h != originator && Reaches(s.neighbors, s.twoHops, now, h, t))
              && !(originator in s.mprSet && NowReaches(me, originator, hello, t))
              && !(exists m :: m in s.mprSet && m != originator && Reaches(s.neighbors, s.twoHops, now, m, t))
  {
    hide HearsUs, SelectsUs, Advertised, MprChoice, NowWilling, NowReaches, Reaches, Willing;
    var u := AfterHello(me, s, sender, originator, hello, now + vtime);
    forall h
      ensures Reaches(u.neighbors, u.twoHops, now, h, t) <==>
                if h == originator then NowReaches(me, originator, hello, t) else Reaches(s.neighbors, s.twoHops, now, h, t)
    {
      ReachesAfterHello(me, s, sender, originator, hello, vtime, now, h, t);
    }
    WillingAfterHello(me, s, sender, originator, hello, now + vtime, t);
    assert Reaches(u.neighbors, u.twoHops, now, originator, t) <==> NowReaches(me, originator, hello, t);
    if StateBefore(s.links, sender) != u.links[sender].state {
      RecalculatedCovers(u, now, s', t);
    }
  }

  lemma ReachesAfterHello(me: IP, s: Tables, sender: IP, originator: IP, hello: HelloMessage, vtime: Nanos,
                          now: Nanos, h: IP, t: IP)
    requires vtime >= 0
    ensures var u := AfterHello(me, s, sender, originator, hello, now + vtime);
            Reaches(u.neighbors, u.twoHops, now, h, t) <==>
              if h == originator then NowReaches(me, originator, hello, t) else Reaches(s.neighbors, s.twoHops, now, h, t)
  {
    hide HearsUs, SelectsUs, Advertised;
  }

  lemma WillingAfterHello(me: IP, s: Tables, sender: IP, originator: IP, hello: HelloMessage, exp: Nanos, t: IP)
    ensures Willing(AfterHello(me, s, sender, originator, hello, exp).neighbors, t) <==>
              if t == originator then NowWilling(me, hello) else Willing(s.neighbors, t)
  {
    hide HearsUs, SelectsUs, Advertised;
  }

  lemma RecalculatedCovers(s: Tables, now: Nanos, s': Tables, t: IP)
    requires Recalculated(s, now, s')
    ensures !LeftOut(s', now, t)
  {
    MprCoverage(s.neighbors, s.twoHops, now, s'.mprSet);
    if h :| Reaches(s'.neighbors, s'.twoHops, now, h, t) && !Willing(s'.neighbors, t) {
      assert TwoHopLink(s.neighbors, s.twoHops, now, h, t);
    }
  }

  /** For one: a willing symmetric neighbour and relay of nobody that, in a later HELLO,
      names x for the first time. */
  lemma LateNewsLeavesOut(me: IP, s: Tables, a: IP, x: IP, vtime: Nanos, now: Nanos, s': Tables)
    requires a in s.links && s.links[a].state == Symmetric && s.mprSet == {} && vtime >= 0
    requires x != me && x != a && !Willing(s.neighbors, x)
    requires HelloStep(me, s, a, a, HelloMessage(0, WILL_DEFAULT, [LinkMessage(6, [me, x])]), vtime, now, s')
    ensures LeftOut(s', now, x)
  {
    var hello := HelloMessage(0, WILL_DEFAULT, [LinkMessage(6, [me, x])]);
    assert me in hello.links[0].addresses && x in hello.links[0].addresses;
    assert HearsUs(hello.links, me) && x in Advertised(hello.links);
    HelloLeavesOutIff(me, s, a, a, hello, vtime, now, s', x);
  }

  // ---- A cover problem on which greedy choice is not least ----

  const STANDINGS: Neighbors :=
    map[V4(1) := NeighborTuple(V4(1), true, 3), V4(2) := NeighborTuple(V4(2), true, 3), V4(3) := NeighborTuple(V4(3), true, 4),
        V4(4) := NeighborTuple(V4(4), true, 3), V4(5) := NeighborTuple(V4(5), true, 3)]

  const REACHED: TwoHops :=
    map[V4(1) := map[T1 := 1, T2 := 1], V4(2) := map[T3 := 1, T4 := 1], V4(3) := map[T1 := 1, T3 := 1],
        V4(4) := map[T2 := 1], V4(5) := map[T4 := 1]]

  lemma CrossingTables(h: IP, t: IP)
    ensures TwoHopLink(STANDINGS, REACHED, 0, h, t) <==> t in CROSSING && h in CROSSING[t]
    ensures Willing(STANDINGS, h) <==> h in WILLING
  {}

  lemma CrossingStandings()
    ensures Candidates(STANDINGS, REACHED) == WILLING
  {
    hide Willing;
    CrossingDegrees();
    forall h
      ensures Willing(STANDINGS, h) <==> h in WILLING
      ensures h in WILLING ==> WILLING[h] == Standing(STANDINGS[h].willingness, Degree(REACHED, h))
    {
      CrossingTables(h, h);
    }
  }

  lemma CrossingDegrees()
    ensures Degree(REACHED, V4(1)) == 2 && Degree(REACHED, V4(2)) == 2 && Degree(REACHED, V4(3)) == 2
    ensures Degree(REACHED, V4(4)) == 1 && Degree(REACHED, V4(5)) == 1
  {
    assert REACHED[V4(1)].Keys == {T1, T2} && REACHED[V4(2)].Keys == {T3, T4} && REACHED[V4(3)].Keys == {T1, T3};
    assert REACHED[V4(4)].Keys == {T2} && REACHED[V4(5)].Keys == {T4};
  }

  lemma CoverMapUnique(cover: Cover, other: Cover, neighbors: Neighbors, twoHops: TwoHops, now: Nanos)
    requires IsCoverMap(cover, neighbors, twoHops, now) && IsCoverMap(other, neighbors, twoHops, now)
    ensures cover == other
  {
    forall t
      ensures t in cover <==> t in other
      ensures t in cover && t in other ==> cover[t] == other[t]
    {
      if t in cover {
        var h :| h in cover[t];
        assert TwoHopLink(neighbors, twoHops, now, h, t);
      }
      if t in other {
        var h :| h in other[t];
        assert TwoHopLink(neighbors, twoHops, now, h, t);
      }
      forall h | t in cover && t in other
        ensures h in cover[t] <==> h in other[t]
      {
        assert TwoHopLink(neighbors, twoHops, now, h, t) <==> h in cover[t];
      }
    }
  }

  /** From tables of five neighbours and four nodes beyond them, recalculation always
      chooses three relays or more, although two of the neighbours reach all four nodes. */
  lemma MprNotLeast(mprs: set<IP>)
    requires MprChoice(STANDINGS, REACHED, 0, mprs)
    ensures |mprs| >= 3
    ensures forall h :: h in {V4(1), V4(2)} ==> Willing(STANDINGS, h)
    ensures forall h, t :: TwoHopLink(STANDINGS, REACHED, 0, h, t) ==>
              exists m :: m in {V4(1), V4(2)} && Reaches(STANDINGS, REACHED, 0, m, t)
  {
    hide TwoHopLink, Candidates, GreedyCoverOf, Reaches;
    var cover :| IsCoverMap(cover, STANDINGS, REACHED, 0) && GreedyCoverOf(cover, Candidates(STANDINGS, REACHED), mprs);
    forall h, t
      ensures TwoHopLink(STANDINGS, REACHED, 0, h, t) <==> t in CROSSING && h in CROSSING[t]
    {
      CrossingTables(h, t);
    }
    assert IsCoverMap(CROSSING, STANDINGS, REACHED, 0);
    CoverMapUnique(cover, CROSSING, STANDINGS, REACHED, 0);
    CrossingStandings();
    GreedyNotLeast(mprs);
    forall h, t | TwoHopLink(STANDINGS, REACHED, 0, h, t)
      ensures exists m :: m in {V4(1), V4(2)} && Reaches(STANDINGS, REACHED, 0, m, t)
    {
      TwoReach(t);
    }
  }

  lemma TwoReach(t: IP)
    requires t in CROSSING
    ensures exists m :: m in {V4(1), V4(2)} && Reaches(STANDINGS, REACHED, 0, m, t)
  {
    var m := if t == T1 || t == T2 then V4(1) else V4(2);
    assert Reaches(STANDINGS, REACHED, 0, m, t);
  }

  // ---- What route calculation is given ----

  /** Neighbours are filed under their own addresses. */
  ghost predicate Named(neighbors: Neighbors) {
    forall ip :: ip in neighbors ==> neighbors[ip].neighborIP == ip
  }

  /** A neighbour whose link is not lost. */
  predicate Listed(s: Tables, ip: IP) {
    ip in s.neighbors && ip in s.links && s.links[ip].state != Lost
  }

  /** Those tuples are the neighbours whose link is not lost, symmetric or not. */
  ghost predicate Lists(links: Links, neighbors: Neighbors, tuples: seq<NeighborTuple>) {
    forall n :: n in tuples <==>
      exists ip :: ip in neighbors && n == neighbors[ip] && n.neighborIP in links && links[n.neighborIP].state != Lost
  }

  lemma ListedExactly(s: Tables, tuples: seq<NeighborTuple>, a: IP)
    requires Named(s.neighbors) && Lists(s.links, s.neighbors, tuples)
    ensures (exists n :: n in tuples && n.neighborIP == a) <==> Listed(s, a)
  {
    if Listed(s, a) {
      assert s.neighbors[a] in tuples;
    }
  }
}
