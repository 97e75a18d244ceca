/** Flooding as a machine on sets: who has the message, who still has to send it, who
    has sent it. */
module Flood {
  import opened Common
  import opened Messages

  datatype Tx = Tx(sender: IP, msg: Message)

  /** Who hears whom, from which address one router gets another's packets, whom each
      router chose as relays, and the message to flood. Routers are named by their
      identities, which need not be addresses that they send from. */
  datatype Setup = Setup(adj: map<IP, set<IP>>, heardAs: (IP, IP) -> IP, mpr: map<IP, set<IP>>, origin: IP, msg: Message)
  {
    ghost predicate Hears(u: IP, v: IP) {
      v in adj && u in adj[v]
    }

    /** A finite symmetric radio graph with the origin in it. */
    ghost predicate Symmetric() {
      && origin in adj
      && (forall u, v :: Hears(u, v) ==> Hears(v, u) && u != v)
    }

    /** x is at distance exactly two from v. */
    ghost predicate StrictTwoHop(v: IP, x: IP) {
      x != v && !Hears(x, v) && exists y :: Hears(y, v) && Hears(x, y)
    }

    /** m is among the relays of v. */
    ghost predicate Chose(v: IP, m: IP) {
      v in mpr && m in mpr[v]
    }

    /** Every router's relays reach all nodes at distance two from it. */
    ghost predicate RelaysCover() {
      forall v, x :: v in adj && StrictTwoHop(v, x) ==> exists m :: Chose(v, m) && Hears(m, v) && Hears(x, m)
    }

    ghost predicate NoRelays() {
      forall v, m :: !Chose(v, m)
    }

    /** No set of routers that contains the origin is cut off from the others. */
    ghost predicate Connected() {
      forall s: set<IP> :: origin in s && s <= adj.Keys && (forall u, v :: v in s && Hears(u, v) ==> u in s) ==> s == adj.Keys
    }

    ghost predicate Valid() {
      Symmetric() && msg.header.hopCount == 0
    }

    /** Source claims are passed on by whoever gets them. */
    ghost predicate IsClaim() {
      msg.header.msgType == SOURCE_CLAIM
    }

    /** Messages of these types are never passed on. */
    ghost predicate OneHopOnly() {
      msg.header.msgType == HELLO || msg.header.msgType == CONFIRM_PARENT
    }

    /** The rule for relaying the first copy: claims always, others for a selector. */
    ghost predicate Forwards(w: IP, tx: Tx) {
      tx.msg.header.ttl > 1 && !OneHopOnly() && (IsClaim() || Chose(tx.sender, w))
    }

    /** A copy of the message that has travelled `hopCount` hops. */
    ghost predicate IsCopy(m: Message) {
      && m == msg.(header := msg.header.(ttl := m.header.ttl, hopCount := m.header.hopCount))
      && m.header.ttl + m.header.hopCount == msg.header.ttl
    }
  }

  datatype State = State(received: set<IP>, pending: set<Tx>, log: seq<Tx>)

  ghost function Start(n: Setup): State {
    State({}, {Tx(n.origin, n.msg)}, [])
  }

  /** The routers for which this transmission is the first copy. */
  ghost function Fresh(n: Setup, s: State, tx: Tx): set<IP> {
    if tx.sender in n.adj then n.adj[tx.sender] - s.received - {n.origin} else {}
  }

  /** Some of those routers, if the copy may travel on. */
  ghost predicate MayRelay(n: Setup, s: State, tx: Tx, relays: set<IP>) {
    relays <= Fresh(n, s, tx) && (relays != {} ==> tx.msg.header.ttl > 1)
  }

  /** The routers that relay by the rule. */
  ghost function ByRule(n: Setup, s: State, tx: Tx): (relays: set<IP>)
    ensures MayRelay(n, s, tx, relays)
  {
    set w | w in Fresh(n, s, tx) && n.Forwards(w, tx)
  }

  ghost function Copies(tx: Tx, relays: set<IP>): set<Tx>
    requires relays != {} ==> tx.msg.header.ttl > 1
  {
    set w | w in relays :: Tx(w, Relayed(tx.msg))
  }

  /** One transmission, heard at once by every neighbour of its sender, and relayed by
      the given routers. */
  ghost function Transmit(n: Setup, s: State, tx: Tx, relays: set<IP>): State
    requires MayRelay(n, s, tx, relays)
  {
    State(s.received + Fresh(n, s, tx), s.pending - {tx} + Copies(tx, relays), s.log + [tx])
  }

  // ---- What every step keeps ----

  ghost predicate Sends(s: State, u: IP) {
    (exists i :: 0 <= i < |s.log| && s.log[i].sender == u) || (exists tx :: tx in s.pending && tx.sender == u)
  }

  /** Senders hold the message, and their copies are what the hop counts say. */
  ghost predicate CopiesOk(n: Setup, s: State) {
    && (forall tx :: tx in s.pending ==>
          n.IsCopy(tx.msg) && tx.msg.header.hopCount <= |s.log| && (tx.sender == n.origin || tx.sender in s.received))
    && (forall i :: 0 <= i < |s.log| ==>
          n.IsCopy(s.log[i].msg) && s.log[i].msg.header.hopCount <= i
          && (s.log[i].sender == n.origin || s.log[i].sender in s.received))
  }

  /** No router sends twice. */
  ghost predicate OnceEach(s: State) {
    && (forall i, j :: 0 <= i < j < |s.log| ==> s.log[i].sender != s.log[j].sender)
    && (forall t, u :: t in s.pending && u in s.pending && t.sender == u.sender ==> t == u)
    && (forall i, t :: 0 <= i < |s.log| && t in s.pending ==> s.log[i].sender != t.sender)
  }

  /** Whatever was sent was heard by all neighbours. */
  ghost predicate AllHeard(n: Setup, s: State) {
    forall i, w :: 0 <= i < |s.log| && n.Hears(w, s.log[i].sender) ==> w == n.origin || w in s.received
  }

  /** What every transmission keeps, whoever relays it. */
  ghost predicate Inv(n: Setup, s: State) {
    && CopiesOk(n, s) && OnceEach(s) && AllHeard(n, s) && Sends(s, n.origin)
    && s.received <= n.adj.Keys - {n.origin}
    && (forall i :: 0 <= i < |s.log| ==> s.log[i].sender in n.adj)
  }

  /** The i-th transmission was u's first copy, and u relays it exactly if the rule says so. */
  ghost predicate FirstCopy(n: Setup, s: State, u: IP, i: nat) {
    && i < |s.log| && n.Hears(u, s.log[i].sender)
    && (forall j :: 0 <= j < i ==> !n.Hears(u, s.log[j].sender))
    && (n.Forwards(u, s.log[i]) <==> Sends(s, u))
  }

  /** What transmissions keep if they are relayed by the rule. */
  ghost predicate RuleKept(n: Setup, s: State) {
    forall u :: u in s.received ==> exists i: nat :: FirstCopy(n, s, u, i)
  }

  lemma StartInv(n: Setup)
    requires n.Valid()
    ensures Inv(n, Start(n)) && RuleKept(n, Start(n))
  {
    var s := Start(n);
    assert Tx(n.origin, n.msg) in s.pending;
  }

  lemma RelayIsCopy(n: Setup, tx: Tx)
    requires n.IsCopy(tx.msg) && tx.msg.header.ttl > 1
    ensures n.IsCopy(Relayed(tx.msg)) && Relayed(tx.msg).header.hopCount == tx.msg.header.hopCount + 1
  {}

  lemma TransmitCopies(n: Setup, s: State, tx: Tx, relays: set<IP>)
    requires CopiesOk(n, s) && tx in s.pending && MayRelay(n, s, tx, relays)
    ensures CopiesOk(n, Transmit(n, s, tx, relays))
  {
    var s' := Transmit(n, s, tx, relays);
    forall t | t in s'.pending
      ensures n.IsCopy(t.msg) && t.msg.header.hopCount <= |s'.log| && (t.sender == n.origin || t.sender in s'.received)
    {
      if t in Copies(tx, relays) {
        RelayIsCopy(n, tx);
      }
    }
  }

  lemma TransmitOnce(n: Setup, s: State, tx: Tx, relays: set<IP>)
    requires CopiesOk(n, s) && OnceEach(s) && tx in s.pending && MayRelay(n, s, tx, relays)
    ensures OnceEach(Transmit(n, s, tx, relays))
  {
    var s' := Transmit(n, s, tx, relays);
    forall i, t | 0 <= i < |s'.log| && t in s'.pending
      ensures s'.log[i].sender != t.sender
    {
      if t in Copies(tx, relays) {
        assert t.sender in Fresh(n, s, tx);
        assert i < |s.log| ==> s'.log[i] == s.log[i];
      }
    }
    forall t, u | t in s'.pending && u in s'.pending && t.sender == u.sender
      ensures t == u
    {
      assert t in Copies(tx, relays) ==> t.sender in Fresh(n, s, tx);
      assert u in Copies(tx, relays) ==> u.sender in Fresh(n, s, tx);
    }
  }

  lemma TransmitHeard(n: Setup, s: State, tx: Tx, relays: set<IP>)
    requires AllHeard(n, s) && MayRelay(n, s, tx, relays)
    ensures AllHeard(n, Transmit(n, s, tx, relays))
  {
    var s' := Transmit(n, s, tx, relays);
    forall i, w | 0 <= i < |s'.log| && n.Hears(w, s'.log[i].sender)
      ensures w == n.origin || w in s'.received
    {
      assert i < |s.log| ==> s'.log[i] == s.log[i];
    }
  }

  /** The senders after a transmission are those before it and the new relays. */
  lemma TransmitSends(n: Setup, s: State, tx: Tx, relays: set<IP>, u: IP)
    requires tx in s.pending && MayRelay(n, s, tx, relays)
    ensures Sends(Transmit(n, s, tx, relays), u) <==> Sends(s, u) || u in relays
  {
    var s' := Transmit(n, s, tx, relays);
    if i :| 0 <= i < |s.log| && s.log[i].sender == u {
      assert s'.log[i].sender == u;
    }
    if t :| t in s.pending && t.sender == u {
      assert t == tx ==> s'.log[|s.log|].sender == u;
      assert t != tx ==> t in s'.pending;
    }
    if u in relays {
      assert Tx(u, Relayed(tx.msg)) in s'.pending;
    }
    if i :| 0 <= i < |s'.log| && s'.log[i].sender == u {
      assert i < |s.log| ==> s'.log[i] == s.log[i];
    }
  }

  lemma TransmitInv(n: Setup, s: State, tx: Tx, relays: set<IP>)
    requires n.Valid() && Inv(n, s) && tx in s.pending && MayRelay(n, s, tx, relays)
    ensures Inv(n, Transmit(n, s, tx, relays))
  {
    hide CopiesOk, OnceEach, AllHeard, Sends;
    TransmitCopies(n, s, tx, relays);
    TransmitOnce(n, s, tx, relays);
    TransmitHeard(n, s, tx, relays);
    TransmitSends(n, s, tx, relays, n.origin);
    SendersAreNodes(n, s, tx);
  }

  lemma SendersAreNodes(n: Setup, s: State, tx: Tx)
    requires n.Valid() && Inv(n, s) && tx in s.pending
    ensures tx.sender in n.adj && Fresh(n, s, tx) <= n.adj.Keys - {n.origin}
  {
    forall w | w in Fresh(n, s, tx)
      ensures w in n.adj
    {
      assert n.Hears(w, tx.sender);
    }
  }

  lemma TransmitFirstCopy(n: Setup, s: State, tx: Tx, u: IP, i: nat)
    requires FirstCopy(n, s, u, i) && u in s.received && tx in s.pending
    ensures FirstCopy(n, Transmit(n, s, tx, ByRule(n, s, tx)), u, i)
  {
    hide Sends;
    TransmitSends(n, s, tx, ByRule(n, s, tx), u);
  }

  lemma FreshFirstCopy(n: Setup, s: State, tx: Tx, u: IP)
    requires CopiesOk(n, s) && AllHeard(n, s) && u in Fresh(n, s, tx) && tx in s.pending
    ensures FirstCopy(n, Transmit(n, s, tx, ByRule(n, s, tx)), u, |s.log|)
  {
    var s' := Transmit(n, s, tx, ByRule(n, s, tx));
    assert forall j :: 0 <= j < |s.log| ==> s'.log[j] == s.log[j];
    FreshSentNothing(n, s, u);
    hide Sends, CopiesOk;
    TransmitSends(n, s, tx, ByRule(n, s, tx), u);
  }

  lemma TransmitRule(n: Setup, s: State, tx: Tx)
    requires Inv(n, s) && RuleKept(n, s) && tx in s.pending
    ensures RuleKept(n, Transmit(n, s, tx, ByRule(n, s, tx)))
  {
    hide FirstCopy, Fresh, CopiesOk, AllHeard, Sends, OnceEach;
    var s' := Transmit(n, s, tx, ByRule(n, s, tx));
    forall u | u in s'.received
      ensures exists i: nat :: FirstCopy(n, s', u, i)
    {
      if u in s.received {
        var i: nat :| FirstCopy(n, s, u, i);
        TransmitFirstCopy(n, s, tx, u, i);
      } else {
        FreshFirstCopy(n, s, tx, u);
      }
    }
  }

  lemma FreshSentNothing(n: Setup, s: State, u: IP)
    requires CopiesOk(n, s) && u !in s.received && u != n.origin
    ensures !Sends(s, u)
  {}

  // ---- Everyone is reached ----

  /** The i-th sender has a neighbour that x hears. */
  ghost predicate TwoAway(n: Setup, s: State, x: IP, i: nat) {
    i < |s.log| && exists y :: n.Hears(y, s.log[i].sender) && n.Hears(x, y)
  }

  lemma {:induction false} LeastTwoAway(n: Setup, s: State, x: IP, i: nat) returns (k: nat)
    requires TwoAway(n, s, x, i)
    ensures k <= i && TwoAway(n, s, x, k) && forall j :: 0 <= j < k ==> !TwoAway(n, s, x, j)
    decreases i
  {
    if j :| 0 <= j < i && TwoAway(n, s, x, j) {
      k := LeastTwoAway(n, s, x, j);
    } else {
      k := i;
    }
  }

  /** Distinct senders out of a set are no more than the set has. */
  lemma {:induction false} SendersBounded(log: seq<Tx>, nodes: set<IP>)
    requires forall i :: 0 <= i < |log| ==> log[i].sender in nodes
    requires forall i, j :: 0 <= i < j < |log| ==> log[i].sender != log[j].sender
    ensures |log| <= |nodes|
  {
    if log != [] {
      var n := |log| - 1;
      SendersBounded(log[..n], nodes - {log[n].sender});
      assert |nodes - {log[n].sender}| == |nodes| - 1;
    }
  }

  /** At most one transmission per router. */
  lemma FloodBounded(n: Setup, s: State)
    requires Inv(n, s)
    ensures |s.log| <= |n.adj|
  {
    SendersBounded(s.log, n.adj.Keys);
  }

  /** With a router still missing the message, every copy sent so far can be relayed. */
  lemma StillAlive(n: Setup, s: State, x: IP, i: nat)
    requires n.Valid() && Inv(n, s) && n.msg.header.ttl >= |n.adj|
    requires x in n.adj && x != n.origin && x !in s.received && i < |s.log|
    ensures s.log[i].msg.header.ttl > 1
  {
    SendersBounded(s.log, n.adj.Keys - {x});
    assert |n.adj.Keys - {x}| == |n.adj| - 1;
  }

  /** A router that sent was heard by everyone in its range. */
  lemma SentIsHeard(n: Setup, s: State, u: IP, x: IP)
    requires Inv(n, s) && s.pending == {} && Sends(s, u) && n.Hears(x, u)
    ensures x == n.origin || x in s.received
  {
    var i :| 0 <= i < |s.log| && s.log[i].sender == u;
  }

  /** What has to hold of the relays for a message of this type to reach everyone: for
      a source claim, nothing. */
  ghost predicate CanFlood(n: Setup) {
    !n.OneHopOnly() && (n.IsClaim() || n.RelaysCover())
  }

  /** A claim is sent on by all who get it. For other messages, the relay of the first
      sender that is two hops from an unreached router has its first copy from that very
      sender, so it relays, and the router is reached. */
  lemma NoNeighborOfReachedIsMissed(n: Setup, s: State, y: IP, x: IP)
    requires n.Valid() && Inv(n, s) && RuleKept(n, s) && s.pending == {}
    requires n.msg.header.ttl >= |n.adj| && CanFlood(n)
    requires (y == n.origin || y in s.received) && n.Hears(x, y)
    ensures x == n.origin || x in s.received
  {
    if x != n.origin && x !in s.received {
      assert x in n.adj by {
        assert n.Hears(y, x);
      }
      if y == n.origin {
        SentIsHeard(n, s, y, x);
      } else {
        var i0: nat :| FirstCopy(n, s, y, i0);
        if n.IsClaim() {
          StillAlive(n, s, x, i0);
          SentIsHeard(n, s, y, x);
        } else {
          var i := LeastTwoAway(n, s, x, i0);
          var tx := s.log[i];
          assert x != tx.sender && !n.Hears(x, tx.sender);
          assert n.StrictTwoHop(tx.sender, x);
          var m :| n.Chose(tx.sender, m) && n.Hears(m, tx.sender) && n.Hears(x, m);
          RelayOfLeast(n, s, x, i, m);
          SentIsHeard(n, s, m, x);
        }
      }
    }
  }

  lemma RelayOfLeast(n: Setup, s: State, x: IP, i: nat, m: IP)
    requires n.Valid() && Inv(n, s) && RuleKept(n, s) && s.pending == {}
    requires n.msg.header.ttl >= |n.adj| && !n.OneHopOnly()
    requires x in n.adj && x != n.origin && x !in s.received
    requires TwoAway(n, s, x, i) && forall j :: 0 <= j < i ==> !TwoAway(n, s, x, j)
    requires n.Chose(s.log[i].sender, m) && n.Hears(m, s.log[i].sender) && n.Hears(x, m)
    ensures Sends(s, m)
  {
    if m != n.origin {
      assert m in s.received;
      var j: nat :| FirstCopy(n, s, m, j);
      assert TwoAway(n, s, x, j);
      assert j == i;
      StillAlive(n, s, x, i);
    }
  }

  lemma InvReceived(n: Setup, s: State)
    requires n.Valid() && Inv(n, s)
    ensures s.received + {n.origin} <= n.adj.Keys && n.origin !in s.received
  {}

  /** Flooding reaches everyone: when nothing is left to send, every router but the
      origin has received the message. */
  lemma FloodReachesAll(n: Setup, s: State)
    requires n.Valid() && n.Connected() && Inv(n, s) && RuleKept(n, s) && s.pending == {}
    requires n.msg.header.ttl >= |n.adj| && CanFlood(n)
    ensures s.received == n.adj.Keys - {n.origin}
  {
    hide Inv, RuleKept, CanFlood;
    var all := s.received + {n.origin};
    assert all <= n.adj.Keys && n.origin !in s.received by {
      InvReceived(n, s);
    }
    forall y, x | y in all && n.Hears(x, y)
      ensures x in all
    {
      NoNeighborOfReachedIsMissed(n, s, y, x);
    }
    assert all == n.adj.Keys;
  }

  lemma OnlyRelaysSend(n: Setup, s: State, v: IP)
    requires Inv(n, s) && RuleKept(n, s) && Sends(s, v)
    ensures v == n.origin || exists j :: 0 <= j < |s.log| && n.Forwards(v, s.log[j])
  {
    if v != n.origin {
      assert v in s.received;
      var j: nat :| FirstCopy(n, s, v, j);
    }
  }

  /** Where nobody is anybody's relay, anything but a source claim stops after one hop. */
  lemma OneHop(n: Setup, s: State)
    requires n.Valid() && Inv(n, s) && RuleKept(n, s) && s.pending == {}
    requires n.OneHopOnly() || (n.NoRelays() && !n.IsClaim())
    ensures s.received == n.adj[n.origin]
  {
    forall u | u in s.received
      ensures n.Hears(u, n.origin)
    {
      var i: nat :| FirstCopy(n, s, u, i);
      assert Sends(s, s.log[i].sender);
      OnlyRelaysSend(n, s, s.log[i].sender);
    }
    forall u | n.Hears(u, n.origin)
      ensures u in s.received
    {
      SentIsHeard(n, s, n.origin, u);
    }
  }

  /** So there a flood has reached everyone exactly if it was a source claim or everyone
      hears the origin. */
  lemma WithoutRelaysReachedIff(n: Setup, s: State)
    requires n.Valid() && n.Connected() && Inv(n, s) && RuleKept(n, s) && s.pending == {}
    requires n.msg.header.ttl >= |n.adj| && n.NoRelays()
    ensures s.received == n.adj.Keys - {n.origin} <==>
              n.IsClaim() || forall u :: u in n.adj && u != n.origin ==> n.Hears(u, n.origin)
  {
    if n.IsClaim() {
      FloodReachesAll(n, s);
    } else {
      OneHop(n, s);
      assert forall u :: n.Hears(u, n.origin) ==> n.Hears(n.origin, u);
      assert forall u :: u in s.received <==> n.Hears(u, n.origin);
    }
  }
}
