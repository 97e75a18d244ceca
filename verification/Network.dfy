/** Routers with their real tables and clocks, exchanging the copies of one flooded
    message while they age their tables and handle other messages. */
module Network {
  import opened Common
  import opened Messages
  import opened Wire
  import opened Relay
  import opened Flood
  import D = Duplicates

  datatype Net = Net(now: Nanos, views: map<IP, View>, pending: multiset<Tx>, log: seq<Tx>)

  datatype Step =
    | Transmission(tx: Tx)
    | Clock(time: Nanos)
    | AgeOut(router: IP)
    | Other(router: IP, sender: IP, msg: Message)

  ghost function Result(n: Setup, net: Net, tx: Tx, w: IP): (View, Option<Message>)
    requires w in net.views
  {
    Handle(w, n.heardAs(tx.sender, w), net.now, tx.msg, net.views[w])
  }

  /** The routers that a transmission makes relay. */
  ghost function Relaying(n: Setup, net: Net, tx: Tx): set<IP> {
    set w | w in net.views && n.Hears(w, tx.sender) && Result(n, net, tx, w).1.Some?
  }

  /** What they send on. */
  ghost function RelaysOf(n: Setup, net: Net, tx: Tx): set<Tx> {
    set w | w in Relaying(n, net, tx) :: Tx(w, Result(n, net, tx, w).1.value)
  }

  /** A transmission reaches all neighbours of its sender at once. */
  ghost function Delivered(n: Setup, net: Net, tx: Tx): Net {
    Net(net.now,
        map w | w in net.views :: if n.Hears(w, tx.sender) then Result(n, net, tx, w).0 else net.views[w],
        net.pending - multiset{tx} + multiset(RelaysOf(n, net, tx)),
        net.log + [tx])
  }

  ghost predicate NetStep(n: Setup, net: Net, step: Step, net': Net) {
    match step
    case Transmission(tx) => tx in net.pending && net' == Delivered(n, net, tx)
    case Clock(time) => time >= net.now && net' == net.(now := time)
    case AgeOut(u) => u in net.views && net' == net.(views := net.views[u := Aged(net.views[u], net.now)])
    case Other(u, sender, m) =>
      && u in net.views
      && (m.header.originator, m.header.seqNum) != (n.msg.header.originator, n.msg.header.seqNum)
      && net' == net.(views := net.views[u := Handle(u, sender, net.now, m, net.views[u]).0])
  }

  ghost predicate Unseen(n: Setup, v: View, from: Nanos) {
    forall t :: t >= from ==> !D.Live(v.dups, n.msg.header.originator, n.msg.header.seqNum, t)
  }

  /** A flood about to start, to be over before its duplicate entries expire. */
  ghost predicate Begins(n: Setup, net: Net, until: Nanos) {
    && n.Valid() && n.origin == n.msg.header.originator
    && net.views.Keys == n.adj.Keys
    && net.now < until <= net.now + n.msg.header.vtime
    && net.pending == multiset{Tx(n.origin, n.msg)} && net.log == []
    && (forall u :: u in net.views && u != n.origin ==> Unseen(n, net.views[u], net.now))
  }

  ghost predicate Run(n: Setup, nets: seq<Net>, steps: seq<Step>, until: Nanos) {
    && |nets| == |steps| + 1 && Begins(n, nets[0], until)
    && (forall i {:trigger steps[i]} :: 0 <= i < |steps| ==> NetStep(n, nets[i], steps[i], nets[i + 1]))
    && (forall i :: 0 <= i < |nets| ==> nets[i].now < until)
  }

  /** Each router's unexpired selectors are the routers that chose it as relay, under the
      addresses from which their packets come. */
  ghost predicate Mirrors(n: Setup, net: Net) {
    forall u, x :: u in net.views && x in n.adj ==>
      (IsSelector(net.views[u].selectors, n.heardAs(x, u), net.now) <==> n.Chose(x, u))
  }

  /** The message can be sent on, and unless it is a source claim, the selector tables
      mirror the relay sets as long as the run lasts. */
  ghost predicate Follows(n: Setup, nets: seq<Net>) {
    Sendable(n.msg) && (n.IsClaim() || forall i :: 0 <= i < |nets| ==> Mirrors(n, nets[i]))
  }

  /** The router has taken the message in and will know it again to the end. */
  ghost predicate Holds(n: Setup, v: View, until: Nanos) {
    D.HeldUntil(v.dups, n.msg.header.originator, n.msg.header.seqNum, until)
  }

  ghost predicate ViewOk(n: Setup, received: set<IP>, u: IP, v: View, now: Nanos, until: Nanos) {
    if u in received then Holds(n, v, until) else u != n.origin ==> Unseen(n, v, now)
  }

  /** The tables tell the same story as the machine on sets. */
  ghost predicate Refines(n: Setup, from: Nanos, until: Nanos, net: Net, s: State) {
    && n.Valid() && n.origin == n.msg.header.originator
    && from <= net.now < until <= from + n.msg.header.vtime
    && net.views.Keys == n.adj.Keys
    && net.pending == multiset(s.pending) && net.log == s.log
    && (forall u :: u in net.views ==> ViewOk(n, s.received, u, net.views[u], net.now, until))
    && Inv(n, s)
  }

  lemma CopySendable(n: Setup, m: Message)
    requires n.IsCopy(m) && Sendable(n.msg)
    ensures Sendable(m)
  {}

  /** One router and one copy: the first copy is recorded for the whole flood and may be
      relayed; any other copy changes nothing. */
  lemma CopyHandled(n: Setup, received: set<IP>, tx: Tx, w: IP, v: View, now: Nanos, until: Nanos)
    requires n.origin == n.msg.header.originator && n.IsCopy(tx.msg)
    requires now < until <= now + n.msg.header.vtime && ViewOk(n, received, w, v, now, until)
    ensures var r := Handle(w, n.heardAs(tx.sender, w), now, tx.msg, v);
            var first := w !in received && w != n.origin;
            && (if first then Holds(n, r.0, until) else r.0 == v)
            && (r.1.Some? ==> first && tx.msg.header.ttl > 1 && r.1.value == Relayed(tx.msg))
  {
    hide Sendable, IsSelector, SelectorsAfter;
    if w in received {
      assert D.Live(v.dups, n.msg.header.originator, n.msg.header.seqNum, now);
    } else if w != n.origin {
      assert !D.Live(v.dups, n.msg.header.originator, n.msg.header.seqNum, now);
    }
  }

  /** And it is relayed by the rule where the selector table mirrors the relay sets. */
  lemma CopyRelayed(n: Setup, received: set<IP>, tx: Tx, w: IP, v: View, now: Nanos, until: Nanos)
    requires n.origin == n.msg.header.originator && n.IsCopy(tx.msg) && Sendable(tx.msg)
    requires now < until && ViewOk(n, received, w, v, now, until)
    requires n.IsClaim() || (IsSelector(v.selectors, n.heardAs(tx.sender, w), now) <==> n.Chose(tx.sender, w))
    ensures Handle(w, n.heardAs(tx.sender, w), now, tx.msg, v).1.Some? <==> w !in received && w != n.origin && n.Forwards(w, tx)
  {
    hide Sendable, IsSelector;
    if w in received {
      assert D.Live(v.dups, n.msg.header.originator, n.msg.header.seqNum, now);
    } else if w != n.origin {
      assert !D.Live(v.dups, n.msg.header.originator, n.msg.header.seqNum, now);
    }
  }

  lemma FreshExactly(n: Setup, s: State, tx: Tx, w: IP)
    requires n.Valid() && tx.sender in n.adj
    ensures w in Fresh(n, s, tx) <==> n.Hears(w, tx.sender) && w !in s.received && w != n.origin
    ensures n.Hears(w, tx.sender) ==> w in n.adj
  {
    if n.Hears(w, tx.sender) {
      assert n.Hears(tx.sender, w);
    }
  }

  lemma RefinesBasics(n: Setup, from: Nanos, until: Nanos, net: Net, s: State, tx: Tx)
    requires Refines(n, from, until, net, s) && tx in s.pending
    ensures n.Valid() && tx.sender in n.adj && net.views.Keys == n.adj.Keys && n.IsCopy(tx.msg)
    ensures n.origin == n.msg.header.originator && net.now < until <= net.now + n.msg.header.vtime
    ensures forall w :: w in net.views ==> ViewOk(n, s.received, w, net.views[w], net.now, until)
  {
    SendersAreNodes(n, s, tx);
  }

  lemma RelaysAgree(n: Setup, from: Nanos, until: Nanos, net: Net, s: State, tx: Tx)
    requires Refines(n, from, until, net, s) && tx in s.pending
    ensures MayRelay(n, s, tx, Relaying(n, net, tx))
    ensures RelaysOf(n, net, tx) == Copies(tx, Relaying(n, net, tx)) && RelaysOf(n, net, tx) !! s.pending
  {
    hide Refines, Handle, Inv, Fresh, ViewOk;
    RefinesBasics(n, from, until, net, s, tx);
    forall w | w in Relaying(n, net, tx)
      ensures w in Fresh(n, s, tx) && tx.msg.header.ttl > 1
      ensures Result(n, net, tx, w).1 == Some(Relayed(tx.msg))
    {
      CopyHandled(n, s.received, tx, w, net.views[w], net.now, until);
      FreshExactly(n, s, tx, w);
    }
    forall t | t in RelaysOf(n, net, tx)
      ensures t !in s.pending
    {
      FreshIsNew(n, from, until, net, s, tx, t);
    }
  }

  lemma FreshIsNew(n: Setup, from: Nanos, until: Nanos, net: Net, s: State, tx: Tx, t: Tx)
    requires Refines(n, from, until, net, s) && t.sender in Fresh(n, s, tx)
    ensures t !in s.pending
  {}

  lemma RelayingByRule(n: Setup, from: Nanos, until: Nanos, net: Net, s: State, tx: Tx)
    requires Refines(n, from, until, net, s) && tx in s.pending
    requires Sendable(n.msg) && (n.IsClaim() || Mirrors(n, net))
    ensures Relaying(n, net, tx) == ByRule(n, s, tx)
  {
    hide Refines, Handle, Inv, Fresh, ViewOk, Sendable, IsSelector;
    RefinesBasics(n, from, until, net, s, tx);
    CopySendable(n, tx.msg);
    forall w
      ensures w in Relaying(n, net, tx) <==> w in ByRule(n, s, tx)
    {
      FreshExactly(n, s, tx, w);
      if n.Hears(w, tx.sender) {
        CopyRelayed(n, s.received, tx, w, net.views[w], net.now, until);
      }
    }
  }

  lemma {:induction false} SetsAsMultisets<A>(a: set<A>, x: A, b: set<A>)
    requires x in a && b !! a
    ensures multiset(a) - multiset{x} + multiset(b) == multiset(a - {x} + b)
  {}

  lemma TransmissionRefines(n: Setup, from: Nanos, until: Nanos, net: Net, s: State, tx: Tx)
    requires Refines(n, from, until, net, s) && tx in net.pending
    ensures tx in s.pending && MayRelay(n, s, tx, Relaying(n, net, tx))
    ensures Refines(n, from, until, Delivered(n, net, tx), Transmit(n, s, tx, Relaying(n, net, tx)))
  {
    hide ViewOk, Inv, MayRelay, Relaying, RelaysOf, Fresh;
    assert tx in s.pending;
    RelaysAgree(n, from, until, net, s, tx);
    TransmitInv(n, s, tx, Relaying(n, net, tx));
    SetsAsMultisets(s.pending, tx, RelaysOf(n, net, tx));
    DeliveredViews(n, from, until, net, s, tx);
  }

  lemma DeliveredViews(n: Setup, from: Nanos, until: Nanos, net: Net, s: State, tx: Tx)
    requires Refines(n, from, until, net, s) && tx in s.pending
    ensures var net' := Delivered(n, net, tx);
            && net'.views.Keys == net.views.Keys
            && (forall u :: u in net'.views ==>
                  ViewOk(n, s.received + Fresh(n, s, tx), u, net'.views[u], net.now, until))
  {
    hide Handle, Result, Inv, ViewOk, Refines, Fresh;
    var net' := Delivered(n, net, tx);
    forall u | u in net'.views
      ensures ViewOk(n, s.received + Fresh(n, s, tx), u, net'.views[u], net.now, until)
    {
      DeliveredView(n, from, until, net, s, tx, u);
    }
  }

  lemma DeliveredView(n: Setup, from: Nanos, until: Nanos, net: Net, s: State, tx: Tx, u: IP)
    requires Refines(n, from, until, net, s) && tx in s.pending && u in net.views
    ensures var v := if n.Hears(u, tx.sender) then Result(n, net, tx, u).0 else net.views[u];
            ViewOk(n, s.received + Fresh(n, s, tx), u, v, net.now, until)
  {
    hide Handle, Inv, Fresh, Refines;
    RefinesBasics(n, from, until, net, s, tx);
    FreshExactly(n, s, tx, u);
    CopyHandled(n, s.received, tx, u, net.views[u], net.now, until);
  }

  lemma ClockView(n: Setup, received: set<IP>, u: IP, v: View, now: Nanos, later: Nanos, until: Nanos)
    requires ViewOk(n, received, u, v, now, until) && now <= later
    ensures ViewOk(n, received, u, v, later, until)
  {}

  lemma AgedView(n: Setup, received: set<IP>, u: IP, v: View, now: Nanos, until: Nanos)
    requires ViewOk(n, received, u, v, now, until) && now < until
    ensures ViewOk(n, received, u, Aged(v, now), now, until)
  {
    var o, q := n.msg.header.originator, n.msg.header.seqNum;
    var aged := Aged(v, now);
    D.AgedEntry(v.dups, now, o, q);
    if u in received {
      assert Holds(n, aged, until);
    } else if u != n.origin {
      forall t | t >= now
        ensures !D.Live(aged.dups, o, q, t)
      {
        assert !D.Live(v.dups, o, q, t);
      }
      assert Unseen(n, aged, now);
    }
    assert ViewOk(n, received, u, aged, now, until);
  }

  lemma OtherView(n: Setup, received: set<IP>, u: IP, sender: IP, m: Message, v: View, now: Nanos, until: Nanos)
    requires ViewOk(n, received, u, v, now, until)
    requires (m.header.originator, m.header.seqNum) != (n.msg.header.originator, n.msg.header.seqNum)
    ensures ViewOk(n, received, u, Handle(u, sender, now, m, v).0, now, until)
  {
    hide Sendable, ShouldForward, SelectorsAfter;
    var w := Handle(u, sender, now, m, v).0;
    var o, q := n.msg.header.originator, n.msg.header.seqNum;
    assert o in w.dups && q in w.dups[o] <==> o in v.dups && q in v.dups[o];
    assert o in v.dups && q in v.dups[o] ==> w.dups[o][q] == v.dups[o][q];
    if u in received {
      assert Holds(n, w, until);
    } else if u != n.origin {
      forall t | t >= now
        ensures !D.Live(w.dups, o, q, t)
      {
        assert !D.Live(v.dups, o, q, t);
      }
      assert Unseen(n, w, now);
    }
  }

  lemma ViewReplaced(n: Setup, from: Nanos, until: Nanos, net: Net, s: State, u: IP, v: View)
    requires Refines(n, from, until, net, s) && u in net.views
    requires ViewOk(n, s.received, u, v, net.now, until)
    ensures Refines(n, from, until, net.(views := net.views[u := v]), s)
  {
    hide Inv, ViewOk;
    assert net.views[u := v].Keys == net.views.Keys;
  }

  /** Each step of the network is a step of the set machine or none, by the rule if the
      tables follow it. */
  lemma StepRefines(n: Setup, from: Nanos, until: Nanos, net: Net, step: Step, net': Net, s: State) returns (s': State)
    requires Refines(n, from, until, net, s) && NetStep(n, net, step, net') && net'.now < until
    ensures Refines(n, from, until, net', s')
    ensures RuleKept(n, s) && Sendable(n.msg) && (n.IsClaim() || Mirrors(n, net)) ==> RuleKept(n, s')
  {
    hide Inv, Handle, ViewOk, Transmit, Delivered, Sendable, RuleKept, Mirrors, Relaying, MayRelay;
    s' := s;
    match step {
      case Transmission(tx) =>
        TransmissionRefines(n, from, until, net, s, tx);
        s' := Transmit(n, s, tx, Relaying(n, net, tx));
        if RuleKept(n, s) && Sendable(n.msg) && (n.IsClaim() || Mirrors(n, net)) {
          RelayingByRule(n, from, until, net, s, tx);
          TransmitRule(n, s, tx);
        }
      case Clock(time) =>
        forall u | u in net'.views
          ensures ViewOk(n, s.received, u, net'.views[u], net'.now, until)
        {
          ClockView(n, s.received, u, net.views[u], net.now, time, until);
        }
      case AgeOut(u) =>
        AgedView(n, s.received, u, net.views[u], net.now, until);
        ViewReplaced(n, from, until, net, s, u, net'.views[u]);
      case Other(u, sender, m) =>
        OtherView(n, s.received, u, sender, m, net.views[u], net.now, until);
        ViewReplaced(n, from, until, net, s, u, net'.views[u]);
    }
  }

  lemma BeginRefines(n: Setup, net: Net, until: Nanos)
    requires Begins(n, net, until)
    ensures Refines(n, net.now, until, net, Start(n)) && RuleKept(n, Start(n))
  {
    StartInv(n);
    forall u | u in net.views
      ensures ViewOk(n, {}, u, net.views[u], net.now, until)
    {}
  }

  /** Every state of every run is told by a state of the set machine that has its
      invariants. */
  lemma {:induction false} RunRefines(n: Setup, nets: seq<Net>, steps: seq<Step>, until: Nanos, i: nat) returns (s: State)
    requires Run(n, nets, steps, until) && i < |nets|
    ensures Refines(n, nets[0].now, until, nets[i], s)
    ensures Follows(n, nets) ==> RuleKept(n, s)
  {
    hide Begins, Refines, NetStep, RuleKept, Sendable, Mirrors;
    if i == 0 {
      BeginRefines(n, nets[0], until);
      s := Start(n);
    } else {
      var s0 := RunRefines(n, nets, steps, until, i - 1);
      assert NetStep(n, nets[i - 1], steps[i - 1], nets[i]);
      s := StepRefines(n, nets[0].now, until, nets[i - 1], steps[i - 1], nets[i], s0);
    }
  }

  lemma NothingPending(s: State, pending: multiset<Tx>)
    requires pending == multiset{} && pending == multiset(s.pending)
    ensures s.pending == {}
  {
    assert forall t :: t in s.pending <==> t in pending;
  }

  lemma HoldsIffReceived(n: Setup, received: set<IP>, u: IP, v: View, now: Nanos, until: Nanos)
    requires ViewOk(n, received, u, v, now, until) && now < until && u != n.origin
    ensures Holds(n, v, until) <==> u in received
  {
    if u !in received {
      assert !D.Live(v.dups, n.msg.header.originator, n.msg.header.seqNum, now);
    }
  }

  /** Every router but the origin holds the message. */
  ghost predicate AllHold(n: Setup, net: Net, until: Nanos) {
    forall u :: u in n.adj && u != n.origin ==> u in net.views && Holds(n, net.views[u], until)
  }

  lemma AllHoldIff(n: Setup, from: Nanos, until: Nanos, net: Net, s: State)
    requires Refines(n, from, until, net, s)
    ensures AllHold(n, net, until) <==> s.received == n.adj.Keys - {n.origin}
  {
    hide Holds, ViewOk;
    forall u | u in n.adj && u != n.origin
      ensures Holds(n, net.views[u], until) <==> u in s.received
    {
      HoldsIffReceived(n, s.received, u, net.views[u], net.now, until);
    }
  }

  /** The flooding theorem: in every run that ends with nothing left to send, inside
      the validity of the message, every router holds the message. A source claim needs
      no relays for that, other messages need relays that cover and selector tables
      that mirror them. */
  lemma FloodingReachesEveryone(n: Setup, nets: seq<Net>, steps: seq<Step>, until: Nanos, i: nat)
    requires Run(n, nets, steps, until) && i < |nets| && nets[i].pending == multiset{}
    requires n.Connected() && n.msg.header.ttl >= |n.adj|
    requires Follows(n, nets) && CanFlood(n)
    ensures AllHold(n, nets[i], until)
  {
    hide Run, Follows, Holds, ViewOk, CanFlood, RuleKept, Inv;
    var s := RunRefines(n, nets, steps, until, i);
    NothingPending(s, nets[i].pending);
    FloodReachesAll(n, s);
    AllHoldIff(n, nets[0].now, until, nets[i], s);
  }

  /** No router has an unexpired selector at any time of the run. */
  ghost predicate NobodySelected(nets: seq<Net>) {
    forall i, u, x :: 0 <= i < |nets| && u in nets[i].views ==> !IsSelector(nets[i].views[u].selectors, x, nets[i].now)
  }

  lemma NobodyFollows(n: Setup, nets: seq<Net>)
    requires Sendable(n.msg) && n.NoRelays() && NobodySelected(nets)
    ensures Follows(n, nets)
  {
    hide Sendable, IsSelector;
  }

  /** What the routers do does not turn on whom they chose, only on who is in a table. */
  lemma RunIgnoresChoice(n: Setup, nets: seq<Net>, steps: seq<Step>, until: Nanos)
    requires Run(n, nets, steps, until)
    ensures Run(n.(mpr := map[]), nets, steps, until)
  {
    hide Handle, Aged;
    var k := n.(mpr := map[]);
    forall i | 0 <= i < |steps|
      ensures NetStep(k, nets[i], steps[i], nets[i + 1])
    {
      assert NetStep(n, nets[i], steps[i], nets[i + 1]);
      StepIgnoresChoice(n, nets[i], steps[i], nets[i + 1]);
    }
    assert forall u, v :: k.Hears(u, v) <==> n.Hears(u, v);
    assert k.Symmetric();
    assert Begins(k, nets[0], until);
  }

  lemma ConnectedIgnoresChoice(n: Setup)
    requires n.Connected()
    ensures n.(mpr := map[]).Connected()
  {
    var k := n.(mpr := map[]);
    assert forall u, v :: k.Hears(u, v) <==> n.Hears(u, v);
  }

  lemma StepIgnoresChoice(n: Setup, net: Net, step: Step, net': Net)
    requires NetStep(n, net, step, net')
    ensures NetStep(n.(mpr := map[]), net, step, net')
  {
    hide Handle, Aged;
    if step.Transmission? {
      assert Relaying(n.(mpr := map[]), net, step.tx) == Relaying(n, net, step.tx);
      assert RelaysOf(n.(mpr := map[]), net, step.tx) == RelaysOf(n, net, step.tx);
      assert Delivered(n.(mpr := map[]), net, step.tx) == Delivered(n, net, step.tx);
    }
  }

  /** Without selectors, as in a network of routers whose HELLOs name no relays, a flood
      that is over has reached everyone exactly if it was a source claim or everyone
      hears the origin. */
  lemma WithoutSelectorsReachedIff(n: Setup, nets: seq<Net>, steps: seq<Step>, until: Nanos, i: nat)
    requires Run(n, nets, steps, until) && i < |nets| && nets[i].pending == multiset{}
    requires n.Connected() && n.msg.header.ttl >= |n.adj|
    requires Sendable(n.msg) && NobodySelected(nets)
    ensures AllHold(n, nets[i], until) <==>
              n.IsClaim() || forall u :: u in n.adj && u != n.origin ==> n.Hears(u, n.origin)
  {
    hide Run, Follows, ViewOk, RuleKept, Inv, Sendable, NobodySelected;
    var k := n.(mpr := map[]);
    RunIgnoresChoice(n, nets, steps, until);
    NobodyFollows(k, nets);
    var s := RunRefines(k, nets, steps, until, i);
    NothingPending(s, nets[i].pending);
    ConnectedIgnoresChoice(n);
    WithoutRelaysReachedIff(k, s);
    AllHoldIff(k, nets[0].now, until, nets[i], s);
    assert AllHold(k, nets[i], until) <==> AllHold(n, nets[i], until);
    assert forall u :: k.Hears(u, k.origin) <==> n.Hears(u, n.origin);
  }

  /** At every point of every run, whatever the selector tables say: each router has sent
      at most once, and on every copy the two hop counts add up to the initial time to
      live, never wrapping. */
  lemma FloodingIsBounded(n: Setup, nets: seq<Net>, steps: seq<Step>, until: Nanos, i: nat)
    requires Run(n, nets, steps, until) && i < |nets|
    ensures |nets[i].log| <= |n.adj|
    ensures forall a, b :: 0 <= a < b < |nets[i].log| ==> nets[i].log[a].sender != nets[i].log[b].sender
    ensures forall tx :: tx in nets[i].pending || tx in nets[i].log ==>
              n.IsCopy(tx.msg) && tx.msg.header.ttl + tx.msg.header.hopCount == n.msg.header.ttl
    ensures forall tx :: tx in nets[i].pending ==> nets[i].pending[tx] == 1
  {
    var s := RunRefines(n, nets, steps, until, i);
    FloodBounded(n, s);
    var left := nets[i].pending;
    assert forall t :: t in left <==> t in s.pending;
  }

  // ---- Three routers in a line ----

  function Line(o: IP, a: IP, b: IP, heardAs: (IP, IP) -> IP, msg: Message): Setup {
    Setup(map[o := {a}, a := {o, b}, b := {a}], heardAs, map[], o, msg)
  }

  lemma LineOk(o: IP, a: IP, b: IP, heardAs: (IP, IP) -> IP, msg: Message)
    requires o != a && a != b && o != b && msg.header.hopCount == 0
    ensures var n := Line(o, a, b, heardAs, msg); n.Valid() && n.Connected() && |n.adj| == 3 && !n.Hears(b, o)
  {
    var n := Line(o, a, b, heardAs, msg);
    assert n.adj.Keys == {o, a, b};
    forall s: set<IP> | o in s && s <= n.adj.Keys && (forall u, v :: v in s && n.Hears(u, v) ==> u in s)
      ensures s == n.adj.Keys
    {
      assert n.Hears(a, o) && n.Hears(b, a);
    }
  }

  function Advertisement(o: IP, seqNum: uint16, vtime: Nanos): Message {
    Message(MessageHeader(TC, vtime, o, 255, 0, seqNum), Topology(seqNum, []))
  }

  lemma AdvertisementSendable(o: IP, seqNum: uint16, vtime: Nanos)
    requires o.V4?
    ensures Sendable(Advertisement(o, seqNum, vtime))
  {
    assert BodyBytes(Topology(seqNum, [])) == U16(seqNum) + [0, 0];
  }

  ghost function LineStart(n: Setup): Net {
    Net(0, map u | u in n.adj :: View(map[], map[]), multiset{Tx(n.origin, n.msg)}, [])
  }

  lemma LineDelivered(n: Setup)
    requires n.msg.header.msgType == TC
    ensures var next := Delivered(n, LineStart(n), Tx(n.origin, n.msg));
            next.pending == multiset{} && next.now == 0 && forall u :: u in next.views ==> next.views[u].selectors == map[]
  {
    hide Handle;
    var start, tx := LineStart(n), Tx(n.origin, n.msg);
    forall w | w in start.views
      ensures Result(n, start, tx, w).1 == None && Result(n, start, tx, w).0.selectors == map[]
    {
      NotRelayed(w, n.heardAs(tx.sender, w), start.now, tx.msg);
    }
    assert RelaysOf(n, start, tx) == {};
  }

  /** A run without selectors in which only the origin transmits. */
  lemma LineRun(o: IP, a: IP, b: IP, heardAs: (IP, IP) -> IP, seqNum: uint16, vtime: Nanos) returns (nets: seq<Net>)
    requires o != a && a != b && o != b && vtime > 0
    ensures var n := Line(o, a, b, heardAs, Advertisement(o, seqNum, vtime));
            |nets| == 2 && nets[1].pending == multiset{} && NobodySelected(nets)
            && Run(n, nets, [Transmission(Tx(o, n.msg))], vtime)
  {
    hide Line, Delivered;
    var msg := Advertisement(o, seqNum, vtime);
    var n := Line(o, a, b, heardAs, msg);
    LineBasics(o, a, b, heardAs, msg);
    LineDelivered(n);
    nets := [LineStart(n), Delivered(n, LineStart(n), Tx(o, n.msg))];
    assert NetStep(n, nets[0], Transmission(Tx(o, n.msg)), nets[1]);
    assert Begins(n, nets[0], vtime);
  }

  lemma LineBasics(o: IP, a: IP, b: IP, heardAs: (IP, IP) -> IP, msg: Message)
    requires o != a && a != b && o != b && msg.header.hopCount == 0
    ensures var n := Line(o, a, b, heardAs, msg); n.Valid() && n.origin == o && n.msg == msg
  {}

  lemma NotRelayed(me: IP, sender: IP, now: Nanos, m: Message)
    requires m.header.msgType == TC
    ensures var r := Handle(me, sender, now, m, View(map[], map[])); r.1 == None && r.0.selectors == map[]
  {
    hide Sendable;
  }

  /** So for a topology message of full time to live there are runs that end with nothing
      left to send, and all of them leave the far router without it. */
  lemma LineStopsShort(o: IP, a: IP, b: IP, heardAs: (IP, IP) -> IP, seqNum: uint16, vtime: Nanos)
    requires o != a && a != b && o != b && vtime > 0 && o.V4?
    ensures var n := Line(o, a, b, heardAs, Advertisement(o, seqNum, vtime));
            && n.Valid() && n.Connected() && n.msg.header.ttl >= |n.adj| && Sendable(n.msg)
            && (exists nets: seq<Net>, steps: seq<Step> ::
                  Run(n, nets, steps, vtime) && NobodySelected(nets) && nets[|nets| - 1].pending == multiset{})
            && (forall nets: seq<Net>, steps: seq<Step>, until, i: nat {:trigger nets[i], Run(n, nets, steps, until)} ::
                  Run(n, nets, steps, until) && NobodySelected(nets) && i < |nets| && nets[i].pending == multiset{} ==>
                    !AllHold(n, nets[i], until))
  {
    hide Run, NobodySelected, Sendable, AllHold;
    var n := Line(o, a, b, heardAs, Advertisement(o, seqNum, vtime));
    LineOk(o, a, b, heardAs, n.msg);
    AdvertisementSendable(o, seqNum, vtime);
    var run := LineRun(o, a, b, heardAs, seqNum, vtime);
    assert Run(n, run, [Transmission(Tx(o, n.msg))], vtime);
    forall nets: seq<Net>, steps: seq<Step>, until, i: nat
      | Run(n, nets, steps, until) && NobodySelected(nets) && i < |nets| && nets[i].pending == multiset{}
      ensures !AllHold(n, nets[i], until)
    {
      WithoutSelectorsReachedIff(n, nets, steps, until, i);
    }
  }
}
