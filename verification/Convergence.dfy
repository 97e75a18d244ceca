/** Where the flooding theorems meet relay selection and the HELLOs that are sent. */
module Convergence {
  import opened Common
  import opened Messages
  import opened Relay
  import opened Flood
  import opened Network
  import Daemon
  import NT = NeighborTables

  /** Router v's tables describe the graph: its willing symmetric neighbours are those
      in range, and their unexpired two-hop lists are their own neighbours. */
  ghost predicate TablesKnow(n: Setup, v: IP, neighbors: NT.Neighbors, twoHops: NT.TwoHops, now: Nanos) {
    && (forall h :: NT.Willing(neighbors, h) <==> n.Hears(h, v))
    && (forall h, t :: NT.Reaches(neighbors, twoHops, now, h, t) ==> n.Hears(t, h))
    && (forall h, t :: n.Hears(h, v) && n.Hears(t, h) && t != v ==> NT.Reaches(neighbors, twoHops, now, h, t))
  }

  /** Relays chosen from such tables cover what the flooding theorem needs covered. */
  lemma ChosenRelaysCover(n: Setup, neighbors: IP -> NT.Neighbors, twoHops: IP -> NT.TwoHops, now: IP -> Nanos)
    requires n.Symmetric() && n.mpr.Keys == n.adj.Keys
    requires forall v :: v in n.adj ==> TablesKnow(n, v, neighbors(v), twoHops(v), now(v))
    requires forall v :: v in n.adj ==> NT.MprChoice(neighbors(v), twoHops(v), now(v), n.mpr[v])
    ensures n.RelaysCover()
  {
    forall v, x | v in n.adj && n.StrictTwoHop(v, x)
      ensures exists m :: m in n.mpr[v] && n.Hears(m, v) && n.Hears(x, m)
    {
      RelayFor(n, v, x, neighbors(v), twoHops(v), now(v));
    }
  }

  lemma RelayFor(n: Setup, v: IP, x: IP, neighbors: NT.Neighbors, twoHops: NT.TwoHops, now: Nanos)
    requires n.mpr.Keys == n.adj.Keys && v in n.adj && n.StrictTwoHop(v, x)
    requires TablesKnow(n, v, neighbors, twoHops, now) && NT.MprChoice(neighbors, twoHops, now, n.mpr[v])
    ensures exists m :: m in n.mpr[v] && n.Hears(m, v) && n.Hears(x, m)
  {
    var y :| n.Hears(y, v) && n.Hears(x, y);
    NT.MprCoverage(neighbors, twoHops, now, n.mpr[v]);
    assert NT.TwoHopLink(neighbors, twoHops, now, y, x);
    var m :| m in n.mpr[v] && NT.Reaches(neighbors, twoHops, now, m, x);
    assert n.Hears(m, v) && n.Hears(x, m);
  }

  // ---- Networks of daemons as they are ----

  /** A HELLO that the daemon built, or any other message. */
  ghost predicate FromDaemons(m: Message) {
    m.header.msgType == HELLO && m.body.Hello? ==> exists links :: Daemon.Describes(m.body.hello.links, links)
  }

  ghost predicate AllFromDaemons(n: Setup, steps: seq<Step>) {
    FromDaemons(n.msg) && forall k :: 0 <= k < |steps| && steps[k].Other? ==> FromDaemons(steps[k].msg)
  }

  ghost predicate EmptySelectors(net: Net) {
    forall u :: u in net.views ==> net.views[u].selectors == map[]
  }

  lemma HandledUnselected(me: IP, sender: IP, now: Nanos, m: Message, v: View)
    requires FromDaemons(m) && v.selectors == map[]
    ensures Handle(me, sender, now, m, v).0.selectors == map[]
  {
    if m.header.msgType == HELLO && m.body.Hello? {
      var links :| Daemon.Describes(m.body.hello.links, links);
      Daemon.OwnHelloSelectsNobody(m.body.hello.links, links, me);
    }
  }

  lemma StepKeepsUnselected(n: Setup, net: Net, step: Step, net': Net)
    requires NetStep(n, net, step, net') && EmptySelectors(net)
    requires step.Transmission? ==> FromDaemons(step.tx.msg)
    requires step.Other? ==> FromDaemons(step.msg)
    ensures EmptySelectors(net')
  {
    hide Handle, FromDaemons;
    forall u | u in net'.views
      ensures net'.views[u].selectors == map[]
    {
      match step
      case Transmission(tx) => HandledUnselected(u, n.heardAs(tx.sender, u), net.now, tx.msg, net.views[u]);
      case Other(w, sender, m) => HandledUnselected(w, sender, net.now, m, net.views[w]);
      case _ =>
    }
  }

  /** Daemons that start without selectors never have any. */
  lemma {:induction false} SelectorsStayEmpty(n: Setup, nets: seq<Net>, steps: seq<Step>, until: Nanos, i: nat)
    requires Run(n, nets, steps, until) && i < |nets| && EmptySelectors(nets[0]) && AllFromDaemons(n, steps)
    ensures EmptySelectors(nets[i])
  {
    hide NetStep, FromDaemons, EmptySelectors;
    if i > 0 {
      var step := steps[i - 1];
      SelectorsStayEmpty(n, nets, steps, until, i - 1);
      assert NetStep(n, nets[i - 1], step, nets[i]);
      if step.Transmission? {
        FloodingIsBounded(n, nets, steps, until, i - 1);
        CopyFromDaemons(n, nets[i - 1], step.tx, nets[i]);
      }
      StepKeepsUnselected(n, nets[i - 1], step, nets[i]);
    }
  }

  lemma CopyFromDaemons(n: Setup, net: Net, tx: Tx, net': Net)
    requires NetStep(n, net, Transmission(tx), net') && FromDaemons(n.msg)
    requires forall t :: t in net.pending ==> n.IsCopy(t.msg)
    ensures FromDaemons(tx.msg)
  {}

  /** In a network of these daemons, a flood that is over has reached everyone exactly if
      it was a source claim or everyone hears the origin. */
  lemma DaemonsReachedIff(n: Setup, nets: seq<Net>, steps: seq<Step>, until: Nanos, i: nat)
    requires Run(n, nets, steps, until) && i < |nets| && nets[i].pending == multiset{}
    requires EmptySelectors(nets[0]) && AllFromDaemons(n, steps)
    requires n.Connected() && n.msg.header.ttl >= |n.adj| && Sendable(n.msg)
    ensures AllHold(n, nets[i], until) <==>
              n.IsClaim() || forall u :: u in n.adj && u != n.origin ==> n.Hears(u, n.origin)
  {
    hide Run, AllHold, Sendable, AllFromDaemons;
    forall k | 0 <= k < |nets|
      ensures EmptySelectors(nets[k])
    {
      SelectorsStayEmpty(n, nets, steps, until, k);
    }
    WithoutSelectorsReachedIff(n, nets, steps, until, i);
  }
}
