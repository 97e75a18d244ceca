/** What a unicast route table has to contain, stated on the graph alone. */
module RouteTables {
  import opened Common
  import opened Graphs
  import opened Prefixes

  datatype Route = Route(prefix: Prefix, nextHop: IP, metric: nat, ifaceIndex: int)

  datatype HNAEntry = HNAEntry(gateway: IP, network: Prefix, isLocal: bool)

  datatype TopologyTuple = TopologyTuple(dest: IP, last: IP, seqNum: uint16, expiration: Nanos)

  ghost predicate Announces(hna: seq<HNAEntry>, gw: IP, p: Prefix) {
    exists e :: e in hna && !e.isLocal && e.gateway == gw && e.network == p
  }

  /** Node n can be asked for p: as the host of its own /32 prefix at no extra cost,
      or as a gateway at an extra cost of one. */
  ghost predicate Serves(hna: seq<HNAEntry>, p: Prefix, n: IP, extra: nat) {
    (extra == 0 && p == HostPrefix(n)) || (extra == 1 && Announces(hna, n, p))
  }

  /** Node n, other than s itself, offers p to s at metric d + extra. */
  ghost predicate Offers(g: Graph, s: IP, hna: seq<HNAEntry>, p: Prefix, n: IP, d: nat, extra: nat) {
    n != s && Serves(hna, p, n, extra) && IsDistance(g, s, n, d)
  }

  /** r leads towards a node that offers p at the least metric anyone does. */
  ghost predicate BestRoute(g: Graph, s: IP, hna: seq<HNAEntry>, iface: IP -> int, p: Prefix, r: Route) {
    && r.prefix == p
    && r.ifaceIndex == iface(r.nextHop)
    && (exists n, d: nat, extra: nat ::
          Offers(g, s, hna, p, n, d, extra) && FirstHop(g, s, n, r.nextHop) && r.metric == d + extra)
    && forall n, d: nat, extra: nat :: Offers(g, s, hna, p, n, d, extra) ==> r.metric <= d + extra
  }

  ghost predicate IsRouteTable(g: Graph, s: IP, hna: seq<HNAEntry>, iface: IP -> int, table: map<Prefix, Route>) {
    && (forall p :: p in table ==> BestRoute(g, s, hna, iface, p, table[p]))
    && (forall p, n, d: nat, extra: nat :: Offers(g, s, hna, p, n, d, extra) ==> p in table)
  }

  /** The links the SPF engine knows of: its neighbours in both directions, what each
      neighbour said it hears, and what topology messages advertise. */
  ghost predicate KnownLink(local: IP, neighbors: seq<IP>, twoHops: map<IP, seq<IP>>,
                            topology: seq<TopologyTuple>, u: IP, v: IP)
  {
    || (u == local && v in neighbors)
    || (v == local && u in neighbors)
    || (u in twoHops && v in twoHops[u])
    || (exists t :: t in topology && t.last == u && t.dest == v)
  }

  ghost predicate IsAdjacency(g: Graph, local: IP, neighbors: seq<IP>, twoHops: map<IP, seq<IP>>,
                              topology: seq<TopologyTuple>)
  {
    && UnitCosts(g)
    && forall u, v :: Edge(g, u, v) <==> KnownLink(local, neighbors, twoHops, topology, u, v)
  }

  /** When nothing this router originated is taken for a neighbour's or a remote
      router's message, every first hop is one of the listed neighbours. */
  lemma FirstHopIsNeighbor(g: Graph, local: IP, neighbors: seq<IP>, twoHops: map<IP, seq<IP>>,
                           topology: seq<TopologyTuple>, dest: IP, nh: IP)
    requires IsAdjacency(g, local, neighbors, twoHops, topology) && FirstHop(g, local, dest, nh)
    requires local !in twoHops && forall t :: t in topology ==> t.last != local
    ensures nh in neighbors
  {
    assert KnownLink(local, neighbors, twoHops, topology, local, nh);
  }

  lemma NoWorse(g: Graph, s: IP, hna: seq<HNAEntry>, iface: IP -> int,
                a: map<Prefix, Route>, b: map<Prefix, Route>, p: Prefix)
    requires IsRouteTable(g, s, hna, iface, a) && IsRouteTable(g, s, hna, iface, b) && p in b
    ensures p in a && a[p].metric <= b[p].metric
  {
    assert BestRoute(g, s, hna, iface, p, b[p]);
    var n, d: nat, extra: nat :| Offers(g, s, hna, p, n, d, extra) && FirstHop(g, s, n, b[p].nextHop) && b[p].metric == d + extra;
    assert p in a && BestRoute(g, s, hna, iface, p, a[p]);
  }

  /** Two tables for the same inputs agree on which prefixes have a route and at what
      metric, whatever the order in which maps and entries were visited. */
  lemma TablesAgree(g: Graph, s: IP, hna: seq<HNAEntry>, iface: IP -> int,
                    a: map<Prefix, Route>, b: map<Prefix, Route>, p: Prefix)
    requires IsRouteTable(g, s, hna, iface, a) && IsRouteTable(g, s, hna, iface, b)
    ensures p in a <==> p in b
    ensures p in a ==> a[p].metric == b[p].metric
  {
    if p in a {
      NoWorse(g, s, hna, iface, b, a, p);
    }
    if p in b {
      NoWorse(g, s, hna, iface, a, b, p);
    }
  }

  // ---- The same, link by link and entry by entry ----

  /** Each neighbour is linked to this router both ways, each node of a neighbour's list
      from that neighbour, each advertised destination from its last hop; all at cost one,
      and there are no other links. */
  lemma LinksExactly(g: Graph, local: IP, neighbors: seq<IP>, twoHops: map<IP, seq<IP>>, topology: seq<TopologyTuple>)
    requires IsAdjacency(g, local, neighbors, twoHops, topology)
    ensures forall i :: 0 <= i < |neighbors| ==> Edge(g, local, neighbors[i]) && Edge(g, neighbors[i], local)
    ensures forall h, i :: h in twoHops && 0 <= i < |twoHops[h]| ==> Edge(g, h, twoHops[h][i])
    ensures forall i :: 0 <= i < |topology| ==> Edge(g, topology[i].last, topology[i].dest)
    ensures forall u, v :: u in g && v in g[u] ==>
              && g[u][v] == 1
              && ((u == local && v in neighbors) || (v == local && u in neighbors) || (u in twoHops && v in twoHops[u])
                  || exists t :: t in topology && t.last == u && t.dest == v)
  {
    forall i | 0 <= i < |topology|
      ensures Edge(g, topology[i].last, topology[i].dest)
    {
      assert topology[i] in topology;
    }
    forall u, v | u in g && v in g[u]
      ensures g[u][v] == 1 && KnownLink(local, neighbors, twoHops, topology, u, v)
    {
      assert Edge(g, u, v) && Cost(g, u, v) == 1;
    }
  }

  /** A remote entry offers its network at one more than its gateway's distance; a local
      entry offers nothing. */
  lemma EntriesOffer(g: Graph, s: IP, hna: seq<HNAEntry>, p: Prefix, n: IP, d: nat)
    requires IsDistance(g, s, n, d) && n != s
    ensures Offers(g, s, hna, p, n, d, 1) <==> exists i :: 0 <= i < |hna| && hna[i].gateway == n && hna[i].network == p && !hna[i].isLocal
    ensures Offers(g, s, hna, p, n, d, 0) <==> p == Cidr(n, 32)
    ensures forall extra :: extra > 1 ==> !Offers(g, s, hna, p, n, d, extra)
  {
    if i :| 0 <= i < |hna| && hna[i].gateway == n && hna[i].network == p && !hna[i].isLocal {
      assert hna[i] in hna;
    }
  }
}
