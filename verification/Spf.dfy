/** The SPF engine: adjacency, Dijkstra, next hops, gateway prefixes, publication. */
module Spf {
  import opened Common
  import opened Graphs
  import opened PriorityQueues
  import opened ShortestPaths
  import opened Prefixes
  import opened RouteTables
  import opened TableSync

  /** The publication test: a change of metric alone goes unreported. */
  predicate SameHop(a: Route, b: Route) {
    a.nextHop == b.nextHop && a.ifaceIndex == b.ifaceIndex
  }

  /** What is offered by the hosts in `hosts` and the entries of `hna`, in terms of
      the distances found by the search; the metric is dist[n] + extra. */
  ghost predicate Candidate(dist: map<IP, nat>, s: IP, hosts: set<IP>, hna: seq<HNAEntry>, p: Prefix, n: IP, extra: nat) {
    n != s && n in dist && Serves(hna, p, n, extra) && (extra == 0 ==> n in hosts)
  }

  ghost predicate Chosen(g: Graph, dist: map<IP, nat>, s: IP, hosts: set<IP>, hna: seq<HNAEntry>, iface: IP -> int,
                         p: Prefix, r: Route)
  {
    && r.prefix == p && r.ifaceIndex == iface(r.nextHop)
    && (exists n, extra: nat :: Candidate(dist, s, hosts, hna, p, n, extra) && FirstHop(g, s, n, r.nextHop)
                                && r.metric == dist[n] + extra)
    && (forall n, extra: nat :: Candidate(dist, s, hosts, hna, p, n, extra) ==> r.metric <= dist[n] + extra)
  }

  /** The table under construction is right for the hosts and entries seen so far. */
  ghost predicate TableSoFar(g: Graph, dist: map<IP, nat>, s: IP, hosts: set<IP>, hna: seq<HNAEntry>,
                             iface: IP -> int, table: map<Prefix, Route>)
  {
    && (forall p :: p in table ==> Chosen(g, dist, s, hosts, hna, iface, p, table[p]))
    && (forall p, n, extra: nat :: Candidate(dist, s, hosts, hna, p, n, extra) ==> p in table)
  }

  lemma AddHost(g: Graph, dist: map<IP, nat>, s: IP, hosts: set<IP>, iface: IP -> int,
                table: map<Prefix, Route>, n: IP, r: Route)
    requires TableSoFar(g, dist, s, hosts, [], iface, table)
    requires n in dist && n != s && n !in hosts
    requires r == Route(HostPrefix(n), r.nextHop, dist[n], iface(r.nextHop)) && FirstHop(g, s, n, r.nextHop)
    ensures TableSoFar(g, dist, s, hosts + {n}, [], iface, table[HostPrefix(n) := r])
  {
    var hosts', table' := hosts + {n}, table[HostPrefix(n) := r];
    forall p, x, extra: nat
      ensures Candidate(dist, s, hosts', [], p, x, extra) <==>
                Candidate(dist, s, hosts, [], p, x, extra) || (extra == 0 && x == n && p == HostPrefix(n))
    {}
    assert Candidate(dist, s, hosts', [], HostPrefix(n), n, 0);
    forall p | p in table'
      ensures Chosen(g, dist, s, hosts', [], iface, p, table'[p])
    {
      if p != HostPrefix(n) {
        assert Chosen(g, dist, s, hosts, [], iface, p, table[p]);
      }
    }
  }

  /** Seeing one more entry changes what is offered only for that entry's network. */
  lemma CandidatesAfter(dist: map<IP, nat>, s: IP, hosts: set<IP>, hna: seq<HNAEntry>, e: HNAEntry, p: Prefix, n: IP, extra: nat)
    ensures Candidate(dist, s, hosts, hna + [e], p, n, extra) <==>
              || Candidate(dist, s, hosts, hna, p, n, extra)
              || (!e.isLocal && e.network == p && e.gateway == n && n != s && n in dist && extra == 1)
  {
    assert Announces(hna + [e], n, p) <==> Announces(hna, n, p) || (!e.isLocal && e.gateway == n && e.network == p) by {
      assert forall x :: x in hna + [e] <==> x in hna || x == e;
    }
  }

  /** An entry that is local, or whose gateway is out of reach or is the router
      itself, offers nothing. */
  lemma SkipEntry(g: Graph, dist: map<IP, nat>, s: IP, hosts: set<IP>, hna: seq<HNAEntry>, iface: IP -> int,
                  table: map<Prefix, Route>, e: HNAEntry)
    requires TableSoFar(g, dist, s, hosts, hna, iface, table)
    requires e.isLocal || e.gateway !in dist || e.gateway == s
    ensures TableSoFar(g, dist, s, hosts, hna + [e], iface, table)
  {
    forall p, n, extra: nat
      ensures Candidate(dist, s, hosts, hna + [e], p, n, extra) <==> Candidate(dist, s, hosts, hna, p, n, extra)
    {
      CandidatesAfter(dist, s, hosts, hna, e, p, n, extra);
    }
    forall p | p in table
      ensures Chosen(g, dist, s, hosts, hna + [e], iface, p, table[p])
    {
      assert Chosen(g, dist, s, hosts, hna, iface, p, table[p]);
    }
  }

  /** A gateway closer than the metric recorded for its network improves on it, and
      any other gateway does not: comparing a distance with a metric that is already
      one more than a distance still finds the minimum. */
  lemma SeeEntry(g: Graph, dist: map<IP, nat>, s: IP, hosts: set<IP>, hna: seq<HNAEntry>, iface: IP -> int,
                 table: map<Prefix, Route>, e: HNAEntry, r: Route)
    requires TableSoFar(g, dist, s, hosts, hna, iface, table)
    requires !e.isLocal && e.gateway in dist && e.gateway != s
    requires r == Route(e.network, r.nextHop, dist[e.gateway] + 1, iface(r.nextHop))
    requires FirstHop(g, s, e.gateway, r.nextHop)
    ensures var better := e.network !in table || dist[e.gateway] < table[e.network].metric;
            TableSoFar(g, dist, s, hosts, hna + [e], iface, if better then table[e.network := r] else table)
  {
    var better := e.network !in table || dist[e.gateway] < table[e.network].metric;
    var hna', table' := hna + [e], if better then table[e.network := r] else table;
    forall p, n, extra: nat
      ensures Candidate(dist, s, hosts, hna', p, n, extra) <==>
                || Candidate(dist, s, hosts, hna, p, n, extra)
                || (p == e.network && n == e.gateway && extra == 1)
    {
      CandidatesAfter(dist, s, hosts, hna, e, p, n, extra);
    }
    assert Candidate(dist, s, hosts, hna', e.network, e.gateway, 1);
    forall p | p in table'
      ensures Chosen(g, dist, s, hosts, hna', iface, p, table'[p])
    {
      if p in table {
        assert Chosen(g, dist, s, hosts, hna, iface, p, table[p]);
      }
    }
  }

  /** The finished table, read back on the graph. */
  lemma TableDone(g: Graph, s: IP, dist: map<IP, nat>, hna: seq<HNAEntry>, iface: IP -> int, table: map<Prefix, Route>)
    requires ExactDistances(g, s, dist)
    requires TableSoFar(g, dist, s, dist.Keys, hna, iface, table)
    ensures IsRouteTable(g, s, hna, iface, table)
  {
    forall p, n, d: nat, extra: nat
      ensures Offers(g, s, hna, p, n, d, extra) <==> Candidate(dist, s, dist.Keys, hna, p, n, extra) && d == dist[n]
    {
      DistanceInMap(g, s, dist, n, d);
    }
    forall p | p in table
      ensures BestRoute(g, s, hna, iface, p, table[p])
    {
      assert Chosen(g, dist, s, dist.Keys, hna, iface, p, table[p]);
      var n, extra: nat :| Candidate(dist, s, dist.Keys, hna, p, n, extra) && FirstHop(g, s, n, table[p].nextHop)
                           && table[p].metric == dist[n] + extra;
      assert Offers(g, s, hna, p, n, dist[n], extra);
    }
  }

  lemma DistanceInMap(g: Graph, s: IP, dist: map<IP, nat>, n: IP, d: nat)
    requires ExactDistances(g, s, dist)
    ensures IsDistance(g, s, n, d) <==> n in dist && dist[n] == d
  {
    if IsDistance(g, s, n, d) {
      var w :| Connects(g, w, s, n) && Length(g, w) == d;
      DistanceUnique(g, s, n, d, dist[n]);
    }
  }

  /** The router itself gets no host route. */
  lemma SkipRouter(g: Graph, dist: map<IP, nat>, s: IP, hosts: set<IP>, iface: IP -> int, table: map<Prefix, Route>)
    requires TableSoFar(g, dist, s, hosts, [], iface, table)
    ensures TableSoFar(g, dist, s, hosts + {s}, [], iface, table)
  {
    assert forall p, n, extra: nat :: Candidate(dist, s, hosts + {s}, [], p, n, extra) <==> Candidate(dist, s, hosts, [], p, n, extra);
    forall p | p in table
      ensures Chosen(g, dist, s, hosts + {s}, [], iface, p, table[p])
    {
      assert Chosen(g, dist, s, hosts, [], iface, p, table[p]);
    }
  }

  function AddLink(g: Graph, u: IP, v: IP, cost: nat): (r: Graph)
    ensures forall a, b :: Edge(r, a, b) <==> Edge(g, a, b) || (a == u && b == v)
    ensures forall a, b :: Edge(r, a, b) ==> Cost(r, a, b) == if a == u && b == v then cost else Cost(g, a, b)
  {
    g[u := (if u in g then g[u] else map[])[v := cost]]
  }

  ghost predicate HasLinks(g: Graph, links: set<(IP, IP)>) {
    UnitCosts(g) && forall u, v :: Edge(g, u, v) <==> (u, v) in links
  }

  lemma LinkAdded(g: Graph, links: set<(IP, IP)>, u: IP, v: IP)
    requires HasLinks(g, links)
    ensures HasLinks(AddLink(g, u, v, 1), links + {(u, v)})
  {}

  ghost function NeighborLinks(local: IP, neighbors: seq<IP>): set<(IP, IP)> {
    (set n | n in neighbors :: (local, n)) + (set n | n in neighbors :: (n, local))
  }

  lemma NeighborLinksStep(local: IP, neighbors: seq<IP>, i: nat)
    requires i < |neighbors|
    ensures NeighborLinks(local, neighbors[..i + 1]) ==
            NeighborLinks(local, neighbors[..i]) + {(local, neighbors[i])} + {(neighbors[i], local)}
  {
    assert neighbors[..i + 1] == neighbors[..i] + [neighbors[i]];
  }

  ghost function LinksFrom(u: IP, targets: seq<IP>): set<(IP, IP)> {
    set v | v in targets :: (u, v)
  }

  lemma LinksFromStep(u: IP, targets: seq<IP>, i: nat)
    requires i < |targets|
    ensures LinksFrom(u, targets[..i + 1]) == LinksFrom(u, targets[..i]) + {(u, targets[i])}
  {
    assert targets[..i + 1] == targets[..i] + [targets[i]];
  }

  ghost function TwoHopLinks(twoHops: map<IP, seq<IP>>, done: set<IP>): set<(IP, IP)> {
    set u, v | u in done && u in twoHops && v in twoHops[u] :: (u, v)
  }

  lemma TwoHopLinksStep(twoHops: map<IP, seq<IP>>, done: set<IP>, u: IP)
    requires u in twoHops
    ensures TwoHopLinks(twoHops, done + {u}) == TwoHopLinks(twoHops, done) + LinksFrom(u, twoHops[u])
  {}

  ghost function TopologyLinks(topology: seq<TopologyTuple>): set<(IP, IP)> {
    set t | t in topology :: (t.last, t.dest)
  }

  lemma TopologyLinksStep(topology: seq<TopologyTuple>, i: nat)
    requires i < |topology|
    ensures TopologyLinks(topology[..i + 1]) == TopologyLinks(topology[..i]) + {(topology[i].last, topology[i].dest)}
  {
    assert topology[..i + 1] == topology[..i] + [topology[i]];
  }

  lemma AllLinks(adj: Graph, local: IP, neighbors: seq<IP>, twoHops: map<IP, seq<IP>>, topology: seq<TopologyTuple>)
    requires HasLinks(adj, NeighborLinks(local, neighbors) + TwoHopLinks(twoHops, twoHops.Keys) + TopologyLinks(topology))
    ensures IsAdjacency(adj, local, neighbors, twoHops, topology)
  {
    forall u, v
      ensures Edge(adj, u, v) <==> KnownLink(local, neighbors, twoHops, topology, u, v)
    {
      assert (u, v) in TopologyLinks(topology) <==> exists t :: t in topology && t.last == u && t.dest == v;
    }
  }

  class SPFEngine {
    const routerID: Option<IP>
    const ifaceIndex: IP -> int
    var activeRoutes: map<Prefix, Route>
    var events: seq<Event<Prefix, Route>>

    constructor (routerID: Option<IP>, ifaceIndex: IP -> int)
      ensures this.routerID == routerID && this.ifaceIndex == ifaceIndex
      ensures activeRoutes == map[] && events == []
    {
      this.routerID, this.ifaceIndex := routerID, ifaceIndex;
      activeRoutes, events := map[], [];
    }

    /** One run: fails only without a router ID; otherwise installs the route table of
        the known links and announced networks and publishes how it differs. */
    method CalculateRoutes(neighbors: seq<IP>, twoHops: map<IP, seq<IP>>, topology: seq<TopologyTuple>,
                           hna: seq<HNAEntry>)
      returns (ok: bool, ghost g: Graph, ghost published: seq<Event<Prefix, Route>>)
      modifies this
      ensures ok <==> routerID.Some?
      ensures !ok ==> activeRoutes == old(activeRoutes) && events == old(events)
      ensures ok ==> IsAdjacency(g, routerID.value, neighbors, twoHops, topology)
      ensures ok ==> IsRouteTable(g, routerID.value, hna, ifaceIndex, activeRoutes)
      ensures ok ==> events == old(events) + published
      ensures ok ==> IsDiff(old(activeRoutes), activeRoutes, SameHop, published)
    {
      if routerID.None? {
        return false, map[], [];
      }
      var local := routerID.value;
      var adj := BuildAdjacencyList(local, neighbors, twoHops, topology);
      g := adj;
      var dist, prev := RunDijkstra(local, adj);

      var hostRoutes := HostRoutes(local, adj, dist, prev);
      var newRoutes := GatewayRoutes(local, adj, dist, prev, hostRoutes, hna);
      TableDone(adj, local, dist, hna, ifaceIndex, newRoutes);

      published := DiffAndPublishRoutes(newRoutes);
      activeRoutes := newRoutes;
      ok := true;
    }

    /** Host routes for all reached nodes but the router itself. */
    method HostRoutes(local: IP, ghost adj: Graph, dist: map<IP, nat>, prev: map<IP, IP>)
      returns (newRoutes: map<Prefix, Route>)
      requires ExactDistances(adj, local, dist) && TightLinks(adj, local, dist, prev) && PositiveCosts(adj)
      ensures TableSoFar(adj, dist, local, dist.Keys, [], ifaceIndex, newRoutes)
    {
      newRoutes := map[];
      var todo := dist.Keys;
      assert dist.Keys - todo == {};
      while todo != {}
        invariant todo <= dist.Keys
        invariant TableSoFar(adj, dist, local, dist.Keys - todo, [], ifaceIndex, newRoutes)
        decreases todo
      {
        var node :| node in todo;
        ghost var seen := dist.Keys - todo;
        NextKey(dist.Keys, todo, node);
        todo := todo - {node};
        if node != local {
          var nextHop, iface, found := ResolveNextHop(adj, dist, node, prev, local);
          if found {
            var r := Route(HostPrefix(node), nextHop, dist[node], iface);
            AddHost(adj, dist, local, seen, ifaceIndex, newRoutes, node, r);
            newRoutes := newRoutes[HostPrefix(node) := r];
          }
        } else {
          SkipRouter(adj, dist, local, seen, ifaceIndex, newRoutes);
        }
      }
      NoKeysLeft(dist.Keys, todo);
    }

    /** Merges the networks announced by reachable gateways into the host routes. */
    method GatewayRoutes(local: IP, ghost adj: Graph, dist: map<IP, nat>, prev: map<IP, IP>,
                         hostRoutes: map<Prefix, Route>, hna: seq<HNAEntry>)
      returns (newRoutes: map<Prefix, Route>)
      requires ExactDistances(adj, local, dist) && TightLinks(adj, local, dist, prev) && PositiveCosts(adj)
      requires TableSoFar(adj, dist, local, dist.Keys, [], ifaceIndex, hostRoutes)
      ensures TableSoFar(adj, dist, local, dist.Keys, hna, ifaceIndex, newRoutes)
    {
      newRoutes := hostRoutes;
      for i := 0 to |hna|
        invariant TableSoFar(adj, dist, local, dist.Keys, hna[..i], ifaceIndex, newRoutes)
      {
        var e := hna[i];
        assert hna[..i + 1] == hna[..i] + [e];
        if e.isLocal || e.gateway !in dist {
          SkipEntry(adj, dist, local, dist.Keys, hna[..i], ifaceIndex, newRoutes, e);
          continue;
        }
        var nextHop, iface, found := ResolveNextHop(adj, dist, e.gateway, prev, local);
        if found {
          var r := Route(e.network, nextHop, dist[e.gateway] + 1, iface);
          SeeEntry(adj, dist, local, dist.Keys, hna[..i], ifaceIndex, newRoutes, e, r);
          if e.network !in newRoutes || dist[e.gateway] < newRoutes[e.network].metric {
            newRoutes := newRoutes[e.network := r];
          }
        } else {
          SkipEntry(adj, dist, local, dist.Keys, hna[..i], ifaceIndex, newRoutes, e);
        }
      }
      assert hna[..|hna|] == hna;
    }

    method BuildAdjacencyList(local: IP, neighbors: seq<IP>, twoHops: map<IP, seq<IP>>, topology: seq<TopologyTuple>)
      returns (adj: Graph)
      ensures IsAdjacency(adj, local, neighbors, twoHops, topology)
    {
      adj := map[];
      ghost var links := NeighborLinks(local, []);
      for i := 0 to |neighbors|
        invariant links == NeighborLinks(local, neighbors[..i]) && HasLinks(adj, links)
      {
        NeighborLinksStep(local, neighbors, i);
        LinkAdded(adj, links, local, neighbors[i]);
        adj := AddLink(adj, local, neighbors[i], 1);
        LinkAdded(adj, links + {(local, neighbors[i])}, neighbors[i], local);
        adj := AddLink(adj, neighbors[i], local, 1);
        links := links + {(local, neighbors[i])} + {(neighbors[i], local)};
      }
      assert neighbors[..|neighbors|] == neighbors;
      adj := AddTwoHops(adj, links, twoHops);
      links := links + TwoHopLinks(twoHops, twoHops.Keys);

      ghost var base := links;
      assert links == base + TopologyLinks([]);
      for i := 0 to |topology|
        invariant links == base + TopologyLinks(topology[..i]) && HasLinks(adj, links)
      {
        TopologyLinksStep(topology, i);
        LinkAdded(adj, links, topology[i].last, topology[i].dest);
        adj := AddLink(adj, topology[i].last, topology[i].dest, 1);
        links := links + {(topology[i].last, topology[i].dest)};
      }
      assert topology[..|topology|] == topology;
      AllLinks(adj, local, neighbors, twoHops, topology);
    }

    method AddTwoHops(adj0: Graph, ghost base: set<(IP, IP)>, twoHops: map<IP, seq<IP>>) returns (adj: Graph)
      requires HasLinks(adj0, base)
      ensures HasLinks(adj, base + TwoHopLinks(twoHops, twoHops.Keys))
    {
      adj := adj0;
      var todo := twoHops.Keys;
      ghost var links := base;
      while todo != {}
        invariant todo <= twoHops.Keys
        invariant links == base + TwoHopLinks(twoHops, twoHops.Keys - todo) && HasLinks(adj, links)
        decreases todo
      {
        var oneHop :| oneHop in todo;
        var hops := twoHops[oneHop];
        NextKey(twoHops.Keys, todo, oneHop);
        TwoHopLinksStep(twoHops, twoHops.Keys - todo, oneHop);
        ghost var before := links;
        for j := 0 to |hops|
          invariant links == before + LinksFrom(oneHop, hops[..j]) && HasLinks(adj, links)
        {
          LinksFromStep(oneHop, hops, j);
          LinkAdded(adj, links, oneHop, hops[j]);
          adj := AddLink(adj, oneHop, hops[j], 1);
          links := links + {(oneHop, hops[j])};
        }
        assert hops[..|hops|] == hops;
        todo := todo - {oneHop};
      }
      NoKeysLeft(twoHops.Keys, todo);
    }

    /** Dijkstra's search: exactly the reachable nodes with their least costs, and a
        tree of tight links. */
    method RunDijkstra(local: IP, adj: Graph) returns (dist: map<IP, nat>, prev: map<IP, IP>)
      ensures ExactDistances(adj, local, dist) && TightLinks(adj, local, dist, prev)
    {
      dist, prev := map[local := 0], map[];
      var visited: set<IP> := {};
      var pq := new PriorityQueue();
      pq.Push(Item(local, 0));
      SearchStarts(adj, local);
      assert multiset(pq.items) == multiset{Item(local, 0)};
      while |pq.items| > 0
        invariant fresh(pq) && pq.Valid()
        invariant Searching(adj, local, dist, prev, visited, multiset(pq.items), local, {})
        decreases Nodes(adj, local) - visited, |pq.items|
      {
        ghost var queue := multiset(pq.items);
        var x := pq.Pop();
        assert queue - multiset{x} == multiset(pq.items);
        var u := x.node;
        if u in visited {
          SkipStale(adj, local, dist, prev, visited, queue, x);
          continue;
        }
        Settle(adj, local, dist, prev, visited, queue, x);
        visited := visited + {u};

        dist, prev := RelaxLinks(local, adj, u, dist, prev, visited, pq);
      }
      SearchDone(adj, local, dist, prev, visited);
    }

    /** Relaxes the links out of a node that was just settled. */
    method RelaxLinks(ghost local: IP, adj: Graph, u: IP, dist0: map<IP, nat>, prev0: map<IP, IP>,
                      ghost visited: set<IP>, pq: PriorityQueue)
      returns (dist: map<IP, nat>, prev: map<IP, IP>)
      requires pq.Valid() && SettledLast(dist0, visited, u)
      requires Searching(adj, local, dist0, prev0, visited, multiset(pq.items), u, Targets(adj, u))
      modifies pq
      ensures pq.Valid()
      ensures Searching(adj, local, dist, prev, visited, multiset(pq.items), local, {})
    {
      dist, prev := dist0, prev0;
      var todo := Targets(adj, u);
      while todo != {}
        invariant pq.Valid() && todo <= Targets(adj, u)
        invariant SettledLast(dist, visited, u)
        invariant Searching(adj, local, dist, prev, visited, multiset(pq.items), u, todo)
        decreases todo
      {
        var v :| v in todo;
        var alt := dist[u] + adj[u][v];
        if v !in dist || alt < dist[v] {
          ImproveLink(adj, local, dist, prev, visited, multiset(pq.items), u, todo, v, alt);
          dist, prev := dist[v := alt], prev[v := u];
          pq.Push(Item(v, alt));
        } else {
          KeepLink(adj, local, dist, prev, visited, multiset(pq.items), u, todo, v);
        }
        todo := todo - {v};
      }
      LinksDone(adj, local, dist, prev, visited, multiset(pq.items), u);
    }

    /** Walks `prev` back from a destination to the child of the root. */
    method ResolveNextHop(ghost g: Graph, ghost dist: map<IP, nat>, dest: IP, prev: map<IP, IP>, local: IP)
      returns (nextHop: IP, iface: int, found: bool)
      requires ExactDistances(g, local, dist) && TightLinks(g, local, dist, prev) && PositiveCosts(g)
      ensures found <==> dest in dist && dest != local
      ensures found ==> FirstHop(g, local, dest, nextHop) && iface == ifaceIndex(nextHop)
    {
      var curr := dest;
      ReachesItself(g, dest);
      while true
        invariant dest in prev ==> curr in prev && dist[curr] <= dist[dest] && Reaches(g, curr, dest, dist[dest] - dist[curr])
        invariant dest !in prev ==> curr == dest
        decreases if curr in dist then dist[curr] else 0
      {
        if curr !in prev {
          return dest, 0, false;
        }
        var parent := prev[curr];
        assert Edge(g, parent, curr) && dist[curr] == dist[parent] + Cost(g, parent, curr);
        if parent == local {
          assert IsDistance(g, local, dest, dist[dest]);
          CheapestThrough(g, local, curr, dest, dist[dest] - dist[curr]);
          return curr, ifaceIndex(curr), true;
        }
        PrependDistance(g, parent, curr, dest, dist[dest] - dist[curr]);
        curr := parent;
      }
    }

    method DiffAndPublishRoutes(newRoutes: map<Prefix, Route>) returns (ghost published: seq<Event<Prefix, Route>>)
      modifies this`events
      ensures events == old(events) + published
      ensures IsDiff(activeRoutes, newRoutes, SameHop, published)
    {
      published := PublishGoneOrChanged(newRoutes);
      published := PublishNew(newRoutes, old(events), published);
    }

    method PublishGoneOrChanged(newRoutes: map<Prefix, Route>) returns (ghost published: seq<Event<Prefix, Route>>)
      modifies this`events
      ensures events == old(events) + published
      ensures DiffOn(activeRoutes, newRoutes, SameHop, published, activeRoutes.Keys)
    {
      published := [];
      var before := activeRoutes;
      var todo := before.Keys;
      assert before.Keys - todo == {};
      while todo != {}
        invariant todo <= before.Keys && events == old(events) + published
        invariant DiffOn(before, newRoutes, SameHop, published, before.Keys - todo)
        decreases todo
      {
        var p :| p in todo;
        ghost var seen := before.Keys - todo;
        NextKey(before.Keys, todo, p);
        todo := todo - {p};
        if p !in newRoutes {
          var e := Delete(p, before[p]);
          VisitChanged(before, newRoutes, SameHop, published, seen, e);
          events, published := events + [e], published + [e];
        } else if before[p].nextHop != newRoutes[p].nextHop || before[p].ifaceIndex != newRoutes[p].ifaceIndex {
          var e := Add(p, newRoutes[p]);
          VisitChanged(before, newRoutes, SameHop, published, seen, e);
          events, published := events + [e], published + [e];
        } else {
          VisitUnchanged(before, newRoutes, SameHop, published, seen, p);
        }
      }
      NoKeysLeft(before.Keys, todo);
    }

    method PublishNew(newRoutes: map<Prefix, Route>, ghost base: seq<Event<Prefix, Route>>,
                      ghost sofar: seq<Event<Prefix, Route>>)
      returns (ghost published: seq<Event<Prefix, Route>>)
      requires events == base + sofar
      requires DiffOn(activeRoutes, newRoutes, SameHop, sofar, activeRoutes.Keys)
      modifies this`events
      ensures events == base + published
      ensures IsDiff(activeRoutes, newRoutes, SameHop, published)
    {
      published := sofar;
      var before := activeRoutes;
      var todo := newRoutes.Keys;
      assert before.Keys + (newRoutes.Keys - todo) == before.Keys;
      while todo != {}
        invariant todo <= newRoutes.Keys && events == base + published
        invariant DiffOn(before, newRoutes, SameHop, published, before.Keys + (newRoutes.Keys - todo))
        decreases todo
      {
        var p :| p in todo;
        ghost var seen := before.Keys + (newRoutes.Keys - todo);
        NextKey(newRoutes.Keys, todo, p);
        NextKeyOver(before.Keys, newRoutes.Keys, todo, p);
        todo := todo - {p};
        if p !in before {
          var e := Add(p, newRoutes[p]);
          VisitChanged(before, newRoutes, SameHop, published, seen, e);
          events, published := events + [e], published + [e];
        }
      }
      NoKeysLeft(newRoutes.Keys, todo);
    }

    /** The next hop for an address: the host route if there is one, otherwise a
        longest matching prefix. */
    method GetNextHopForDest(dest: IP) returns (r: Option<(IP, int)>)
      ensures HostPrefix(dest) in activeRoutes ==>
                r == Some((activeRoutes[HostPrefix(dest)].nextHop, activeRoutes[HostPrefix(dest)].ifaceIndex))
      ensures HostPrefix(dest) !in activeRoutes ==> LongestMatch(activeRoutes, dest, r)
    {
      if HostPrefix(dest) in activeRoutes {
        var h := activeRoutes[HostPrefix(dest)];
        return Some((h.nextHop, h.ifaceIndex));
      }
      r := None;
      var bestLen: int := -1;
      ghost var best := HostPrefix(dest);
      var todo := activeRoutes.Keys;
      while todo != {}
        invariant todo <= activeRoutes.Keys && bestLen >= -1
        invariant bestLen == -1 ==> r == None
        invariant bestLen >= 0 ==> best in activeRoutes && Matches(best, dest) && best.len == bestLen
                                   && r == Some((activeRoutes[best].nextHop, activeRoutes[best].ifaceIndex))
        invariant forall p :: p in activeRoutes && p !in todo && Matches(p, dest) ==> p.len <= bestLen
        decreases todo
      {
        var p :| p in todo;
        todo := todo - {p};
        if Parses(p) && Contains(p, dest) && p.len > bestLen {
          bestLen, best := p.len, p;
          r := Some((activeRoutes[p].nextHop, activeRoutes[p].ifaceIndex));
        }
      }
      if bestLen >= 0 {
        assert Longest(activeRoutes, dest, best);
      }
    }
  }

  /** p matches and no matching prefix of the table is longer. */
  ghost predicate Longest(table: map<Prefix, Route>, dest: IP, p: Prefix) {
    && p in table && Matches(p, dest)
    && forall q :: q in table && Matches(q, dest) ==> q.len <= p.len
  }

  /** What a full scan of the table may answer. */
  ghost predicate LongestMatch(table: map<Prefix, Route>, dest: IP, r: Option<(IP, int)>) {
    match r
    case None => forall p :: p in table ==> !Matches(p, dest)
    case Some(hop) => exists p :: Longest(table, dest, p) && hop == (table[p].nextHop, table[p].ifaceIndex)
  }

  /** With masked prefixes a scan has one answer, whatever the order it visits them in. */
  lemma LongestMatchUnique(table: map<Prefix, Route>, dest: IP, r1: Option<(IP, int)>, r2: Option<(IP, int)>)
    requires forall p :: p in table ==> Masked(p)
    requires LongestMatch(table, dest, r1) && LongestMatch(table, dest, r2)
    ensures r1 == r2
  {
    if r1.Some? && r2.Some? {
      var p :| Longest(table, dest, p) && r1.value == (table[p].nextHop, table[p].ifaceIndex);
      var q :| Longest(table, dest, q) && r2.value == (table[q].nextHop, table[q].ifaceIndex);
      MaskedUnique(p, q, dest);
    }
  }

  /** For an IPv4 address the host-route shortcut is the only answer of a full scan. */
  lemma ShortcutIsLongestMatch(table: map<Prefix, Route>, dest: IP, r: Option<(IP, int)>)
    requires dest.V4? && HostPrefix(dest) in table
    ensures LongestMatch(table, dest, r) <==>
              r == Some((table[HostPrefix(dest)].nextHop, table[HostPrefix(dest)].ifaceIndex))
  {
    var h := HostPrefix(dest);
    assert Matches(h, dest);
    forall p | p in table && Matches(p, dest)
      ensures p.len <= 32
    {}
    assert Longest(table, dest, h);
    forall p | Longest(table, dest, p)
      ensures p == h
    {
      HostPrefixUnique(p, dest);
    }
  }

  /** With one network in the table, an IPv4 lookup finds its next hop for exactly the
      addresses in its range. */
  lemma OneNetwork(a: uint32, n: nat, r: Route, d: uint32, found: Option<(IP, int)>)
    requires n <= 32 && a % Pow2(32 - n) == 0
    ensures LongestMatch(map[Cidr(V4(a), n) := r], V4(d), found) <==>
              found == if a <= d < a + Pow2(32 - n) then Some((r.nextHop, r.ifaceIndex)) else None
  {
    hide Pow2, Matches;
    var p := Cidr(V4(a), n);
    ContainsV4(a, n, d);
    var table := map[p := r];
    assert Longest(table, V4(d), p) <==> Matches(p, V4(d));
  }

  /** Replaying every published event gives the active table up to metrics. */
  lemma UnicastReplay(tables: seq<map<Prefix, Route>>, runs: seq<seq<Event<Prefix, Route>>>)
    requires History(tables, runs, SameHop)
    ensures var installed, active := Replay(map[], AllEvents(runs)), tables[|runs|];
            installed.Keys == active.Keys &&
            forall p :: p in active ==> installed[p].nextHop == active[p].nextHop && installed[p].ifaceIndex == active[p].ifaceIndex
  {
    ReplayRefinesTable(tables, runs, SameHop);
    var installed, active := Replay(map[], AllEvents(runs)), tables[|runs|];
    forall p | p in active
      ensures installed[p].nextHop == active[p].nextHop && installed[p].ifaceIndex == active[p].ifaceIndex
    {
      assert SameHop(installed[p], active[p]);
    }
  }

  /** Some prefix kept its next hop and interface and changed its metric. */
  ghost predicate MetricChanged(before: map<Prefix, Route>, after: map<Prefix, Route>) {
    exists p :: p in before && p in after && SameHop(before[p], after[p]) && before[p].metric != after[p].metric
  }

  ghost predicate Filed(table: map<Prefix, Route>) {
    forall p :: p in table ==> table[p].prefix == p
  }

  lemma SilentIsMetric(before: map<Prefix, Route>, after: map<Prefix, Route>)
    requires Filed(before) && Filed(after)
    ensures Silent(before, after, SameHop) <==> MetricChanged(before, after)
  {
    forall p | p in before && p in after && SameHop(before[p], after[p])
      ensures before[p] != after[p] <==> before[p].metric != after[p].metric
    {}
  }

  /** Metrics and all, the replayed table equals the active one after every recalculation
      if and only if none changed a metric alone. */
  lemma UnicastReplayExactIff(tables: seq<map<Prefix, Route>>, runs: seq<seq<Event<Prefix, Route>>>)
    requires History(tables, runs, SameHop) && forall i :: 0 <= i < |tables| ==> Filed(tables[i])
    ensures ExactUpTo(tables, runs) <==> forall i :: 0 <= i < |tables| - 1 ==> !MetricChanged(tables[i], tables[i + 1])
  {
    hide Silent, MetricChanged, Filed, IsDiff, History, ExactUpTo;
    ReplayExactIff(tables, runs, SameHop);
    forall i | 0 <= i < |tables| - 1
      ensures Silent(tables[i], tables[i + 1], SameHop) <==> MetricChanged(tables[i], tables[i + 1])
    {
      SilentIsMetric(tables[i], tables[i + 1]);
    }
  }

  // ---- A metric that changes alone ----

  /** The router me, its neighbour a, and x behind a. */
  function Chain(me: IP, a: IP, x: IP): Graph {
    map[me := map[a := 1], a := map[me := 1, x := 1]]
  }

  function ChainDist(me: IP, a: IP, x: IP): map<IP, nat> {
    map[me := 0, a := 1, x := 2]
  }

  lemma ChainAdjacency(me: IP, a: IP, x: IP)
    requires me != a && a != x && me != x
    ensures IsAdjacency(Chain(me, a, x), me, [a], map[a := [x]], [])
  {}

  lemma ChainDistances(me: IP, a: IP, x: IP)
    requires me != a && a != x && me != x
    ensures ExactDistances(Chain(me, a, x), me, ChainDist(me, a, x))
  {
    var g, dist := Chain(me, a, x), ChainDist(me, a, x);
    forall w | InGraph(g, w) && First(w) == me
      ensures Last(w) in dist && dist[Last(w)] <= Length(g, w)
    {
      RelaxedBoundsWalks(g, me, dist, w);
    }
    ReachesItself(g, me);
    ReachesExtend(g, me, me, a, 0);
    ReachesExtend(g, me, a, x, 1);
  }

  lemma ChainHops(me: IP, a: IP, x: IP)
    requires me != a && a != x && me != x
    ensures FirstHop(Chain(me, a, x), me, a, a) && FirstHop(Chain(me, a, x), me, x, a)
  {
    hide FirstHop, Reaches, AtLeast;
    var g := Chain(me, a, x);
    ChainDistances(me, a, x);
    assert IsDistance(g, me, a, ChainDist(me, a, x)[a]) && IsDistance(g, me, x, ChainDist(me, a, x)[x]);
    ReachesItself(g, a);
    CheapestThrough(g, me, a, a, 0);
    ReachesExtend(g, a, a, x, 0);
    CheapestThrough(g, me, a, x, 1);
  }

  function ChainHosts(a: IP, x: IP, iface: IP -> int): map<Prefix, Route> {
    map[HostPrefix(a) := Route(HostPrefix(a), a, 1, iface(a)), HostPrefix(x) := Route(HostPrefix(x), a, 2, iface(a))]
  }

  /** The routes of me when p is announced by a gateway at that distance. */
  function ChainTable(a: IP, x: IP, iface: IP -> int, p: Prefix, distance: nat): map<Prefix, Route> {
    ChainHosts(a, x, iface)[p := Route(p, a, distance + 1, iface(a))]
  }

  lemma ChainHostsDone(me: IP, a: IP, x: IP, iface: IP -> int)
    requires me != a && a != x && me != x
    ensures TableSoFar(Chain(me, a, x), ChainDist(me, a, x), me, ChainDist(me, a, x).Keys, [], iface, ChainHosts(a, x, iface))
  {
    hide TableSoFar, Chain, FirstHop;
    var g, dist := Chain(me, a, x), ChainDist(me, a, x);
    NothingYet(g, dist, me, iface);
    ChainHops(me, a, x);
    var one: map<Prefix, Route> := map[][HostPrefix(a) := Route(HostPrefix(a), a, 1, iface(a))];
    AddHost(g, dist, me, {}, iface, map[], a, one[HostPrefix(a)]);
    assert {} + {a} == {a};
    AddHost(g, dist, me, {a}, iface, one, x, Route(HostPrefix(x), a, 2, iface(a)));
    assert one[HostPrefix(x) := Route(HostPrefix(x), a, 2, iface(a))] == ChainHosts(a, x, iface);
    SkipRouter(g, dist, me, {a} + {x}, iface, ChainHosts(a, x, iface));
    assert {a} + {x} + {me} == dist.Keys;
  }

  lemma NothingYet(g: Graph, dist: map<IP, nat>, s: IP, iface: IP -> int)
    ensures TableSoFar(g, dist, s, {}, [], iface, map[])
  {}

  lemma ChainTableDone(me: IP, a: IP, x: IP, iface: IP -> int, p: Prefix, gw: IP)
    requires me != a && a != x && me != x && (gw == a || gw == x) && p != HostPrefix(a) && p != HostPrefix(x)
    ensures IsRouteTable(Chain(me, a, x), me, [HNAEntry(gw, p, false)], iface,
                         ChainTable(a, x, iface, p, if gw == a then 1 else 2))
  {
    hide TableSoFar, Chain, FirstHop, IsRouteTable, ExactDistances;
    var g, dist := Chain(me, a, x), ChainDist(me, a, x);
    var e := HNAEntry(gw, p, false);
    ChainHostsDone(me, a, x, iface);
    ChainHops(me, a, x);
    ChainDistances(me, a, x);
    SeeEntry(g, dist, me, dist.Keys, [], iface, ChainHosts(a, x, iface), e, Route(p, a, dist[gw] + 1, iface(a)));
    assert [] + [e] == [e];
    TableDone(g, me, dist, [e], iface, ChainTable(a, x, iface, p, dist[gw]));
  }

  lemma TwoRuns(t0: map<Prefix, Route>, t1: map<Prefix, Route>, t2: map<Prefix, Route>,
                a: seq<Event<Prefix, Route>>, b: seq<Event<Prefix, Route>>)
    requires t0 == map[] && IsDiff(t0, t1, SameHop, a) && IsDiff(t1, t2, SameHop, b)
    ensures History([t0, t1, t2], [a, b], SameHop)
  {
    hide IsDiff;
    assert [t0, t1, t2][..2] == [t0, t1] && [t0, t1][..1] == [t0] && [a, b][..1] == [a] && [a][..0] == [];
    assert History([t0], [], SameHop);
    assert History([t0, t1], [a], SameHop);
  }

  /** Every history of two recalculations of which the second changed a metric alone
      leaves the replayed table short of the active one. */
  lemma NeverExact(tables: seq<map<Prefix, Route>>, runs: seq<seq<Event<Prefix, Route>>>)
    requires History(tables, runs, SameHop) && |runs| == 2 && Silent(tables[1], tables[2], SameHop)
    ensures Replay(map[], AllEvents(runs)) != tables[2]
  {
    hide Silent, IsDiff, Replay, AllEvents;
    HistoryOneMore(tables, runs, SameHop, 1);
    HistoryOneMore(tables[..2], runs[..1], SameHop, 0);
    assert tables[..2][..1][0] == map[] && runs[..1][..0] == [];
    NoneReplayed();
    NothingSilent(tables[1]);
    ReplayDiffExactIff(map[], tables[1], SameHop, runs[0]);
    ReplayDiffExactIff(tables[1], tables[2], SameHop, runs[1]);
  }

  lemma NoneReplayed()
    ensures Replay<Prefix, Route>(map[], AllEvents([])) == map[]
  {}

  lemma NothingSilent(t: map<Prefix, Route>)
    ensures !Silent(map[], t, SameHop)
  {}

  /** A network p first announced by a and then by x: both tables are the route tables of
      the same graph, such histories exist, and each of them leaves the old metric of p
      installed. */
  lemma StaleMetric(me: IP, a: IP, x: IP, iface: IP -> int, p: Prefix)
    requires me != a && a != x && me != x && p != HostPrefix(a) && p != HostPrefix(x)
    ensures var g, before, after := Chain(me, a, x), ChainTable(a, x, iface, p, 1), ChainTable(a, x, iface, p, 2);
            && IsAdjacency(g, me, [a], map[a := [x]], [])
            && IsRouteTable(g, me, [HNAEntry(a, p, false)], iface, before)
            && IsRouteTable(g, me, [HNAEntry(x, p, false)], iface, after)
            && (exists runs :: |runs| == 2 && History([map[], before, after], runs, SameHop))
            && (forall runs :: |runs| == 2 && History([map[], before, after], runs, SameHop) ==>
                  Replay(map[], AllEvents(runs)) != after)
  {
    hide IsAdjacency, IsRouteTable, History, Replay, AllEvents;
    var before, after := ChainTable(a, x, iface, p, 1), ChainTable(a, x, iface, p, 2);
    ChainAdjacency(me, a, x);
    ChainTableDone(me, a, x, iface, p, a);
    ChainTableDone(me, a, x, iface, p, x);
    var none: map<Prefix, Route> := map[];
    var events := DiffOver(none, before, SameHop, none.Keys + before.Keys);
    OnlyMetric(a, x, iface, p);
    TwoRuns(map[], before, after, events, []);
    forall runs | |runs| == 2 && History([map[], before, after], runs, SameHop)
      ensures Replay(map[], AllEvents(runs)) != after
    {
      NeverExact([map[], before, after], runs);
    }
  }

  lemma OnlyMetric(a: IP, x: IP, iface: IP -> int, p: Prefix)
    requires a != x && p != HostPrefix(a) && p != HostPrefix(x)
    ensures var before, after := ChainTable(a, x, iface, p, 1), ChainTable(a, x, iface, p, 2);
            IsDiff(before, after, SameHop, []) && Silent(before, after, SameHop)
  {
    var before, after := ChainTable(a, x, iface, p, 1), ChainTable(a, x, iface, p, 2);
    assert before[p] != after[p] && SameHop(before[p], after[p]);
  }
}
