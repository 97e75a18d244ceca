/** What Dijkstra's search keeps true at every step, and why its result is exact. */
module ShortestPaths {
  import opened Common
  import opened Graphs
  import opened PriorityQueues

  function Nodes(g: Graph, s: IP): set<IP> {
    {s} + g.Keys + set u, v | u in g && v in g[u] :: v
  }

  function Targets(g: Graph, u: IP): set<IP> {
    if u in g then g[u].Keys else {}
  }

  /** `dist` holds exactly the nodes that s can reach, each with its least cost. */
  ghost predicate ExactDistances(g: Graph, s: IP, dist: map<IP, nat>) {
    && (forall w :: InGraph(g, w) && First(w) == s ==> Last(w) in dist)
    && (forall v :: v in dist ==> IsDistance(g, s, v, dist[v]))
  }

  /** `prev` holds one tight link into every node of `dist` but the root. */
  ghost predicate TightLinks(g: Graph, s: IP, dist: map<IP, nat>, prev: map<IP, IP>) {
    && s in dist && dist[s] == 0
    && (forall v :: v in prev <==> v in dist && v != s)
    && (forall v {:trigger prev[v]} :: v in prev ==>
          && prev[v] in dist && Edge(g, prev[v], v)
          && dist[v] == dist[prev[v]] + Cost(g, prev[v], v))
  }

  /** Links out of settled nodes are relaxed, but for those from u to `todo`. */
  ghost predicate Relaxed(g: Graph, dist: map<IP, nat>, visited: set<IP>, u: IP, todo: set<IP>) {
    forall a, b :: a in visited && a in dist && Edge(g, a, b) && !(a == u && b in todo) ==>
      b in dist && dist[b] <= dist[a] + Cost(g, a, b)
  }

  /** Settled nodes are no farther than the others. */
  ghost predicate Ordered(dist: map<IP, nat>, visited: set<IP>) {
    forall a, b :: a in visited && a in dist && b in dist && b !in visited ==> dist[a] <= dist[b]
  }

  /** The queue holds the current distance of every unsettled node, and no lower one. */
  ghost predicate Queued(dist: map<IP, nat>, visited: set<IP>, queue: multiset<Item>) {
    && (forall v :: v in dist && v !in visited ==> Item(v, dist[v]) in queue)
    && (forall i :: i in queue ==> i.node in dist && dist[i.node] <= i.priority)
  }

  ghost predicate HasWalk(g: Graph, s: IP, dist: map<IP, nat>, v: IP) {
    v in dist ==> v in Nodes(g, s) && Reaches(g, s, v, dist[v])
  }

  /** Every distance is the cost of some walk. */
  ghost predicate Attained(g: Graph, s: IP, dist: map<IP, nat>) {
    forall v :: HasWalk(g, s, dist, v)
  }

  ghost predicate SettledParents(dist: map<IP, nat>, prev: map<IP, IP>, visited: set<IP>) {
    visited <= dist.Keys && forall v {:trigger prev[v]} :: v in prev ==> prev[v] in visited
  }

  /** The search state while the links from u to the nodes of `todo` are still to be
      relaxed; with an empty `todo` it is the state between two extractions. */
  ghost predicate Searching(g: Graph, s: IP, dist: map<IP, nat>, prev: map<IP, IP>, visited: set<IP>,
                            queue: multiset<Item>, u: IP, todo: set<IP>)
  {
    && TightLinks(g, s, dist, prev)
    && SettledParents(dist, prev, visited)
    && Attained(g, s, dist)
    && Relaxed(g, dist, visited, u, todo)
    && Ordered(dist, visited)
    && Queued(dist, visited, queue)
  }

  lemma SearchStarts(g: Graph, s: IP)
    ensures Searching(g, s, map[s := 0], map[], {}, multiset{Item(s, 0)}, s, {})
  {
    ReachesItself(g, s);
  }

  /** u is as far as any settled node. */
  ghost predicate SettledLast(dist: map<IP, nat>, visited: set<IP>, u: IP) {
    u in visited && forall a :: a in visited ==> a in dist && u in dist && dist[a] <= dist[u]
  }

  /** The cheapest entry of an unvisited node carries that node's current distance,
      so the node can be settled. */
  lemma Settle(g: Graph, s: IP, dist: map<IP, nat>, prev: map<IP, IP>, visited: set<IP>,
               queue: multiset<Item>, x: Item)
    requires Searching(g, s, dist, prev, visited, queue, s, {})
    requires x in queue && x.node !in visited
    requires forall y :: y in queue ==> x.priority <= y.priority
    ensures Searching(g, s, dist, prev, visited + {x.node}, queue - multiset{x}, x.node, Targets(g, x.node))
    ensures x.node in Nodes(g, s) && SettledLast(dist, visited + {x.node}, x.node)
  {
    var u := x.node;
    assert HasWalk(g, s, dist, u);
    assert Item(u, dist[u]) in queue;
    forall b | b in dist && b !in visited + {u}
      ensures dist[u] <= dist[b] && Item(b, dist[b]) in queue - multiset{x}
    {
      assert Item(b, dist[b]) in queue;
    }
  }

  /** A stale entry can be dropped. */
  lemma SkipStale(g: Graph, s: IP, dist: map<IP, nat>, prev: map<IP, IP>, visited: set<IP>,
                  queue: multiset<Item>, x: Item)
    requires Searching(g, s, dist, prev, visited, queue, s, {})
    requires x in queue && x.node in visited
    ensures Searching(g, s, dist, prev, visited, queue - multiset{x}, s, {})
  {
    forall b | b in dist && b !in visited
      ensures Item(b, dist[b]) in queue - multiset{x}
    {
      assert Item(b, dist[b]) != x;
    }
  }

  /** A link that offers no improvement needs no change. */
  lemma KeepLink(g: Graph, s: IP, dist: map<IP, nat>, prev: map<IP, IP>, visited: set<IP>,
                 queue: multiset<Item>, u: IP, todo: set<IP>, v: IP)
    requires Searching(g, s, dist, prev, visited, queue, u, todo)
    requires u in visited && Edge(g, u, v) && v in todo
    requires v in dist && dist[v] <= dist[u] + Cost(g, u, v)
    ensures Searching(g, s, dist, prev, visited, queue, u, todo - {v})
  {}

  /** A link that offers an improvement updates its target, which is never settled. */
  lemma ImproveLink(g: Graph, s: IP, dist: map<IP, nat>, prev: map<IP, IP>, visited: set<IP>,
                    queue: multiset<Item>, u: IP, todo: set<IP>, v: IP, alt: nat)
    requires Searching(g, s, dist, prev, visited, queue, u, todo)
    requires SettledLast(dist, visited, u) && Edge(g, u, v) && v in todo && alt == dist[u] + Cost(g, u, v)
    requires v !in dist || alt < dist[v]
    ensures v !in visited && SettledLast(dist[v := alt], visited, u)
    ensures Searching(g, s, dist[v := alt], prev[v := u], visited, queue + multiset{Item(v, alt)}, u, todo - {v})
  {
    assert v !in visited && v != s;
    TightLinkAdded(g, s, dist, prev, visited, u, v, alt);
    RelaxedImproved(g, dist, visited, u, todo, v, alt);
    QueuedImproved(dist, visited, queue, v, alt);
    ReachesImproved(g, s, dist, u, v, alt);
    OrderedImproved(dist, visited, u, v, alt);
  }

  /** With nothing left to relax, which node was last settled no longer matters. */
  lemma LinksDone(g: Graph, s: IP, dist: map<IP, nat>, prev: map<IP, IP>, visited: set<IP>,
                  queue: multiset<Item>, u: IP)
    requires Searching(g, s, dist, prev, visited, queue, u, {})
    ensures Searching(g, s, dist, prev, visited, queue, s, {})
  {}

  lemma OrderedImproved(dist: map<IP, nat>, visited: set<IP>, u: IP, v: IP, alt: nat)
    requires Ordered(dist, visited) && visited <= dist.Keys && v !in visited
    requires u in dist && dist[u] <= alt && forall a :: a in visited ==> dist[a] <= dist[u]
    ensures Ordered(dist[v := alt], visited)
  {}

  lemma RelaxedImproved(g: Graph, dist: map<IP, nat>, visited: set<IP>, u: IP, todo: set<IP>, v: IP, alt: nat)
    requires Relaxed(g, dist, visited, u, todo) && v !in visited && u in visited && u in dist
    requires Edge(g, u, v) && alt == dist[u] + Cost(g, u, v) && (v in dist ==> alt < dist[v])
    ensures Relaxed(g, dist[v := alt], visited, u, todo - {v})
  {}

  lemma QueuedImproved(dist: map<IP, nat>, visited: set<IP>, queue: multiset<Item>, v: IP, alt: nat)
    requires Queued(dist, visited, queue) && (v in dist ==> alt < dist[v])
    ensures Queued(dist[v := alt], visited, queue + multiset{Item(v, alt)})
  {}

  lemma ReachesImproved(g: Graph, s: IP, dist: map<IP, nat>, u: IP, v: IP, alt: nat)
    requires Attained(g, s, dist) && u in dist && Edge(g, u, v) && alt == dist[u] + Cost(g, u, v)
    ensures Attained(g, s, dist[v := alt])
  {
    var dist' := dist[v := alt];
    forall x
      ensures HasWalk(g, s, dist', x)
    {
      assert HasWalk(g, s, dist, x) && HasWalk(g, s, dist, u);
      if x == v {
        ReachesExtend(g, s, u, v, dist[u]);
      }
    }
  }

  lemma TightLinkAdded(g: Graph, s: IP, dist: map<IP, nat>, prev: map<IP, IP>, visited: set<IP>,
                       u: IP, v: IP, alt: nat)
    requires TightLinks(g, s, dist, prev) && SettledParents(dist, prev, visited)
    requires u in visited && Edge(g, u, v) && v !in visited && v != s && alt == dist[u] + Cost(g, u, v)
    ensures TightLinks(g, s, dist[v := alt], prev[v := u])
    ensures SettledParents(dist[v := alt], prev[v := u], visited)
  {}

  /** Settled nodes bound every walk from below. */
  lemma {:induction false} RelaxedBoundsWalks(g: Graph, s: IP, dist: map<IP, nat>, w: Walk)
    requires s in dist && dist[s] == 0
    requires forall a, b :: a in dist && Edge(g, a, b) ==> b in dist && dist[b] <= dist[a] + Cost(g, a, b)
    requires InGraph(g, w) && First(w) == s
    ensures Last(w) in dist && dist[Last(w)] <= Length(g, w)
  {
    match w
    case At(_) =>
    case Via(p, v) =>
      RelaxedBoundsWalks(g, s, dist, p);
      assert Edge(g, Last(p), v);
  }

  /** With the queue empty, every distance is exact. */
  lemma SearchDone(g: Graph, s: IP, dist: map<IP, nat>, prev: map<IP, IP>, visited: set<IP>)
    requires Searching(g, s, dist, prev, visited, multiset{}, s, {})
    ensures ExactDistances(g, s, dist) && TightLinks(g, s, dist, prev)
  {
    forall v | v in dist
      ensures v in visited
    {
      var i := Item(v, dist[v]);
      assert i in multiset{} || v in visited;
    }
    forall w | InGraph(g, w) && First(w) == s
      ensures Last(w) in dist && dist[Last(w)] <= Length(g, w)
    {
      RelaxedBoundsWalks(g, s, dist, w);
    }
    forall v | v in dist
      ensures IsDistance(g, s, v, dist[v])
    {
      assert HasWalk(g, s, dist, v) && AtLeast(g, s, v, dist[v]);
    }
  }
}
