/** Forwarding by many routers: what their route tables achieve together. */
module Delivery {
  import opened Common
  import opened Graphs
  import opened Prefixes
  import opened RouteTables

  type Tables = map<IP, map<Prefix, Route>>

  ghost predicate TableOk(g: Graph, hna: seq<HNAEntry>, ifaces: IP -> IP -> int, tables: Tables, r: IP) {
    r in tables ==> IsRouteTable(g, r, hna, ifaces(r), tables[r])
  }

  /** Every node of the graph is a router whose table comes from the same graph and
      the same announcements; interface numbers are each router's own. */
  ghost predicate Converged(g: Graph, hna: seq<HNAEntry>, ifaces: IP -> IP -> int, tables: Tables) {
    && UnitCosts(g)
    && (forall r :: TableOk(g, hna, ifaces, tables, r))
    && (forall u, v :: Edge(g, u, v) ==> v in tables)
  }

  /** A packet for p needs no further forwarding at n. */
  ghost predicate Endpoint(hna: seq<HNAEntry>, p: Prefix, n: IP) {
    p == HostPrefix(n) || Announces(hna, n, p)
  }

  ghost predicate HostOnly(hna: seq<HNAEntry>, p: Prefix) {
    forall n :: !Announces(hna, n, p)
  }

  ghost predicate Routes(tables: Tables, p: Prefix, r: IP) {
    r in tables && p in tables[r]
  }

  /** Each router on the path but the last hands packets for p on to its next hop. */
  ghost predicate Forwarded(hna: seq<HNAEntry>, tables: Tables, p: Prefix, path: seq<IP>) {
    && |path| > 0
    && forall i {:trigger path[i]} :: 0 <= i < |path| - 1 ==>
         !Endpoint(hna, p, path[i]) && Routes(tables, p, path[i]) && tables[path[i]][p].nextHop == path[i + 1]
  }

  lemma {:induction false} LeastWalk(g: Graph, s: IP, t: IP, d: nat) returns (e: nat)
    requires Reaches(g, s, t, d)
    ensures e <= d && IsDistance(g, s, t, e)
  {
    if AtLeast(g, s, t, d) {
      e := d;
    } else {
      var w :| Connects(g, w, s, t) && Length(g, w) < d;
      e := LeastWalk(g, s, t, Length(g, w));
    }
  }

  /** A router no worse off than its neighbour says: the neighbour's metric plus one
      bounds its own. */
  lemma NeighborMetric(g: Graph, hna: seq<HNAEntry>, ifaces: IP -> IP -> int, tables: Tables, p: Prefix, r: IP, nh: IP)
    requires Converged(g, hna, ifaces, tables) && r in tables && Routes(tables, p, nh) && Edge(g, r, nh)
    requires !Endpoint(hna, p, r)
    ensures Routes(tables, p, r) && tables[r][p].metric <= tables[nh][p].metric + 1
  {
    var n, d, extra := BestOffer(g, hna, ifaces, tables, p, nh);
    PrependDistance(g, r, nh, n, d);
    var e := LeastWalk(g, r, n, 1 + d);
    OfferBounds(g, hna, ifaces, tables, p, r, n, e, extra);
  }

  /** The offer behind a route. */
  lemma BestOffer(g: Graph, hna: seq<HNAEntry>, ifaces: IP -> IP -> int, tables: Tables, p: Prefix, r: IP)
    returns (n: IP, d: nat, extra: nat)
    requires Converged(g, hna, ifaces, tables) && Routes(tables, p, r)
    ensures Offers(g, r, hna, p, n, d, extra) && tables[r][p].metric == d + extra
    ensures FirstHop(g, r, n, tables[r][p].nextHop)
  {
    assert TableOk(g, hna, ifaces, tables, r);
    assert BestRoute(g, r, hna, ifaces(r), p, tables[r][p]);
    n, d, extra :| Offers(g, r, hna, p, n, d, extra) && FirstHop(g, r, n, tables[r][p].nextHop)
                   && tables[r][p].metric == d + extra;
  }

  lemma OfferBounds(g: Graph, hna: seq<HNAEntry>, ifaces: IP -> IP -> int, tables: Tables, p: Prefix, r: IP,
                    n: IP, d: nat, extra: nat)
    requires Converged(g, hna, ifaces, tables) && r in tables && Offers(g, r, hna, p, n, d, extra)
    ensures Routes(tables, p, r) && tables[r][p].metric <= d + extra
  {
    assert TableOk(g, hna, ifaces, tables, r);
    assert Routes(tables, p, r);
    assert BestRoute(g, r, hna, ifaces(r), p, tables[r][p]);
  }

  /** What one hop achieves: its first link is real and the rest of the way is the
      rest of a cheapest walk to a node that serves p. */
  lemma HopTowards(g: Graph, hna: seq<HNAEntry>, ifaces: IP -> IP -> int, tables: Tables, p: Prefix, r: IP)
    returns (n: IP, d: nat, extra: nat)
    requires Converged(g, hna, ifaces, tables) && Routes(tables, p, r)
    ensures Edge(g, r, tables[r][p].nextHop) && tables[r][p].metric == 1 + d + extra
    ensures Serves(hna, p, n, extra) && IsDistance(g, tables[r][p].nextHop, n, d)
    ensures tables[r][p].nextHop == n ==> d == 0
  {
    var nh := tables[r][p].nextHop;
    var m;
    n, m, extra := BestOffer(g, hna, ifaces, tables, p, r);
    d := RestOfWalk(g, r, n, nh, m);
    if nh == n {
      ReachesItself(g, n);
      DistanceUnique(g, n, n, 0, d);
    }
  }

  /** One hop: the next router is an endpoint, or routes p at exactly one less; and a
      host prefix is delivered by its last hop only. */
  lemma HopDescends(g: Graph, hna: seq<HNAEntry>, ifaces: IP -> IP -> int, tables: Tables, p: Prefix, r: IP)
    requires Converged(g, hna, ifaces, tables) && Routes(tables, p, r) && !Endpoint(hna, p, r)
    ensures tables[r][p].metric >= 1
    ensures var nh := tables[r][p].nextHop;
            !Endpoint(hna, p, nh) ==> Routes(tables, p, nh) && tables[nh][p].metric == tables[r][p].metric - 1
    ensures Endpoint(hna, p, tables[r][p].nextHop) && HostOnly(hna, p) ==> tables[r][p].metric == 1
  {
    var n, d, extra := HopTowards(g, hna, ifaces, tables, p, r);
    var nh := tables[r][p].nextHop;
    if !Endpoint(hna, p, nh) {
      OfferBounds(g, hna, ifaces, tables, p, nh, n, d, extra);
      NeighborMetric(g, hna, ifaces, tables, p, r, nh);
    }
  }

  lemma RestOfWalk(g: Graph, r: IP, n: IP, nh: IP, m: nat) returns (d: nat)
    requires UnitCosts(g) && FirstHop(g, r, n, nh) && IsDistance(g, r, n, m)
    ensures Edge(g, r, nh) && m == 1 + d && IsDistance(g, nh, n, d)
  {
    d :| IsDistance(g, nh, n, d) && IsDistance(g, r, n, Cost(g, r, nh) + d);
    DistanceUnique(g, r, n, m, Cost(g, r, nh) + d);
  }

  /** Hop-by-hop delivery: following next hops for p from a router that has a route
      reaches an endpoint of p within the route's metric; if p is only a host prefix,
      it reaches that host in exactly that many hops. */
  lemma {:induction false} Delivered(g: Graph, hna: seq<HNAEntry>, ifaces: IP -> IP -> int, tables: Tables, p: Prefix, r: IP)
    returns (path: seq<IP>)
    requires Converged(g, hna, ifaces, tables) && Routes(tables, p, r) && !Endpoint(hna, p, r)
    ensures Forwarded(hna, tables, p, path) && path[0] == r && Endpoint(hna, p, path[|path| - 1])
    ensures 1 <= |path| - 1 <= tables[r][p].metric
    ensures HostOnly(hna, p) ==> |path| - 1 == tables[r][p].metric
    decreases tables[r][p].metric
  {
    HopDescends(g, hna, ifaces, tables, p, r);
    var nh := tables[r][p].nextHop;
    if Endpoint(hna, p, nh) {
      path := [r, nh];
    } else {
      var rest := Delivered(g, hna, ifaces, tables, p, nh);
      path := [r] + rest;
      ForwardedStep(hna, tables, p, r, rest);
    }
  }

  lemma ForwardedStep(hna: seq<HNAEntry>, tables: Tables, p: Prefix, r: IP, rest: seq<IP>)
    requires Routes(tables, p, r) && !Endpoint(hna, p, r)
    requires Forwarded(hna, tables, p, rest) && rest[0] == tables[r][p].nextHop
    ensures Forwarded(hna, tables, p, [r] + rest)
  {
    var path := [r] + rest;
    forall i | 0 < i < |path| - 1
      ensures !Endpoint(hna, p, path[i]) && Routes(tables, p, path[i]) && tables[path[i]][p].nextHop == path[i + 1]
    {
      assert path[i] == rest[i - 1];
    }
  }

  /** Along any path the metric falls by one at each hop, as far as endpoints are not
      reached. */
  lemma {:induction false} MetricFalls(g: Graph, hna: seq<HNAEntry>, ifaces: IP -> IP -> int, tables: Tables, p: Prefix,
                                       path: seq<IP>, i: nat, j: nat)
    requires Converged(g, hna, ifaces, tables) && Forwarded(hna, tables, p, path)
    requires i < |path| - 1 && i <= j < |path|
    ensures Endpoint(hna, p, path[j])
            || (Routes(tables, p, path[j]) && tables[path[j]][p].metric == tables[path[i]][p].metric - (j - i))
    decreases j
  {
    hide Converged, Endpoint;
    assert Routes(tables, p, path[i]);
    if i < j {
      MetricFalls(g, hna, ifaces, tables, p, path, i, j - 1);
      HopDescends(g, hna, ifaces, tables, p, path[j - 1]);
    }
  }

  /** Every path that follows next hops is free of loops: no router is visited twice. */
  lemma NeverRevisits(g: Graph, hna: seq<HNAEntry>, ifaces: IP -> IP -> int, tables: Tables, p: Prefix,
                      path: seq<IP>, i: nat, j: nat)
    requires Converged(g, hna, ifaces, tables) && Forwarded(hna, tables, p, path) && i < j < |path|
    ensures path[i] != path[j]
  {
    hide Converged, Endpoint;
    assert !Endpoint(hna, p, path[i]);
    MetricFalls(g, hna, ifaces, tables, p, path, i, j);
  }

  /** And it is no longer than the metric it starts with. */
  lemma PathsEnd(g: Graph, hna: seq<HNAEntry>, ifaces: IP -> IP -> int, tables: Tables, p: Prefix, path: seq<IP>)
    requires Converged(g, hna, ifaces, tables) && Forwarded(hna, tables, p, path) && |path| > 1
    ensures Routes(tables, p, path[0]) && |path| - 1 <= tables[path[0]][p].metric
  {
    hide Converged, Endpoint;
    var n := |path| - 2;
    MetricFalls(g, hna, ifaces, tables, p, path, 0, n);
    assert !Endpoint(hna, p, path[n]);
    HopDescends(g, hna, ifaces, tables, p, path[n]);
  }
}
