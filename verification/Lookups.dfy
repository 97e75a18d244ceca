/** Forwarding by destination address: each router asks its own table which prefix is the
    longest that contains the address. */
module Lookups {
  import opened Common
  import opened Graphs
  import opened Prefixes
  import opened RouteTables
  import opened Delivery
  import Spf

  /** The router takes packets for dest itself, or out of the network: it serves a prefix
      that contains the address and is at least as long as any in its table. */
  ghost predicate Delivers(hna: seq<HNAEntry>, tables: Tables, dest: IP, r: IP) {
    exists p :: Endpoint(hna, p, r) && Matches(p, dest)
                && forall q :: Routes(tables, q, r) && Matches(q, dest) ==> q.len <= p.len
  }

  /** A lookup in the router's table may give that next hop. */
  ghost predicate HandsTo(tables: Tables, dest: IP, r: IP, nh: IP) {
    r in tables && exists p :: Spf.Longest(tables[r], dest, p) && tables[r][p].nextHop == nh
  }

  /** Which is what the lookup method promises for an IPv4 address. */
  lemma LookupHands(tables: Tables, dest: IP, r: IP, hop: Option<(IP, int)>)
    requires r in tables && dest.V4?
    requires HostPrefix(dest) in tables[r] ==>
               hop == Some((tables[r][HostPrefix(dest)].nextHop, tables[r][HostPrefix(dest)].ifaceIndex))
    requires HostPrefix(dest) !in tables[r] ==> Spf.LongestMatch(tables[r], dest, hop)
    ensures hop.Some? ==> HandsTo(tables, dest, r, hop.value.0)
    ensures hop.None? ==> forall p :: p in tables[r] ==> !Matches(p, dest)
  {
    if HostPrefix(dest) in tables[r] {
      Spf.ShortcutIsLongestMatch(tables[r], dest, hop);
    }
  }

  /** Each router on the path but the last does not deliver, and hands packets for dest on
      to what its own lookup gives. */
  ghost predicate ForwardedByAddress(hna: seq<HNAEntry>, tables: Tables, dest: IP, path: seq<IP>) {
    && |path| > 0
    && forall i {:trigger path[i]} :: 0 <= i < |path| - 1 ==>
         !Delivers(hna, tables, dest, path[i]) && HandsTo(tables, dest, path[i], path[i + 1])
  }

  ghost predicate AllMasked(tables: Tables) {
    forall r, p :: Routes(tables, p, r) ==> Masked(p)
  }

  /** p is the one longest match in the router's table. */
  ghost predicate OnlyLongest(tables: Tables, dest: IP, r: IP, p: Prefix) {
    r in tables && forall q :: Spf.Longest(tables[r], dest, q) <==> q == p
  }

  lemma LongestIsOnly(tables: Tables, dest: IP, r: IP, p: Prefix)
    requires AllMasked(tables) && r in tables && Spf.Longest(tables[r], dest, p)
    ensures OnlyLongest(tables, dest, r, p)
  {
    forall q | Spf.Longest(tables[r], dest, q)
      ensures q == p
    {
      assert Routes(tables, q, r) && Routes(tables, p, r);
      MaskedUnique(q, p, dest);
    }
  }

  lemma NotEndpointOfLongest(hna: seq<HNAEntry>, tables: Tables, dest: IP, r: IP, p: Prefix)
    requires r in tables && Spf.Longest(tables[r], dest, p) && !Delivers(hna, tables, dest, r)
    ensures !Endpoint(hna, p, r)
  {}

  /** A prefix that contains the address is no longer at the next router than the longest
      here, because only what this router serves itself is unknown to it. */
  lemma NoLongerAhead(g: Graph, hna: seq<HNAEntry>, ifaces: IP -> IP -> int, tables: Tables, dest: IP, r: IP, p: Prefix, q: Prefix)
    requires Converged(g, hna, ifaces, tables) && r in tables && Spf.Longest(tables[r], dest, p)
    requires !Delivers(hna, tables, dest, r)
    requires Edge(g, r, tables[r][p].nextHop) && Routes(tables, q, tables[r][p].nextHop) && Matches(q, dest)
    ensures q.len <= p.len
  {
    if !Endpoint(hna, q, r) {
      NeighborMetric(g, hna, ifaces, tables, q, r, tables[r][p].nextHop);
    }
  }

  /** The next router delivers, or looks up the same prefix. */
  lemma SamePrefixAhead(g: Graph, hna: seq<HNAEntry>, ifaces: IP -> IP -> int, tables: Tables, dest: IP, r: IP, p: Prefix)
    requires Converged(g, hna, ifaces, tables) && AllMasked(tables) && r in tables && Spf.Longest(tables[r], dest, p)
    requires !Delivers(hna, tables, dest, r)
    ensures var nh := tables[r][p].nextHop;
            !Delivers(hna, tables, dest, nh) ==> !Endpoint(hna, p, nh) && OnlyLongest(tables, dest, nh, p)
  {
    var nh := tables[r][p].nextHop;
    NotEndpointOfLongest(hna, tables, dest, r, p);
    HopDescends(g, hna, ifaces, tables, p, r);
    var n, d, extra := HopTowards(g, hna, ifaces, tables, p, r);
    forall q | Routes(tables, q, nh) && Matches(q, dest)
      ensures q.len <= p.len
    {
      NoLongerAhead(g, hna, ifaces, tables, dest, r, p, q);
    }
    if !Delivers(hna, tables, dest, nh) {
      assert !Endpoint(hna, p, nh);
      LongestIsOnly(tables, dest, nh, p);
    }
  }

  lemma {:induction false} SamePrefixAlong(g: Graph, hna: seq<HNAEntry>, ifaces: IP -> IP -> int, tables: Tables, dest: IP,
                                           p: Prefix, path: seq<IP>, i: nat)
    requires Converged(g, hna, ifaces, tables) && AllMasked(tables) && ForwardedByAddress(hna, tables, dest, path)
    requires i < |path| - 1 && OnlyLongest(tables, dest, path[0], p)
    ensures OnlyLongest(tables, dest, path[i], p) && tables[path[i]][p].nextHop == path[i + 1]
  {
    hide Converged, AllMasked, Delivers, Spf.Longest;
    if i > 0 {
      SamePrefixAlong(g, hna, ifaces, tables, dest, p, path, i - 1);
      SamePrefixAhead(g, hna, ifaces, tables, dest, path[i - 1], p);
    }
    assert HandsTo(tables, dest, path[i], path[i + 1]);
  }

  /** All routers on the way look up the same prefix: forwarding by address is forwarding
      for that prefix. */
  lemma AddressPathIsPrefixPath(g: Graph, hna: seq<HNAEntry>, ifaces: IP -> IP -> int, tables: Tables, dest: IP,
                                path: seq<IP>) returns (p: Prefix)
    requires Converged(g, hna, ifaces, tables) && AllMasked(tables) && ForwardedByAddress(hna, tables, dest, path)
    requires |path| > 1
    ensures OnlyLongest(tables, dest, path[0], p) && Forwarded(hna, tables, p, path)
  {
    assert HandsTo(tables, dest, path[0], path[1]);
    p :| Spf.Longest(tables[path[0]], dest, p) && tables[path[0]][p].nextHop == path[1];
    LongestIsOnly(tables, dest, path[0], p);
    forall i | 0 <= i < |path| - 1
      ensures !Endpoint(hna, p, path[i]) && Routes(tables, p, path[i]) && tables[path[i]][p].nextHop == path[i + 1]
    {
      SamePrefixAlong(g, hna, ifaces, tables, dest, p, path, i);
      assert Spf.Longest(tables[path[i]], dest, p);
      NotEndpointOfLongest(hna, tables, dest, path[i], p);
    }
  }

  /** Every path by address is free of loops, and no longer than the metric of the route
      that it starts with. */
  lemma AddressPathsEnd(g: Graph, hna: seq<HNAEntry>, ifaces: IP -> IP -> int, tables: Tables, dest: IP, path: seq<IP>)
    requires Converged(g, hna, ifaces, tables) && AllMasked(tables) && ForwardedByAddress(hna, tables, dest, path)
    ensures forall i, j :: 0 <= i < j < |path| ==> path[i] != path[j]
    ensures |path| > 1 ==>
              exists p :: OnlyLongest(tables, dest, path[0], p) && |path| - 1 <= tables[path[0]][p].metric
  {
    hide Converged, AllMasked, ForwardedByAddress, OnlyLongest, Forwarded;
    if |path| > 1 {
      var p := AddressPathIsPrefixPath(g, hna, ifaces, tables, dest, path);
      PathsEnd(g, hna, ifaces, tables, p, path);
      forall i, j | 0 <= i < j < |path|
        ensures path[i] != path[j]
      {
        NeverRevisits(g, hna, ifaces, tables, p, path, i, j);
      }
      OnlyInTable(tables, dest, path[0], p);
    }
  }

  lemma OnlyInTable(tables: Tables, dest: IP, r: IP, p: Prefix)
    requires OnlyLongest(tables, dest, r, p)
    ensures Routes(tables, p, r) && Spf.Longest(tables[r], dest, p)
  {
    assert Spf.Longest(tables[r], dest, p);
  }

  /** And from every router whose table has a match, the path ends at a router that
      delivers. */
  lemma {:induction false} DeliveredByAddress(g: Graph, hna: seq<HNAEntry>, ifaces: IP -> IP -> int, tables: Tables, dest: IP,
                                              r: IP, p: Prefix) returns (path: seq<IP>)
    requires Converged(g, hna, ifaces, tables) && AllMasked(tables) && r in tables && Spf.Longest(tables[r], dest, p)
    requires !Delivers(hna, tables, dest, r)
    ensures |path| > 1 && ForwardedByAddress(hna, tables, dest, path) && path[0] == r && Delivers(hna, tables, dest, path[|path| - 1])
    decreases tables[r][p].metric
  {
    hide Converged, AllMasked, Delivers, Spf.Longest, HandsTo, ForwardedByAddress, Endpoint, OnlyLongest;
    LongestInTable(tables, dest, r, p);
    var nh := tables[r][p].nextHop;
    NotEndpointOfLongest(hna, tables, dest, r, p);
    SamePrefixAhead(g, hna, ifaces, tables, dest, r, p);
    HopDescends(g, hna, ifaces, tables, p, r);
    if Delivers(hna, tables, dest, nh) {
      path := [r] + [nh];
      OneMoreRouter(hna, tables, dest, r, [nh]);
    } else {
      OnlyInTable(tables, dest, nh, p);
      var rest := DeliveredByAddress(g, hna, ifaces, tables, dest, nh, p);
      path := [r] + rest;
      OneMoreRouter(hna, tables, dest, r, rest);
    }
  }

  lemma OneMoreRouter(hna: seq<HNAEntry>, tables: Tables, dest: IP, r: IP, rest: seq<IP>)
    requires |rest| == 1 || ForwardedByAddress(hna, tables, dest, rest)
    requires |rest| > 0 && !Delivers(hna, tables, dest, r) && HandsTo(tables, dest, r, rest[0])
    ensures ForwardedByAddress(hna, tables, dest, [r] + rest)
  {
    hide Delivers, HandsTo;
    var path := [r] + rest;
    forall i | 0 < i < |path| - 1
      ensures !Delivers(hna, tables, dest, path[i]) && HandsTo(tables, dest, path[i], path[i + 1])
    {
      assert path[i] == rest[i - 1];
    }
  }

  lemma LongestInTable(tables: Tables, dest: IP, r: IP, p: Prefix)
    requires r in tables && Spf.Longest(tables[r], dest, p)
    ensures Routes(tables, p, r) && HandsTo(tables, dest, r, tables[r][p].nextHop)
  {}
}
