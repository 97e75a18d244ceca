/** Weighted directed graphs, walks in them, and what a least-cost distance is. */
module Graphs {
  import opened Common

  /** The adjacency list of the SPF engine: node, then successor, then link cost. */
  type Graph = map<IP, map<IP, nat>>

  predicate Edge(g: Graph, u: IP, v: IP) {
    u in g && v in g[u]
  }

  function Cost(g: Graph, u: IP, v: IP): nat
    requires Edge(g, u, v)
  {
    g[u][v]
  }

  ghost predicate PositiveCosts(g: Graph) {
    forall u, v :: Edge(g, u, v) ==> Cost(g, u, v) > 0
  }

  ghost predicate UnitCosts(g: Graph) {
    forall u, v :: Edge(g, u, v) ==> Cost(g, u, v) == 1
  }

  /** A walk, written from its last step back to its first node. */
  datatype Walk = At(node: IP) | Via(prefix: Walk, to: IP)

  function First(w: Walk): IP {
    match w
    case At(n) => n
    case Via(p, _) => First(p)
  }

  function Last(w: Walk): IP {
    match w
    case At(n) => n
    case Via(_, v) => v
  }

  predicate InGraph(g: Graph, w: Walk) {
    match w
    case At(_) => true
    case Via(p, v) => InGraph(g, p) && Edge(g, Last(p), v)
  }

  function Length(g: Graph, w: Walk): nat
    requires InGraph(g, w)
  {
    match w
    case At(_) => 0
    case Via(p, v) => Length(g, p) + Cost(g, Last(p), v)
  }

  ghost predicate Connects(g: Graph, w: Walk, s: IP, t: IP) {
    InGraph(g, w) && First(w) == s && Last(w) == t
  }

  /** Some walk from s to t costs exactly d. */
  ghost predicate Reaches(g: Graph, s: IP, t: IP, d: nat) {
    exists w :: Connects(g, w, s, t) && Length(g, w) == d
  }

  /** No walk from s to t costs less than d. */
  ghost predicate AtLeast(g: Graph, s: IP, t: IP, d: nat) {
    forall w :: Connects(g, w, s, t) ==> d <= Length(g, w)
  }

  ghost predicate IsDistance(g: Graph, s: IP, t: IP, d: nat) {
    Reaches(g, s, t, d) && AtLeast(g, s, t, d)
  }

  /** nh is a legal first hop from s towards t: some cheapest walk from s to t
      starts with the link from s to nh. */
  ghost predicate FirstHop(g: Graph, s: IP, t: IP, nh: IP) {
    && Edge(g, s, nh)
    && exists d: nat :: IsDistance(g, nh, t, d) && IsDistance(g, s, t, Cost(g, s, nh) + d)
  }

  lemma ReachesItself(g: Graph, s: IP)
    ensures IsDistance(g, s, s, 0)
  {
    assert Connects(g, At(s), s, s) && Length(g, At(s)) == 0;
  }

  lemma ReachesExtend(g: Graph, s: IP, u: IP, v: IP, d: nat)
    requires Reaches(g, s, u, d) && Edge(g, u, v)
    ensures Reaches(g, s, v, d + Cost(g, u, v))
  {
    var w :| Connects(g, w, s, u) && Length(g, w) == d;
    assert Connects(g, Via(w, v), s, v) && Length(g, Via(w, v)) == d + Cost(g, u, v);
  }

  lemma DistanceUnique(g: Graph, s: IP, t: IP, d: nat, e: nat)
    requires IsDistance(g, s, t, d) && IsDistance(g, s, t, e)
    ensures d == e
  {
    var w :| Connects(g, w, s, t) && Length(g, w) == d;
    var x :| Connects(g, x, s, t) && Length(g, x) == e;
  }

  /** Puts the link from s to First(w) in front of a walk. */
  function Prepend(s: IP, w: Walk): Walk {
    match w
    case At(n) => Via(At(s), n)
    case Via(p, v) => Via(Prepend(s, p), v)
  }

  lemma {:induction false} PrependWalk(g: Graph, s: IP, w: Walk)
    requires InGraph(g, w) && Edge(g, s, First(w))
    ensures Connects(g, Prepend(s, w), s, Last(w))
    ensures Length(g, Prepend(s, w)) == Cost(g, s, First(w)) + Length(g, w)
  {
    match w
    case At(_) =>
    case Via(p, _) => PrependWalk(g, s, p);
  }

  /** Distances drop by at most the cost of a link along that link. */
  lemma PrependDistance(g: Graph, s: IP, u: IP, t: IP, d: nat)
    requires Edge(g, s, u) && Reaches(g, u, t, d)
    ensures Reaches(g, s, t, Cost(g, s, u) + d)
  {
    var w :| Connects(g, w, u, t) && Length(g, w) == d;
    PrependWalk(g, s, w);
    assert Connects(g, Prepend(s, w), s, t);
  }

  /** If going through u costs no more than the distance, u starts a cheapest walk. */
  lemma CheapestThrough(g: Graph, s: IP, u: IP, t: IP, d: nat)
    requires Edge(g, s, u) && Reaches(g, u, t, d)
    requires AtLeast(g, s, t, Cost(g, s, u) + d)
    ensures FirstHop(g, s, t, u)
  {
    PrependDistance(g, s, u, t, d);
    forall w | Connects(g, w, u, t)
      ensures d <= Length(g, w)
    {
      PrependWalk(g, s, w);
      assert Connects(g, Prepend(s, w), s, t);
    }
    assert IsDistance(g, u, t, d) && IsDistance(g, s, t, Cost(g, s, u) + d);
  }

  /** A walk that costs something has a node after its first one. */
  lemma {:induction false} SplitWalk(g: Graph, w: Walk) returns (x: Walk)
    requires InGraph(g, w) && w.Via?
    ensures InGraph(g, x) && Last(x) == Last(w) && Edge(g, First(w), First(x))
    ensures Length(g, w) == Cost(g, First(w), First(x)) + Length(g, x)
  {
    if w.prefix.At? {
      x := At(w.to);
    } else {
      var y := SplitWalk(g, w.prefix);
      x := Via(y, w.to);
    }
  }
}
