/** The unicast subscriber that installs routes in the kernel itself. The kernel holds one
    route for each prefix and metric: adding to an occupied place is refused, adding at
    another metric leaves the old route beside the new one, and deleting takes out the
    route of least metric with that next hop and interface. */
module Standalone {
  import opened Common
  import opened Graphs
  import opened Prefixes
  import opened RouteTables
  import opened TableSync
  import opened ShortestPaths
  import opened Spf

  datatype Hop = Hop(nextHop: IP, ifaceIndex: int)

  type Kernel = map<(Prefix, nat), Hop>

  function HopOf(r: Route): Hop {
    Hop(r.nextHop, r.ifaceIndex)
  }

  predicate Holds(k: Kernel, p: Prefix, m: nat, h: Hop) {
    (p, m) in k && k[(p, m)] == h
  }

  /** What the kernel makes of one event. */
  ghost predicate Step(k: Kernel, e: Event<Prefix, Route>, k': Kernel) {
    match e
    case Add(p, r) => k' == if (p, r.metric) in k then k else k[(p, r.metric) := HopOf(r)]
    case Delete(p, r) =>
      if exists m: nat :: Holds(k, p, m, HopOf(r))
      then exists m: nat :: Holds(k, p, m, HopOf(r)) && (forall l: nat :: Holds(k, p, l, HopOf(r)) ==> m <= l) && k' == k - {(p, m)}
      else k' == k
  }

  /** And of several in order. */
  ghost predicate Run(k: Kernel, events: seq<Event<Prefix, Route>>, k': Kernel) {
    if events == [] then k' == k
    else
      var n := |events| - 1;
      exists mid :: Run(k, events[..n], mid) && Step(mid, events[n], k')
  }

  /** The kernel routes p as the table does, and has no second route for it. */
  ghost predicate AgreesAt(k: Kernel, table: map<Prefix, Route>, p: Prefix) {
    if p in table
    then exists m: nat :: Holds(k, p, m, HopOf(table[p])) && forall l: nat :: (p, l) in k ==> l == m
    else forall l: nat :: (p, l) !in k
  }

  ghost predicate Agrees(k: Kernel, table: map<Prefix, Route>) {
    forall p :: AgreesAt(k, table, p)
  }

  /** Some prefix of both tables has another next hop or interface. */
  ghost predicate HopChanged(before: map<Prefix, Route>, after: map<Prefix, Route>) {
    exists p :: p in before && p in after && !SameHop(before[p], after[p])
  }

  // ---- One prefix at a time ----

  ghost predicate SameAt(k: Kernel, k': Kernel, p: Prefix) {
    forall m: nat :: ((p, m) in k <==> (p, m) in k') && ((p, m) in k && (p, m) in k' ==> k[(p, m)] == k'[(p, m)])
  }

  lemma StepElsewhere(k: Kernel, e: Event<Prefix, Route>, k': Kernel, p: Prefix)
    requires Step(k, e, k') && e.key != p
    ensures SameAt(k, k', p)
  {}

  lemma {:induction false} RunElsewhere(k: Kernel, events: seq<Event<Prefix, Route>>, k': Kernel, p: Prefix)
    requires Run(k, events, k') && forall i :: 0 <= i < |events| ==> events[i].key != p
    ensures SameAt(k, k', p)
  {
    hide Step;
    if events != [] {
      var n := |events| - 1;
      var mid :| Run(k, events[..n], mid) && Step(mid, events[n], k');
      RunElsewhere(k, events[..n], mid, p);
      StepElsewhere(mid, events[n], k', p);
    }
  }

  /** The one event about a prefix finds there what the run began with and leaves what it
      ends with. */
  lemma {:induction false} RunAt(k: Kernel, events: seq<Event<Prefix, Route>>, k': Kernel, i: nat)
    returns (before: Kernel, after: Kernel)
    requires Run(k, events, k') && i < |events|
    requires forall a, b :: 0 <= a < b < |events| ==> events[a].key != events[b].key
    ensures SameAt(k, before, events[i].key) && Step(before, events[i], after) && SameAt(after, k', events[i].key)
    decreases |events|
  {
    hide Step;
    var n := |events| - 1;
    var mid :| Run(k, events[..n], mid) && Step(mid, events[n], k');
    if i == n {
      RunElsewhere(k, events[..n], mid, events[i].key);
      before, after := mid, k';
    } else {
      before, after := RunAt(k, events[..n], mid, i);
      StepElsewhere(mid, events[n], k', events[i].key);
    }
  }

  lemma AgreesSameAt(k: Kernel, k': Kernel, table: map<Prefix, Route>, p: Prefix)
    requires SameAt(k, k', p)
    ensures AgreesAt(k, table, p) <==> AgreesAt(k', table, p)
  {
    if p in table {
      forall m: nat
        ensures Holds(k, p, m, HopOf(table[p])) <==> Holds(k', p, m, HopOf(table[p]))
      {}
    }
  }

  lemma AddNew(k: Kernel, k': Kernel, table: map<Prefix, Route>, p: Prefix)
    requires p in table && Step(k, Add(p, table[p]), k') && forall l: nat :: (p, l) !in k
    ensures AgreesAt(k', table, p)
  {
    assert Holds(k', p, table[p].metric, HopOf(table[p]));
  }

  lemma DeleteOld(k: Kernel, k': Kernel, before: map<Prefix, Route>, after: map<Prefix, Route>, p: Prefix)
    requires p in before && p !in after && Step(k, Delete(p, before[p]), k') && AgreesAt(k, before, p)
    ensures AgreesAt(k', after, p)
  {
    var m: nat :| Holds(k, p, m, HopOf(before[p])) && forall l: nat :: (p, l) in k ==> l == m;
  }

  /** A changed hop is refused at the same metric, and otherwise added beside the old one. */
  lemma AddChanged(k: Kernel, k': Kernel, before: map<Prefix, Route>, after: map<Prefix, Route>, p: Prefix)
    requires p in before && p in after && !SameHop(before[p], after[p])
    requires Step(k, Add(p, after[p]), k') && AgreesAt(k, before, p)
    ensures !AgreesAt(k', after, p)
  {
    var m: nat :| Holds(k, p, m, HopOf(before[p])) && forall l: nat :: (p, l) in k ==> l == m;
    assert Holds(k', p, m, HopOf(before[p]));
  }

  lemma AgreesAtIff(k: Kernel, before: map<Prefix, Route>, after: map<Prefix, Route>, events: seq<Event<Prefix, Route>>,
                    k': Kernel, p: Prefix)
    requires Agrees(k, before) && IsDiff(before, after, SameHop, events) && Run(k, events, k')
    ensures AgreesAt(k', after, p) <==> !(p in before && p in after && !SameHop(before[p], after[p]))
  {
    hide Run, Step, AgreesAt, SameAt;
    assert AgreesAt(k, before, p);
    if p in before.Keys + after.Keys && Changed(before, after, SameHop, p) {
      var i :| 0 <= i < |events| && events[i].key == p;
      assert Reports(before, after, events[i]);
      var b, a := RunAt(k, events, k', i);
      AgreesSameAt(k, b, before, p);
      AgreesSameAt(a, k', after, p);
      if p !in before {
        EmptyAt(b, before, p);
        AddNew(b, a, after, p);
      } else if p !in after {
        DeleteOld(b, a, before, after, p);
      } else {
        AddChanged(b, a, before, after, p);
      }
    } else {
      RunElsewhere(k, events, k', p);
      AgreesSameAt(k, k', before, p);
      UnchangedAt(k', before, after, p);
    }
  }

  lemma EmptyAt(k: Kernel, table: map<Prefix, Route>, p: Prefix)
    requires p !in table && AgreesAt(k, table, p)
    ensures forall l: nat :: (p, l) !in k
  {}

  lemma UnchangedAt(k: Kernel, before: map<Prefix, Route>, after: map<Prefix, Route>, p: Prefix)
    requires !Changed(before, after, SameHop, p) && AgreesAt(k, before, p)
    ensures AgreesAt(k, after, p)
  {
    if p in after {
      assert HopOf(after[p]) == HopOf(before[p]);
    }
  }

  // ---- Whole tables and histories ----

  /** After one published difference the kernel agrees with the new table, if it did with
      the old one, if and only if no prefix changed its hop. */
  lemma DiffAgreesIff(k: Kernel, before: map<Prefix, Route>, after: map<Prefix, Route>, events: seq<Event<Prefix, Route>>, k': Kernel)
    requires Agrees(k, before) && IsDiff(before, after, SameHop, events) && Run(k, events, k')
    ensures Agrees(k', after) <==> !HopChanged(before, after)
  {
    hide AgreesAt, IsDiff, Run;
    forall p
      ensures AgreesAt(k', after, p) <==> !(p in before && p in after && !SameHop(before[p], after[p]))
    {
      AgreesAtIff(k, before, after, events, k', p);
    }
  }

  /** The kernel's state after each recalculation, from an empty one on. */
  ghost predicate Kernels(runs: seq<seq<Event<Prefix, Route>>>, kernels: seq<Kernel>) {
    && |kernels| == |runs| + 1 && kernels[0] == map[]
    && forall i {:trigger runs[i]} :: 0 <= i < |runs| ==> Run(kernels[i], runs[i], kernels[i + 1])
  }

  lemma {:induction false} AgreesUpTo(tables: seq<map<Prefix, Route>>, runs: seq<seq<Event<Prefix, Route>>>, kernels: seq<Kernel>, n: nat)
    requires History(tables, runs, SameHop) && |tables| == |runs| + 1 && Kernels(runs, kernels) && n <= |runs|
    ensures (forall i :: 0 <= i <= n ==> Agrees(kernels[i], tables[i])) <==>
              forall i :: 0 <= i < n ==> !HopChanged(tables[i], tables[i + 1])
  {
    hide History, Agrees, HopChanged, Run, IsDiff;
    if n == 0 {
      NothingAgrees(tables, runs);
    } else {
      AgreesUpTo(tables, runs, kernels, n - 1);
      if Agrees(kernels[n - 1], tables[n - 1]) {
        HistoryAt(tables, runs, SameHop, n - 1);
        assert Run(kernels[n - 1], runs[n - 1], kernels[n]);
        DiffAgreesIff(kernels[n - 1], tables[n - 1], tables[n], runs[n - 1], kernels[n]);
      }
    }
  }

  lemma NothingAgrees(tables: seq<map<Prefix, Route>>, runs: seq<seq<Event<Prefix, Route>>>)
    requires History(tables, runs, SameHop)
    ensures |tables| > 0 && Agrees(map[], tables[0])
  {
    if runs != [] {
      HistoryAt(tables, runs, SameHop, 0);
    }
  }

  /** Over any number of recalculations, the kernel agrees with the active table after each
      of them if and only if none changed the hop of a prefix. */
  lemma StandaloneAgreesIff(tables: seq<map<Prefix, Route>>, runs: seq<seq<Event<Prefix, Route>>>, kernels: seq<Kernel>)
    requires History(tables, runs, SameHop) && |tables| == |runs| + 1 && Kernels(runs, kernels)
    ensures (forall i :: 0 <= i < |tables| ==> Agrees(kernels[i], tables[i])) <==>
              forall i :: 0 <= i < |tables| - 1 ==> !HopChanged(tables[i], tables[i + 1])
  {
    hide History, Agrees, HopChanged, Kernels;
    AgreesUpTo(tables, runs, kernels, |runs|);
  }

  // ---- A changed hop ----

  lemma {:induction false} SomeRun(k: Kernel, events: seq<Event<Prefix, Route>>) returns (k': Kernel)
    ensures Run(k, events, k')
  {
    if events == [] {
      k' := k;
    } else {
      var n := |events| - 1;
      var mid := SomeRun(k, events[..n]);
      k' := SomeStep(mid, events[n]);
    }
  }

  lemma SomeStep(k: Kernel, e: Event<Prefix, Route>) returns (k': Kernel)
    ensures Step(k, e, k')
  {
    match e
    case Add(p, r) => k' := if (p, r.metric) in k then k else k[(p, r.metric) := HopOf(r)];
    case Delete(p, r) =>
      if m: nat :| Holds(k, p, m, HopOf(r)) {
        var l := LeastHeld(k, p, HopOf(r), m);
        k' := k - {(p, l)};
      } else {
        k' := k;
      }
  }

  lemma {:induction false} LeastHeld(k: Kernel, p: Prefix, h: Hop, m: nat) returns (l: nat)
    requires Holds(k, p, m, h)
    ensures Holds(k, p, l, h) && forall j: nat :: Holds(k, p, j, h) ==> l <= j
  {
    if j: nat :| j < m && Holds(k, p, j, h) {
      l := LeastHeld(k, p, h, j);
    } else {
      l := m;
    }
  }

  /** A node x first reached by way of a and then by way of b: both tables are route tables,
      such histories exist, and each leaves the kernel in disagreement about x. */
  lemma StaleHop(me: IP, a: IP, b: IP, x: IP, iface: IP -> int)
    requires me != a && a != x && me != x && me != b && b != x && a != b
    ensures var before, after := ChainHosts(a, x, iface), ChainHosts(b, x, iface);
            && IsRouteTable(Chain(me, a, x), me, [], iface, before) && IsRouteTable(Chain(me, b, x), me, [], iface, after)
            && (exists runs, kernels :: |runs| == 2 && History([map[], before, after], runs, SameHop) && Kernels(runs, kernels))
            && (forall runs, kernels :: |runs| == 2 && History([map[], before, after], runs, SameHop) && Kernels(runs, kernels) ==>
                  Agrees(kernels[1], before) && !Agrees(kernels[2], after))
  {
    hide IsRouteTable, History, IsDiff, Run, Agrees, HopChanged, DiffOn;
    var before, after := ChainHosts(a, x, iface), ChainHosts(b, x, iface);
    ChainRoutes(me, a, x, iface);
    ChainRoutes(me, b, x, iface);
    var e1 := SomeDiff(map[], before);
    var e2 := SomeDiff(before, after);
    TwoRuns(map[], before, after, e1, e2);
    var k1 := SomeRun(map[], e1);
    var k2 := SomeRun(k1, e2);
    assert Kernels([e1, e2], [map[], k1, k2]);
    forall runs, kernels | |runs| == 2 && History([map[], before, after], runs, SameHop) && Kernels(runs, kernels)
      ensures Agrees(kernels[1], before) && !Agrees(kernels[2], after)
    {
      ChangedHop(a, b, x, iface);
      AgreesUpTo([map[], before, after], runs, kernels, 1);
      AgreesUpTo([map[], before, after], runs, kernels, 2);
    }
  }

  lemma SomeDiff(before: map<Prefix, Route>, after: map<Prefix, Route>) returns (events: seq<Event<Prefix, Route>>)
    ensures IsDiff(before, after, SameHop, events)
  {
    events := DiffOver(before, after, SameHop, before.Keys + after.Keys);
  }

  lemma ChainRoutes(me: IP, a: IP, x: IP, iface: IP -> int)
    requires me != a && a != x && me != x
    ensures IsRouteTable(Chain(me, a, x), me, [], iface, ChainHosts(a, x, iface))
  {
    hide TableSoFar, ExactDistances, IsRouteTable;
    ChainHostsDone(me, a, x, iface);
    ChainDistances(me, a, x);
    TableDone(Chain(me, a, x), me, ChainDist(me, a, x), [], iface, ChainHosts(a, x, iface));
  }

  lemma ChangedHop(a: IP, b: IP, x: IP, iface: IP -> int)
    requires a != x && b != x && a != b
    ensures !HopChanged(map[], ChainHosts(a, x, iface)) && HopChanged(ChainHosts(a, x, iface), ChainHosts(b, x, iface))
  {
    assert !SameHop(ChainHosts(a, x, iface)[HostPrefix(x)], ChainHosts(b, x, iface)[HostPrefix(x)]);
  }
}
