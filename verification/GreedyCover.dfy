/** Greedy set cover with forced picks, as used to choose multipoint relays. */
module GreedyCover {
  import opened Common

  /** Each node to be covered, with the candidates that cover it. */
  type Cover = map<IP, set<IP>>

  /** What breaks ties between candidates that cover equally many nodes. */
  datatype Standing = Standing(willingness: nat, degree: nat)

  function Uncovered(cover: Cover, chosen: set<IP>): set<IP> {
    set t | t in cover && cover[t] !! chosen
  }

  function Gained(cover: Cover, rest: set<IP>, h: IP): set<IP> {
    set t | t in rest && t in cover && h in cover[t]
  }

  function Gain(cover: Cover, rest: set<IP>, h: IP): nat {
    |Gained(cover, rest, h)|
  }

  /** The candidates that are the only cover of some node. */
  function SoleCovers(cover: Cover): set<IP> {
    set t, h | t in cover && h in cover[t] && cover[t] == {h} :: h
  }

  /** Lexicographic order on (newly covered, willingness, degree). */
  predicate NoBetter(gain1: nat, s1: Standing, gain2: nat, s2: Standing) {
    || gain1 < gain2
    || (gain1 == gain2 && s1.willingness < s2.willingness)
    || (gain1 == gain2 && s1.willingness == s2.willingness && s1.degree <= s2.degree)
  }

  /** h covers something of `rest` and no candidate is better. */
  ghost predicate IsGreedyPick(cover: Cover, cands: map<IP, Standing>, rest: set<IP>, h: IP) {
    && h in cands && Gain(cover, rest, h) > 0
    && forall k :: k in cands ==> NoBetter(Gain(cover, rest, k), cands[k], Gain(cover, rest, h), cands[h])
  }

  /** No candidate covers more of what is left; of those that cover as much none is more
      willing, and of those none has more two-hop entries. */
  lemma PickIsGreatest(cover: Cover, cands: map<IP, Standing>, rest: set<IP>, h: IP, k: IP)
    requires IsGreedyPick(cover, cands, rest, h) && k in cands && rest <= cover.Keys
    ensures var covers := (x: IP) => set t | t in rest && x in cover[t];
            && |covers(h)| >= 1 && |covers(k)| <= |covers(h)|
            && (|covers(k)| == |covers(h)| ==> cands[k].willingness <= cands[h].willingness)
            && (|covers(k)| == |covers(h)| && cands[k].willingness == cands[h].willingness ==> cands[k].degree <= cands[h].degree)
  {
    assert Gained(cover, rest, h) == set t | t in rest && h in cover[t];
    assert Gained(cover, rest, k) == set t | t in rest && k in cover[t];
  }

  /** The forced picks are exactly the candidates that alone cover some node. */
  lemma ForcedExactly(cover: Cover, h: IP)
    ensures h in SoleCovers(cover) <==> exists t :: t in cover && cover[t] == {h}
  {}

  function Elements(picks: seq<IP>): set<IP> {
    if picks == [] then {} else Elements(picks[..|picks| - 1]) + {picks[|picks| - 1]}
  }

  /** Each pick is greedy for what `start` and the picks before it leave uncovered. */
  ghost predicate GreedyRun(cover: Cover, cands: map<IP, Standing>, start: set<IP>, picks: seq<IP>) {
    picks == [] ||
    (var n := |picks| - 1;
     && GreedyRun(cover, cands, start, picks[..n])
     && IsGreedyPick(cover, cands, Uncovered(cover, start + Elements(picks[..n])), picks[n]))
  }

  /** The chosen set is the sole covers and a greedy run that leaves nothing uncovered. */
  ghost predicate GreedyCoverOf(cover: Cover, cands: map<IP, Standing>, chosen: set<IP>) {
    && Uncovered(cover, chosen) == {}
    && exists picks ::
         GreedyRun(cover, cands, SoleCovers(cover), picks) && chosen == SoleCovers(cover) + Elements(picks)
  }

  lemma ElementsSnoc(picks: seq<IP>, h: IP)
    ensures Elements(picks + [h]) == Elements(picks) + {h}
  {
    assert (picks + [h])[..|picks|] == picks;
  }

  lemma GreedyRunSnoc(cover: Cover, cands: map<IP, Standing>, start: set<IP>, picks: seq<IP>, h: IP)
    requires GreedyRun(cover, cands, start, picks)
    requires IsGreedyPick(cover, cands, Uncovered(cover, start + Elements(picks)), h)
    ensures GreedyRun(cover, cands, start, picks + [h])
    ensures start + Elements(picks + [h]) == start + Elements(picks) + {h}
  {
    ElementsSnoc(picks, h);
    assert (picks + [h])[..|picks|] == picks;
  }

  /** A pick covers exactly what it gained, so the uncovered set strictly shrinks. */
  lemma PickShrinks(cover: Cover, chosen: set<IP>, h: IP)
    ensures Uncovered(cover, chosen + {h}) == Uncovered(cover, chosen) - Gained(cover, Uncovered(cover, chosen), h)
    ensures |Uncovered(cover, chosen + {h})| == |Uncovered(cover, chosen)| - Gain(cover, Uncovered(cover, chosen), h)
  {
    var u, v, x := Uncovered(cover, chosen), Uncovered(cover, chosen + {h}), Gained(cover, Uncovered(cover, chosen), h);
    forall t
      ensures t in v <==> t in u - x
    {
      assert t in cover ==> (cover[t] !! chosen + {h} <==> cover[t] !! chosen && h !in cover[t]);
    }
    DiffCard(u, x);
    assert v == u - x;
  }

  lemma DiffCard<T>(a: set<T>, b: set<T>)
    requires b <= a
    ensures |a - b| == |a| - |b|
  {
    assert a == b + (a - b);
  }

  lemma {:induction false} GreedyRunStays(cover: Cover, cands: map<IP, Standing>, start: set<IP>, picks: seq<IP>)
    requires GreedyRun(cover, cands, start, picks)
    ensures Elements(picks) <= cands.Keys
  {
    if picks != [] {
      var n := |picks| - 1;
      GreedyRunStays(cover, cands, start, picks[..n]);
    }
  }

  ghost predicate CoversAll(cover: Cover, rest: set<IP>, c: set<IP>) {
    forall t :: t in rest && t in cover ==> cover[t] * c != {}
  }

  /** If every member of c gains at most k, and c covers `rest`, then `rest` has at
      most k times |c| nodes. */
  lemma {:induction false} ShareBound(cover: Cover, rest: set<IP>, c: set<IP>, k: nat)
    requires rest <= cover.Keys && CoversAll(cover, rest, c)
    requires forall h :: h in c ==> Gain(cover, rest, h) <= k
    ensures |rest| <= k * |c|
    decreases c
  {
    if c == {} {
      assert forall x: set<IP> :: x * c == {};
    } else {
      var h :| h in c;
      var gained := Gained(cover, rest, h);
      var left, c' := rest - gained, c - {h};
      forall t | t in left
        ensures cover[t] * c' != {}
      {
        var x :| x in cover[t] * c;
        assert x in cover[t] * c';
      }
      forall x | x in c'
        ensures Gain(cover, left, x) <= k
      {
        assert Gained(cover, left, x) <= Gained(cover, rest, x);
        SubsetCard(Gained(cover, left, x), Gained(cover, rest, x));
      }
      ShareBound(cover, left, c', k);
      DiffCard(rest, gained);
      DiffCard(c, {h});
      assert Gain(cover, rest, h) <= k;
      assert k * (|c'| + 1) == k * |c'| + k;
    }
  }

  lemma {:induction false} SubsetCard<T>(a: set<T>, b: set<T>)
    requires a <= b
    ensures |a| <= |b|
  {
    assert b == a + (b - a);
    assert |b| == |a| + |b - a|;
  }

  function Harmonic(n: nat): real {
    if n == 0 then 0.0 else Harmonic(n - 1) + 1.0 / (n as real)
  }

  /** The size of `forced` picks plus k picks at a harmonic markup. */
  function HarmonicBound(forced: nat, k: nat, n: nat): real {
    (forced as real) + (k as real) * Harmonic(n)
  }

  /** k times the harmonic number of n, term by term. */
  function Budget(k: nat, n: nat): real {
    if n == 0 then 0.0 else Budget(k, n - 1) + (k as real) / (n as real)
  }

  lemma {:induction false} BudgetIsHarmonic(k: nat, n: nat)
    ensures Budget(k, n) == (k as real) * Harmonic(n)
  {
    if n > 0 {
      BudgetIsHarmonic(k, n - 1);
      assert (k as real) * (1.0 / (n as real)) == (k as real) / (n as real);
    }
  }

  /** Spending t of m terms spends at least t terms of the size of the m-th. */
  lemma {:induction false} BudgetGap(k: nat, m: nat, t: nat)
    requires t <= m && m > 0
    ensures (Budget(k, m) - Budget(k, m - t)) * (m as real) >= (k * t) as real
  {
    if t > 0 {
      BudgetGap(k, m, t - 1);
      var x, y, z := m - t + 1, (k as real) / ((m - t + 1) as real), m as real;
      ShareGrows(k as real, x as real, z);
      var a := Budget(k, m) - Budget(k, x);
      assert Budget(k, x) - Budget(k, m - t) == y;
      assert (a + y) * z == a * z + y * z;
      assert k * t == k * (t - 1) + k;
    }
  }

  lemma ShareGrows(k: real, x: real, y: real)
    requires 0.0 <= k && 0.0 < x <= y
    ensures (k / x) * y >= k
  {
    var r := k / x;
    assert r * x == k;
    assert r >= 0.0;
    assert r * y - r * x == r * (y - x);
  }

  /** One pick pays for itself: covering at least a 1/k share of m nodes lowers the
      budget by at least one. */
  lemma PickPays(k: nat, m: nat, t: nat)
    requires 0 < t <= m && m <= t * k
    ensures 1.0 + Budget(k, m - t) <= Budget(k, m)
  {
    BudgetGap(k, m, t);
    var gap := Budget(k, m) - Budget(k, m - t);
    assert k * t == t * k;
    if gap < 1.0 {
      MulStrict(m as real, gap, 1.0);
    }
  }

  lemma MulStrict(a: real, x: real, y: real)
    requires 0.0 < a && x < y
    ensures x * a < y * a
  {}

  /** Every cover by candidates contains the sole covers. */
  lemma SoleCoversForced(cover: Cover, c: set<IP>)
    requires Uncovered(cover, c) == {}
    ensures SoleCovers(cover) <= c
  {
    forall h | h in SoleCovers(cover)
      ensures h in c
    {
      var t :| t in cover && cover[t] == {h};
      assert t !in Uncovered(cover, c);
    }
  }

  lemma PickStepBound(cover: Cover, cands: map<IP, Standing>, start: set<IP>, before: set<IP>, h: IP, c: set<IP>)
    requires IsGreedyPick(cover, cands, Uncovered(cover, before), h) && start <= before
    requires c <= cands.Keys && CoversAll(cover, Uncovered(cover, start), c)
    ensures 1.0 + Budget(|c|, |Uncovered(cover, before + {h})|) <= Budget(|c|, |Uncovered(cover, before)|)
  {
    var rest := Uncovered(cover, before);
    var t := Gain(cover, rest, h);
    PickShrinks(cover, before, h);
    forall x | x in rest
      ensures x in Uncovered(cover, start)
    {}
    forall x | x in c
      ensures Gain(cover, rest, x) <= t
    {
      assert NoBetter(Gain(cover, rest, x), cands[x], t, cands[h]);
    }
    ShareBound(cover, rest, c, t);
    PickPays(|c|, |rest|, t);
  }

  lemma {:induction false} GreedyRunBound(cover: Cover, cands: map<IP, Standing>, start: set<IP>, picks: seq<IP>, c: set<IP>)
    requires GreedyRun(cover, cands, start, picks)
    requires c <= cands.Keys && CoversAll(cover, Uncovered(cover, start), c)
    ensures (|picks| as real) + Budget(|c|, |Uncovered(cover, start + Elements(picks))|)
            <= Budget(|c|, |Uncovered(cover, start)|)
  {
    if picks == [] {
      assert start + Elements(picks) == start;
    } else {
      var n := |picks| - 1;
      var before, h := start + Elements(picks[..n]), picks[n];
      GreedyRunBound(cover, cands, start, picks[..n], c);
      PickStepBound(cover, cands, start, before, h, c);
      assert start + Elements(picks) == before + {h};
    }
  }

  lemma {:induction false} ElementsCard(picks: seq<IP>)
    ensures |Elements(picks)| <= |picks|
  {
    if picks != [] {
      var n := |picks| - 1;
      ElementsCard(picks[..n]);
    }
  }

  /** The greedy choice is near-optimal: against any cover c by candidates it exceeds
      the forced picks by at most a harmonic factor of what c exceeds them by. */
  lemma GreedyNearOptimal(cover: Cover, cands: map<IP, Standing>, chosen: set<IP>, c: set<IP>)
    requires GreedyCoverOf(cover, cands, chosen)
    requires c <= cands.Keys && Uncovered(cover, c) == {}
    ensures var s := SoleCovers(cover);
            && s <= c
            && |c| >= |s| && (|chosen| as real) <= HarmonicBound(|s|, |c| - |s|, |Uncovered(cover, s)|)
  {
    var picks :| GreedyRun(cover, cands, SoleCovers(cover), picks) && chosen == SoleCovers(cover) + Elements(picks);
    SoleCoversForced(cover, c);
    DiffCard(c, SoleCovers(cover));
    RunNearOptimal(cover, cands, SoleCovers(cover), picks, c);
  }

  lemma RunNearOptimal(cover: Cover, cands: map<IP, Standing>, s: set<IP>, picks: seq<IP>, c: set<IP>)
    requires GreedyRun(cover, cands, s, picks) && |Uncovered(cover, s + Elements(picks))| == 0
    requires c <= cands.Keys && Uncovered(cover, c) == {}
    ensures (|s + Elements(picks)| as real) <= HarmonicBound(|s|, |c - s|, |Uncovered(cover, s)|)
  {
    UncoveredNeedsRest(cover, s, c);
    GreedyRunBound(cover, cands, s, picks, c - s);
    UnionCard(s, Elements(picks));
    ElementsCard(picks);
    Conclude(|s + Elements(picks)|, |s|, |picks|, |c - s|, |Uncovered(cover, s)|);
  }

  lemma Conclude(chosen: nat, forced: nat, picks: nat, k: nat, n: nat)
    requires chosen <= forced + picks && (picks as real) <= Budget(k, n)
    ensures (chosen as real) <= HarmonicBound(forced, k, n)
  {
    hide Harmonic, Budget;
    BoundIsBudget(forced, k, n);
    assert (chosen as real) <= (forced as real) + (picks as real);
  }

  lemma BoundIsBudget(forced: nat, k: nat, n: nat)
    ensures HarmonicBound(forced, k, n) == (forced as real) + Budget(k, n)
  {
    hide Harmonic, Budget;
    BudgetIsHarmonic(k, n);
  }

  lemma UncoveredNeedsRest(cover: Cover, s: set<IP>, c: set<IP>)
    requires Uncovered(cover, c) == {}
    ensures CoversAll(cover, Uncovered(cover, s), c - s)
  {
    forall t | t in Uncovered(cover, s)
      ensures cover[t] * (c - s) != {}
    {
      assert t !in Uncovered(cover, c);
      var x :| x in cover[t] && x in c;
      assert x in cover[t] * (c - s);
    }
  }

  lemma UnionCard<T>(a: set<T>, b: set<T>)
    ensures |a + b| <= |a| + |b|
  {
    assert a + b == a + (b - a);
    SubsetCard(b - a, b);
  }

  // ---- When the choice is least ----

  lemma PicksOfPrefix(cover: Cover, cands: map<IP, Standing>, start: set<IP>, picks: seq<IP>)
    requires GreedyRun(cover, cands, start, picks) && picks != []
    ensures var n := |picks| - 1;
            && GreedyRun(cover, cands, start, picks[..n])
            && IsGreedyPick(cover, cands, Uncovered(cover, start + Elements(picks[..n])), picks[n])
            && start + Elements(picks) == start + Elements(picks[..n]) + {picks[n]}
  {}

  /** The first pick is greedy for what the start leaves uncovered, and each later pick
      covers at least one more node. */
  lemma {:induction false} LaterPicks(cover: Cover, cands: map<IP, Standing>, start: set<IP>, picks: seq<IP>)
    requires GreedyRun(cover, cands, start, picks) && picks != []
    ensures IsGreedyPick(cover, cands, Uncovered(cover, start), picks[0])
    ensures |picks| - 1 + |Uncovered(cover, start + Elements(picks))| <= |Uncovered(cover, start + {picks[0]})|
  {
    hide GreedyRun, IsGreedyPick;
    var n := |picks| - 1;
    PicksOfPrefix(cover, cands, start, picks);
    if n == 0 {
      assert start + Elements(picks[..0]) == start;
    } else {
      LaterPicks(cover, cands, start, picks[..n]);
      var before := start + Elements(picks[..n]);
      PickShrinks(cover, before, picks[n]);
      PickGains(cover, cands, Uncovered(cover, before), picks[n]);
    }
  }

  lemma PickGains(cover: Cover, cands: map<IP, Standing>, rest: set<IP>, h: IP)
    requires IsGreedyPick(cover, cands, rest, h)
    ensures Gain(cover, rest, h) > 0
  {}

  /** If k candidates cover what the start leaves, at most three nodes, then there are at
      most k picks. */
  lemma FewPicks(cover: Cover, cands: map<IP, Standing>, start: set<IP>, picks: seq<IP>, c: set<IP>)
    requires GreedyRun(cover, cands, start, picks) && |Uncovered(cover, start)| <= 3
    requires c <= cands.Keys && CoversAll(cover, Uncovered(cover, start), c)
    ensures |picks| <= |c|
  {
    if picks != [] {
      hide GreedyRun;
      var rest, h := Uncovered(cover, start), picks[0];
      LaterPicks(cover, cands, start, picks);
      var t := Gain(cover, rest, h);
      forall x | x in c
        ensures Gain(cover, rest, x) <= t
      {
        assert NoBetter(Gain(cover, rest, x), cands[x], t, cands[h]);
      }
      ShareBound(cover, rest, c, t);
      PickShrinks(cover, start, h);
      assert |picks| <= 1 + |rest| - t;
      FewNodes(|rest|, t, |c|, |picks|);
    }
  }

  lemma FewNodes(rest: nat, t: nat, k: nat, picks: nat)
    requires rest <= 3 && 0 < t <= rest && rest <= t * k && picks <= 1 + rest - t
    ensures picks <= k
  {
    if t == 1 {
      assert t * k == k;
    } else if k == 1 {
      assert t * k == t;
    }
  }

  /** The choice is least among all covers if the sole covers leave at most three nodes. */
  lemma GreedyLeastUpToThree(cover: Cover, cands: map<IP, Standing>, chosen: set<IP>, c: set<IP>)
    requires GreedyCoverOf(cover, cands, chosen) && |Uncovered(cover, SoleCovers(cover))| <= 3
    requires c <= cands.Keys && Uncovered(cover, c) == {}
    ensures |chosen| <= |c|
  {
    var s := SoleCovers(cover);
    var picks :| GreedyRun(cover, cands, s, picks) && chosen == s + Elements(picks);
    SoleCoversForced(cover, c);
    UncoveredNeedsRest(cover, s, c);
    FewPicks(cover, cands, s, picks, c - s);
    DiffCard(c, s);
    UnionCard(s, Elements(picks));
    ElementsCard(picks);
  }

  // ---- Four nodes for which it is not ----

  const T1: IP := V4(11)
  const T2: IP := V4(12)
  const T3: IP := V4(13)
  const T4: IP := V4(14)

  /** 1 and 2 together cover all four nodes; 3, the most willing, covers one of each. */
  const CROSSING: Cover :=
    map[T1 := {V4(1), V4(3)}, T2 := {V4(1), V4(4)}, T3 := {V4(2), V4(3)}, T4 := {V4(2), V4(5)}]

  const WILLING: map<IP, Standing> :=
    map[V4(1) := Standing(3, 2), V4(2) := Standing(3, 2), V4(3) := Standing(4, 2), V4(4) := Standing(3, 1), V4(5) := Standing(3, 1)]

  lemma CrossingGains()
    ensures Uncovered(CROSSING, {}) == {T1, T2, T3, T4} && SoleCovers(CROSSING) == {}
    ensures Gained(CROSSING, Uncovered(CROSSING, {}), V4(1)) == {T1, T2}
    ensures Gained(CROSSING, Uncovered(CROSSING, {}), V4(2)) == {T3, T4}
    ensures Gained(CROSSING, Uncovered(CROSSING, {}), V4(3)) == {T1, T3}
    ensures Gained(CROSSING, Uncovered(CROSSING, {}), V4(4)) == {T2}
    ensures Gained(CROSSING, Uncovered(CROSSING, {}), V4(5)) == {T4}
  {}

  lemma FirstPickCrossing(h: IP)
    ensures IsGreedyPick(CROSSING, WILLING, Uncovered(CROSSING, {}), h) <==> h == V4(3)
  {
    CrossingGains();
    var rest := Uncovered(CROSSING, {});
    assert Gain(CROSSING, rest, V4(1)) == |{T1, T2}| == 2 && Gain(CROSSING, rest, V4(2)) == |{T3, T4}| == 2;
    assert Gain(CROSSING, rest, V4(3)) == |{T1, T3}| == 2;
    assert Gain(CROSSING, rest, V4(4)) == |{T2}| == 1 && Gain(CROSSING, rest, V4(5)) == |{T4}| == 1;
  }

  lemma PickedIsElement(picks: seq<IP>, i: nat)
    requires i < |picks|
    ensures picks[i] in Elements(picks)
    decreases |picks|
  {
    if i < |picks| - 1 {
      PickedIsElement(picks[..|picks| - 1], i);
    }
  }

  lemma CoveredBy(cover: Cover, chosen: set<IP>, t: IP) returns (h: IP)
    requires Uncovered(cover, chosen) == {} && t in cover
    ensures h in chosen && h in cover[t]
  {
    assert t !in Uncovered(cover, chosen);
    h :| h in chosen && h in cover[t];
  }

  lemma CrossingNeedsFirst(picks: seq<IP>)
    requires GreedyRun(CROSSING, WILLING, {}, picks) && picks != []
    ensures V4(3) in Elements(picks)
  {
    hide GreedyRun, IsGreedyPick;
    LaterPicks(CROSSING, WILLING, {}, picks);
    FirstPickCrossing(picks[0]);
    PickedIsElement(picks, 0);
  }

  /** Every greedy choice for them has three members, although two suffice. */
  lemma GreedyNotLeast(chosen: set<IP>)
    requires GreedyCoverOf(CROSSING, WILLING, chosen)
    ensures |chosen| >= 3
    ensures Uncovered(CROSSING, {V4(1), V4(2)}) == {} && {V4(1), V4(2)} <= WILLING.Keys
  {
    var picks :| GreedyRun(CROSSING, WILLING, SoleCovers(CROSSING), picks) && chosen == SoleCovers(CROSSING) + Elements(picks);
    hide GreedyRun, SoleCovers, Uncovered, Elements;
    CrossingGains();
    TwoSuffice();
    NoPicks(CROSSING, WILLING);
    var x := CoveredBy(CROSSING, chosen, T2);
    var y := CoveredBy(CROSSING, chosen, T4);
    assert x in Elements(picks);
    CrossingNeedsFirst(picks);
    AtLeastThree(chosen, x, y);
  }

  lemma AtLeastThree(chosen: set<IP>, x: IP, y: IP)
    requires V4(3) in chosen && x in chosen && y in chosen && x in CROSSING[T2] && y in CROSSING[T4]
    ensures |chosen| >= 3
  {
    SubsetCard({V4(3), x, y}, chosen);
  }

  lemma TwoSuffice()
    ensures Uncovered(CROSSING, {V4(1), V4(2)}) == {}
  {}

  lemma CrossingLater()
    ensures Uncovered(CROSSING, {V4(3)}) == {T2, T4} && Uncovered(CROSSING, {V4(3), V4(1)}) == {T4}
    ensures IsGreedyPick(CROSSING, WILLING, Uncovered(CROSSING, {V4(3)}), V4(1))
    ensures IsGreedyPick(CROSSING, WILLING, Uncovered(CROSSING, {V4(3), V4(1)}), V4(2))
  {
    var rest := Uncovered(CROSSING, {V4(3)});
    assert rest == {T2, T4};
    assert Gained(CROSSING, rest, V4(1)) == {T2} && Gained(CROSSING, rest, V4(2)) == {T4};
    assert Gained(CROSSING, rest, V4(3)) == {} && Gained(CROSSING, rest, V4(4)) == {T2} && Gained(CROSSING, rest, V4(5)) == {T4};
    var last := Uncovered(CROSSING, {V4(3), V4(1)});
    assert last == {T4};
    assert Gained(CROSSING, last, V4(1)) == {} && Gained(CROSSING, last, V4(2)) == {T4};
    assert Gained(CROSSING, last, V4(3)) == {} && Gained(CROSSING, last, V4(4)) == {} && Gained(CROSSING, last, V4(5)) == {T4};
  }

  /** And there is such a choice. */
  lemma CrossingChoice()
    ensures GreedyCoverOf(CROSSING, WILLING, {V4(3), V4(1), V4(2)})
  {
    hide GreedyRun, IsGreedyPick;
    var one, two, three := [V4(3)], [V4(3), V4(1)], [V4(3), V4(1), V4(2)];
    CrossingGains();
    CrossingLater();
    FirstPickCrossing(V4(3));
    NoPicks(CROSSING, WILLING);
    GreedyRunSnoc(CROSSING, WILLING, {}, [], V4(3));
    assert [] + [V4(3)] == one && {} + Elements(one) == {V4(3)};
    GreedyRunSnoc(CROSSING, WILLING, {}, one, V4(1));
    assert one + [V4(1)] == two && {} + Elements(two) == {V4(3), V4(1)};
    GreedyRunSnoc(CROSSING, WILLING, {}, two, V4(2));
    assert two + [V4(2)] == three && {} + Elements(three) == {V4(3), V4(1), V4(2)};
    assert GreedyRun(CROSSING, WILLING, SoleCovers(CROSSING), three);
    assert Uncovered(CROSSING, {V4(3), V4(1), V4(2)}) == {};
  }

  lemma NoPicks(cover: Cover, cands: map<IP, Standing>)
    ensures GreedyRun(cover, cands, {}, []) && {} + Elements([]) == {}
  {}
}
