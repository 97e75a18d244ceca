/** Multicast forwarding entries from confirmed children, and their publication. */
module Molsr {
  import opened Common
  import opened Expiry
  import opened TableSync

  /** Child, then the time its confirmation expires. */
  type Children = map<IP, Nanos>

  /** Source (or group), then its children (or sources). */
  type Sources = map<IP, Children>

  /** Group, then its sources. */
  type Confirmed = map<IP, Sources>

  /** A (source, group) pair. */
  type Flow = (IP, IP)

  datatype MfcEntry = MfcEntry(source: IP, group: IP, iif: int, oifs: seq<int>)

  type Mfc = map<Flow, MfcEntry>

  /** The interface towards a node, if the unicast table has a route to it. */
  type Lookup = IP -> Option<int>

  predicate Claimed(claims: Sources, grp: IP, src: IP) {
    grp in claims && src in claims[grp]
  }

  predicate Confirms(c: Confirmed, grp: IP, src: IP, child: IP) {
    grp in c && src in c[grp] && child in c[grp][src]
  }

  function ChildrenOf(c: Confirmed, grp: IP, src: IP): Children {
    if grp in c && src in c[grp] then c[grp][src] else map[]
  }

  predicate NoDuplicates<A(==)>(s: seq<A>) {
    forall i, j :: 0 <= i < j < |s| ==> s[i] != s[j]
  }

  /** x is an interface towards some reachable child, other than the incoming one. */
  ghost predicate Outgoing(children: set<IP>, lookup: Lookup, iif: int, x: int) {
    x != iif && exists c :: c in children && lookup(c) == Some(x)
  }

  ghost predicate OifsFor(children: set<IP>, lookup: Lookup, iif: int, oifs: seq<int>) {
    NoDuplicates(oifs) && forall x :: x in oifs <==> Outgoing(children, lookup, iif, x)
  }

  /** The flow has children and a route to its source. */
  predicate Forwarded(c: Confirmed, lookup: Lookup, f: Flow) {
    ChildrenOf(c, f.1, f.0) != map[] && lookup(f.0).Some?
  }

  ghost predicate EntryFor(c: Confirmed, lookup: Lookup, f: Flow, e: MfcEntry) {
    && e.source == f.0 && e.group == f.1
    && lookup(f.0) == Some(e.iif)
    && OifsFor(ChildrenOf(c, f.1, f.0).Keys, lookup, e.iif, e.oifs)
  }

  /** Exactly the flows to be forwarded, each with its own entry. */
  ghost predicate IsMfc(c: Confirmed, lookup: Lookup, mfc: Mfc) {
    && (forall f :: f in mfc <==> Forwarded(c, lookup, f))
    && (forall f :: f in mfc ==> EntryFor(c, lookup, f, mfc[f]))
  }

  /** Entries for the flows of `groups`, and of the sources of `grp` in `sources`. */
  ghost predicate MfcSoFar(c: Confirmed, lookup: Lookup, groups: set<IP>, grp: IP, sources: set<IP>, mfc: Mfc) {
    && (forall f :: f in mfc <==> Forwarded(c, lookup, f) && (f.1 in groups || (f.1 == grp && f.0 in sources)))
    && (forall f :: f in mfc ==> EntryFor(c, lookup, f, mfc[f]))
  }

  /** The comparison made before publishing: the interface lists in order. */
  predicate SameEntry(a: MfcEntry, b: MfcEntry) {
    a.iif == b.iif && a.oifs == b.oifs
  }

  /** Entries are filed under their own flow. */
  ghost predicate Filed(mfc: Mfc) {
    forall f :: f in mfc ==> mfc[f].source == f.0 && mfc[f].group == f.1
  }

  /** What an ageing pass leaves: unexpired children, and no empty list of any kind. */
  function AgedSources(s: Sources, now: Nanos): Sources {
    map src | src in s && Unexpired(s[src], now) != map[] :: Unexpired(s[src], now)
  }

  ghost predicate AnyStale(s: Sources, now: Nanos) {
    exists src :: src in s && AnyExpired(s[src], now)
  }

  function AgedConfirmed(c: Confirmed, now: Nanos): Confirmed {
    map grp | grp in c && AgedSources(c[grp], now) != map[] :: AgedSources(c[grp], now)
  }

  /** Ageing keeps exactly the unexpired confirmations. */
  lemma AgedExactly(c: Confirmed, now: Nanos, grp: IP, src: IP, child: IP)
    ensures Confirms(AgedConfirmed(c, now), grp, src, child) <==>
              Confirms(c, grp, src, child) && now <= c[grp][src][child]
    ensures Confirms(AgedConfirmed(c, now), grp, src, child) ==>
              AgedConfirmed(c, now)[grp][src][child] == c[grp][src][child]
  {
    if Confirms(c, grp, src, child) && now <= c[grp][src][child] {
      assert child in Unexpired(c[grp][src], now);
      assert src in AgedSources(c[grp], now);
    }
  }

  /** The source's claim lasts until `exp`, and no other claim changed. */
  ghost predicate ClaimEffect(before: Sources, after: Sources, grp: IP, src: IP, exp: Nanos) {
    && Claimed(after, grp, src) && after[grp][src] == exp
    && forall g, s :: (g, s) != (grp, src) ==>
         && (Claimed(after, g, s) <==> Claimed(before, g, s))
         && (Claimed(after, g, s) ==> after[g][s] == before[g][s])
  }

  /** The child's confirmation lasts until `exp`, and no other confirmation changed. */
  ghost predicate ConfirmEffect(before: Confirmed, after: Confirmed, grp: IP, src: IP, child: IP, exp: Nanos) {
    && Confirms(after, grp, src, child) && after[grp][src][child] == exp
    && forall g, s, c :: (g, s, c) != (grp, src, child) ==>
         && (Confirms(after, g, s, c) <==> Confirms(before, g, s, c))
         && (Confirms(after, g, s, c) ==> after[g][s][c] == before[g][s][c])
  }

  class MOLSRManager {
    const routerID: IP
    /** Group, then source, then the time the claim expires. */
    var sourceClaims: Sources
    var confirmParents: Confirmed
    var activeMfc: Mfc
    var events: seq<Event<Flow, MfcEntry>>
    /** How many topology-update events have been published. */
    var updates: nat

    ghost predicate Valid()
      reads this
    {
      Filed(activeMfc)
    }

    constructor (routerID: IP)
      ensures Valid() && this.routerID == routerID && confirmParents == map[] && activeMfc == map[] && events == []
      ensures sourceClaims == map[] && updates == 0
    {
      this.routerID, sourceClaims, confirmParents, activeMfc, events, updates := routerID, map[], map[], map[], [], 0;
    }

    /** Registers or renews the claim of a source to a group. */
    method ProcessSourceClaim(src: IP, grp: IP, vtime: Nanos, now: Nanos)
      modifies this`sourceClaims, this`updates
      ensures updates == old(updates) + 1
      ensures ClaimEffect(old(sourceClaims), sourceClaims, grp, src, now + vtime)
    {
      var sources: Children := if grp in sourceClaims then sourceClaims[grp] else map[];
      sourceClaims := sourceClaims[grp := sources[src := now + vtime]];
      updates := updates + 1;
    }

    /** Registers a child that names this router as its parent; others are ignored. */
    method ProcessConfirmParent(child: IP, src: IP, grp: IP, parent: IP, vtime: Nanos, now: Nanos)
      modifies this`confirmParents, this`updates
      ensures updates == old(updates) + (if parent == routerID then 1 else 0)
      ensures parent != routerID ==> confirmParents == old(confirmParents)
      ensures parent == routerID ==> ConfirmEffect(old(confirmParents), confirmParents, grp, src, child, now + vtime)
    {
      if parent != routerID {
        return;
      }
      var sources: Sources := if grp in confirmParents then confirmParents[grp] else map[];
      var children: Children := if src in sources then sources[src] else map[];
      confirmParents := confirmParents[grp := sources[src := children[child := now + vtime]]];
      updates := updates + 1;
    }

    /** Ages claims and confirmations; publishes an event if any of them expired. */
    method AgeOut(now: Nanos) returns (changed: bool)
      modifies this`sourceClaims, this`confirmParents, this`updates
      ensures sourceClaims == AgedSources(old(sourceClaims), now)
      ensures confirmParents == AgedConfirmed(old(confirmParents), now)
      ensures changed <==> AnyStale(old(sourceClaims), now)
                           || exists g :: g in old(confirmParents) && AnyStale(old(confirmParents)[g], now)
      ensures updates == old(updates) + (if changed then 1 else 0)
    {
      var claims, c1 := AgeSources(sourceClaims, now);
      sourceClaims := claims;
      var c2 := AgeConfirmed(now);
      changed := c1 || c2;
      if changed {
        updates := updates + 1;
      }
    }

    method AgeConfirmed(now: Nanos) returns (changed: bool)
      modifies this`confirmParents
      ensures confirmParents == AgedConfirmed(old(confirmParents), now)
      ensures changed <==> exists g :: g in old(confirmParents) && AnyStale(old(confirmParents)[g], now)
    {
      hide AgedSources, AnyStale;
      changed := false;
      var all := confirmParents;
      var todo := all.Keys;
      while todo != {}
        invariant todo <= all.Keys
        invariant confirmParents == map g | g in all && (g in todo || AgedSources(all[g], now) != map[])
                                          :: if g in todo then all[g] else AgedSources(all[g], now)
        invariant changed <==> exists g :: g in all && g !in todo && AnyStale(all[g], now)
        decreases todo
      {
        var grp :| grp in todo;
        todo := todo - {grp};
        var kept, stale := AgeSources(all[grp], now);
        changed := changed || stale;
        confirmParents := if kept == map[] then confirmParents - {grp} else confirmParents[grp := kept];
      }
    }

    method AgeSources(sources: Sources, now: Nanos) returns (r: Sources, stale: bool)
      ensures r == AgedSources(sources, now)
      ensures stale <==> AnyStale(sources, now)
    {
      r, stale := sources, false;
      var todo := sources.Keys;
      while todo != {}
        invariant todo <= sources.Keys
        invariant r == map s | s in sources && (s in todo || Unexpired(sources[s], now) != map[])
                             :: if s in todo then sources[s] else Unexpired(sources[s], now)
        invariant stale <==> exists s :: s in sources && s !in todo && AnyExpired(sources[s], now)
        decreases todo
      {
        var src :| src in todo;
        todo := todo - {src};
        var kept, expired := Prune(sources[src], now);
        stale := stale || expired;
        r := if kept == map[] then r - {src} else r[src := kept];
      }
    }

    /** Recomputes the forwarding entries and publishes how they differ; without a way to
        look up interfaces it does nothing. */
    method RecalculateMroutes(lookup: Option<Lookup>) returns (ghost published: seq<Event<Flow, MfcEntry>>)
      requires Valid()
      modifies this`activeMfc, this`events
      ensures Valid() && events == old(events) + published
      ensures lookup.None? ==> activeMfc == old(activeMfc) && published == []
      ensures lookup.Some? ==> IsMfc(confirmParents, lookup.value, activeMfc)
                               && IsDiff(old(activeMfc), activeMfc, SameEntry, published)
    {
      if lookup.None? {
        return [];
      }
      var newMfc := BuildNewMFC(lookup.value);
      published := SyncGoneOrChanged(newMfc);
      published := SyncNew(newMfc, old(events), published);
      activeMfc := newMfc;
    }

    method BuildNewMFC(lookup: Lookup) returns (mfc: Mfc)
      ensures IsMfc(confirmParents, lookup, mfc)
    {
      mfc := map[];
      var todo := confirmParents.Keys;
      ghost var any := V4(0);
      while todo != {}
        invariant todo <= confirmParents.Keys
        invariant MfcSoFar(confirmParents, lookup, confirmParents.Keys - todo, any, {}, mfc)
        decreases todo
      {
        var grp :| grp in todo;
        NextKey(confirmParents.Keys, todo, grp);
        mfc := AddGroup(lookup, confirmParents.Keys - todo, grp, mfc);
        todo := todo - {grp};
      }
      NoKeysLeft(confirmParents.Keys, todo);
    }

    method AddGroup(lookup: Lookup, ghost groups: set<IP>, grp: IP, mfc0: Mfc) returns (mfc: Mfc)
      requires grp in confirmParents && grp !in groups
      requires MfcSoFar(confirmParents, lookup, groups, grp, {}, mfc0)
      ensures MfcSoFar(confirmParents, lookup, groups + {grp}, grp, {}, mfc)
    {
      mfc := mfc0;
      var sources := confirmParents[grp];
      var todo := sources.Keys;
      assert sources.Keys - todo == {};
      while todo != {}
        invariant todo <= sources.Keys
        invariant MfcSoFar(confirmParents, lookup, groups, grp, sources.Keys - todo, mfc)
        decreases todo
      {
        var src :| src in todo;
        NextKey(sources.Keys, todo, src);
        todo := todo - {src};
        var children := sources[src];
        if |children| == 0 || lookup(src).None? {
          assert !Forwarded(confirmParents, lookup, (src, grp));
          continue;
        }
        var iif := lookup(src).value;
        var oifs := OutgoingInterfaces(children.Keys, lookup, iif);
        mfc := mfc[(src, grp) := MfcEntry(src, grp, iif, oifs)];
      }
      NoKeysLeft(sources.Keys, todo);
    }

    method OutgoingInterfaces(children: set<IP>, lookup: Lookup, iif: int) returns (oifs: seq<int>)
      ensures OifsFor(children, lookup, iif, oifs)
    {
      oifs := [];
      var seen: set<int> := {};
      var todo := children;
      while todo != {}
        invariant todo <= children && NoDuplicates(oifs)
        invariant forall x :: x in seen <==> x in oifs
        invariant forall x :: x in oifs <==> x != iif && exists c :: c in children && c !in todo && lookup(c) == Some(x)
        decreases todo
      {
        var child :| child in todo;
        todo := todo - {child};
        if lookup(child).Some? {
          var x := lookup(child).value;
          if x !in seen && x != iif {
            oifs := oifs + [x];
            seen := seen + {x};
          }
        }
      }
    }

    method SyncGoneOrChanged(newMfc: Mfc) returns (ghost published: seq<Event<Flow, MfcEntry>>)
      modifies this`events
      ensures events == old(events) + published
      ensures DiffOn(activeMfc, newMfc, SameEntry, published, activeMfc.Keys)
    {
      published := [];
      var before := activeMfc;
      var todo := before.Keys;
      assert before.Keys - todo == {};
      while todo != {}
        invariant todo <= before.Keys && events == old(events) + published
        invariant DiffOn(before, newMfc, SameEntry, published, before.Keys - todo)
        decreases todo
      {
        var f :| f in todo;
        ghost var seen := before.Keys - todo;
        NextKey(before.Keys, todo, f);
        todo := todo - {f};
        if f !in newMfc {
          var e := Delete(f, before[f]);
          VisitChanged(before, newMfc, SameEntry, published, seen, e);
          events, published := events + [e], published + [e];
          continue;
        }
        var oifsChanged := OifsDiffer(before[f].oifs, newMfc[f].oifs);
        if before[f].iif != newMfc[f].iif || oifsChanged {
          var e := Add(f, newMfc[f]);
          VisitChanged(before, newMfc, SameEntry, published, seen, e);
          events, published := events + [e], published + [e];
        } else {
          VisitUnchanged(before, newMfc, SameEntry, published, seen, f);
        }
      }
      NoKeysLeft(before.Keys, todo);
    }

    method OifsDiffer(a: seq<int>, b: seq<int>) returns (r: bool)
      ensures r <==> a != b
    {
      if |a| != |b| {
        return true;
      }
      for i := 0 to |a|
        invariant a[..i] == b[..i]
      {
        if b[i] != a[i] {
          return true;
        }
      }
      assert a[..|a|] == a && b[..|b|] == b;
      return false;
    }

    method SyncNew(newMfc: Mfc, ghost base: seq<Event<Flow, MfcEntry>>, ghost sofar: seq<Event<Flow, MfcEntry>>)
      returns (ghost published: seq<Event<Flow, MfcEntry>>)
      requires events == base + sofar
      requires DiffOn(activeMfc, newMfc, SameEntry, sofar, activeMfc.Keys)
      modifies this`events
      ensures events == base + published
      ensures IsDiff(activeMfc, newMfc, SameEntry, published)
    {
      published := sofar;
      var before := activeMfc;
      var todo := newMfc.Keys;
      assert before.Keys + (newMfc.Keys - todo) == before.Keys;
      while todo != {}
        invariant todo <= newMfc.Keys && events == base + published
        invariant DiffOn(before, newMfc, SameEntry, published, before.Keys + (newMfc.Keys - todo))
        decreases todo
      {
        var f :| f in todo;
        ghost var seen := before.Keys + (newMfc.Keys - todo);
        NextKey(newMfc.Keys, todo, f);
        NextKeyOver(before.Keys, newMfc.Keys, todo, f);
        todo := todo - {f};
        if f !in before {
          var e := Add(f, newMfc[f]);
          VisitChanged(before, newMfc, SameEntry, published, seen, e);
          events, published := events + [e], published + [e];
        }
      }
      NoKeysLeft(newMfc.Keys, todo);
    }
  }

  /** Two tables for the same confirmations differ at most in the order of interfaces. */
  lemma MfcUnique(c: Confirmed, lookup: Lookup, a: Mfc, b: Mfc, f: Flow)
    requires IsMfc(c, lookup, a) && IsMfc(c, lookup, b)
    ensures f in a <==> f in b
    ensures f in a ==> a[f].iif == b[f].iif && multiset(a[f].oifs) == multiset(b[f].oifs)
  {
    if f in a && f in b {
      assert EntryFor(c, lookup, f, a[f]) && EntryFor(c, lookup, f, b[f]);
      forall x
        ensures multiset(a[f].oifs)[x] == multiset(b[f].oifs)[x]
      {
        CountOnce(a[f].oifs, x);
        CountOnce(b[f].oifs, x);
        assert x in a[f].oifs <==> x in b[f].oifs;
      }
    }
  }

  lemma {:induction false} CountOnce(s: seq<int>, x: int)
    requires NoDuplicates(s)
    ensures multiset(s)[x] == if x in s then 1 else 0
  {
    if s != [] {
      var n := |s| - 1;
      CountOnce(s[..n], x);
      assert s == s[..n] + [s[n]];
    }
  }

  ghost predicate FiledEvent(e: Event<Flow, MfcEntry>) {
    e.Add? ==> e.value.source == e.key.0 && e.value.group == e.key.1
  }

  lemma {:induction false} ReplayFiled(events: seq<Event<Flow, MfcEntry>>)
    requires forall i :: 0 <= i < |events| ==> FiledEvent(events[i])
    ensures Filed(Replay(map[], events))
  {
    if events != [] {
      var n := |events| - 1;
      ReplayFiled(events[..n]);
      assert FiledEvent(events[n]);
    }
  }

  lemma {:induction false} PublishedFiled(tables: seq<Mfc>, runs: seq<seq<Event<Flow, MfcEntry>>>, i: nat)
    requires History(tables, runs, SameEntry) && forall k :: 0 <= k < |tables| ==> Filed(tables[k])
    requires i < |AllEvents(runs)|
    ensures FiledEvent(AllEvents(runs)[i])
  {
    var n := |runs|;
    if i < |AllEvents(runs[..n - 1])| {
      PublishedFiled(tables[..n], runs[..n - 1], i);
    } else {
      var j := i - |AllEvents(runs[..n - 1])|;
      assert Reports(tables[n - 1], tables[n], runs[n - 1][j]);
      assert Filed(tables[n]);
    }
  }

  /** Replaying every published event gives the active table exactly: with entries
      filed under their flow, the compared fields are all there is. */
  lemma MfcReplayExact(tables: seq<Mfc>, runs: seq<seq<Event<Flow, MfcEntry>>>)
    requires History(tables, runs, SameEntry)
    requires forall i :: 0 <= i < |tables| ==> Filed(tables[i])
    ensures Replay(map[], AllEvents(runs)) == tables[|runs|]
  {
    ReplayRefinesTable(tables, runs, SameEntry);
    forall i | 0 <= i < |AllEvents(runs)|
      ensures FiledEvent(AllEvents(runs)[i])
    {
      PublishedFiled(tables, runs, i);
    }
    ReplayFiled(AllEvents(runs));
    var r, t := Replay(map[], AllEvents(runs)), tables[|runs|];
    forall f | f in t
      ensures f in r && r[f] == t[f]
    {}
  }

  // ---- The same, entry by entry ----

  /** A flow has an entry exactly if some child confirmed it and the source can be reached;
      the entry names the interface towards the source as incoming, and as outgoing, each
      once, those towards the children that can be reached, but never the incoming one. */
  lemma EntryExactly(c: Confirmed, lookup: Lookup, mfc: Mfc, src: IP, grp: IP)
    requires IsMfc(c, lookup, mfc)
    ensures (src, grp) in mfc <==> lookup(src).Some? && exists child :: grp in c && src in c[grp] && child in c[grp][src]
    ensures (src, grp) in mfc ==>
              var e := mfc[(src, grp)];
              && e.source == src && e.group == grp && Some(e.iif) == lookup(src) && e.iif !in e.oifs
              && (forall i, j :: 0 <= i < j < |e.oifs| ==> e.oifs[i] != e.oifs[j])
              && (forall child :: child in c[grp][src] && lookup(child).Some? && lookup(child) != lookup(src) ==>
                    lookup(child).value in e.oifs)
              && (forall x :: x in e.oifs ==> exists child :: child in c[grp][src] && lookup(child) == Some(x))
  {
    var f := (src, grp);
    assert f in mfc <==> Forwarded(c, lookup, f);
    if ChildrenOf(c, grp, src) != map[] {
      var child :| child in c[grp][src];
    }
    if f in mfc {
      var e := mfc[f];
      assert EntryFor(c, lookup, f, e);
      forall child | child in c[grp][src] && lookup(child).Some? && lookup(child) != lookup(src)
        ensures lookup(child).value in e.oifs
      {
        assert Outgoing(c[grp][src].Keys, lookup, e.iif, lookup(child).value);
      }
      forall x | x in e.oifs
        ensures x != e.iif && exists child :: child in c[grp][src] && lookup(child) == Some(x)
      {
        assert Outgoing(c[grp][src].Keys, lookup, e.iif, x);
      }
    }
  }

  /** A confirmation made until exp is gone after the first ageing past it, not before, and
      so is a claim. */
  lemma ConfirmationLasts(c: Confirmed, c': Confirmed, grp: IP, src: IP, child: IP, exp: Nanos, now: Nanos)
    requires ConfirmEffect(c, c', grp, src, child, exp)
    ensures grp in c' && src in c'[grp] && child in c'[grp][src]
    ensures Confirms(AgedConfirmed(c', now), grp, src, child) <==> now <= exp
  {
    AgedExactly(c', now, grp, src, child);
  }

  lemma ClaimLasts(c: Sources, c': Sources, grp: IP, src: IP, exp: Nanos, now: Nanos)
    requires ClaimEffect(c, c', grp, src, exp)
    ensures grp in AgedSources(c', now) && src in AgedSources(c', now)[grp] <==> now <= exp
  {
    if now <= exp {
      assert src in Unexpired(c'[grp], now);
    }
  }

  /** Ageing keeps exactly the unexpired claims. */
  lemma ClaimsAgedExactly(c: Sources, now: Nanos, grp: IP, src: IP)
    ensures grp in AgedSources(c, now) && src in AgedSources(c, now)[grp] <==>
              grp in c && src in c[grp] && now <= c[grp][src]
    ensures grp in AgedSources(c, now) && src in AgedSources(c, now)[grp] ==> AgedSources(c, now)[grp][src] == c[grp][src]
  {
    if grp in c && src in c[grp] && now <= c[grp][src] {
      assert src in Unexpired(c[grp], now);
    }
  }
}
